/** Failure-compatible wrapper types shared by the other modules. */
module Wrappers {

  /** An optional value: a null id, a missing map entry, an index out of range. */
  datatype Option<+T> = None | Some(value: T)
}

/**
 * Shared container helpers: the list 0, 1, ..., n - 1, and the facts about
 * finite sets of integers used to walk a `std::map` in ascending key order.
 */
module Collections {

  /** The numbers 0, 1, ..., n - 1, as std::iota fills them in. */
  function Range(n: nat): (r: seq<nat>)
    ensures |r| == n && forall i :: 0 <= i < n ==> r[i] == i
  {
    seq(n, i => i)
  }

  /** A non-empty set has an element to pick. */
  lemma HasElement(s: set<int>)
    requires s != {}
    ensures exists y :: y in s
  {
    if forall y :: y !in s {
      assert false;
    }
  }

  /** Every finite non-empty set of integers has a least element. */
  lemma {:induction false} MinExists(s: set<int>)
    requires s != {}
    ensures exists m :: m in s && forall x :: x in s ==> m <= x
    decreases |s|
  {
    HasElement(s);
    var y :| y in s;
    if s == {y} {
      assert forall x :: x in s ==> y <= x;
    } else {
      var t := s - {y};
      MinExists(t);
      var m :| m in t && forall x :: x in t ==> m <= x;
      var r := if y < m then y else m;
      forall x | x in s ensures r <= x {
        if x != y { assert x in t; }
      }
      assert r in s;
    }
  }

  /** The least element of a finite non-empty set: the first key a `std::map` visits. */
  function Min(s: set<int>): (m: int)
    requires s != {}
    ensures m in s && forall x :: x in s ==> m <= x
  {
    MinExists(s);
    var m :| m in s && forall x :: x in s ==> m <= x;
    m
  }
}

/** Decimal notation of non-negative integers, as QString::number and QString::arg write them. */
module Decimals {

  function Digit(d: nat): char
    requires d < 10
  {
    (d + 48) as char
  }

  /** QString::number on a non-negative int: its decimal digits. */
  function Decimal(k: nat): (s: string)
    ensures |s| >= 1 && (|s| == 1 <==> k < 10)
  {
    if k < 10 then [Digit(k)] else Decimal(k / 10) + [Digit(k % 10)]
  }

  /** Different numbers are written differently. */
  lemma {:induction false} DecimalInjective(a: nat, b: nat)
    requires Decimal(a) == Decimal(b)
    ensures a == b
    decreases a
  {
    if a < 10 && b < 10 {
      assert Decimal(a)[0] == Digit(a);
    } else if a >= 10 && b >= 10 {
      var da, db := Decimal(a), Decimal(b);
      assert da == Decimal(a / 10) + [Digit(a % 10)];
      assert db == Decimal(b / 10) + [Digit(b % 10)];
      assert da[|da| - 1] == Digit(a % 10);
      assert db[|db| - 1] == Digit(b % 10);
      assert da[..|da| - 1] == Decimal(a / 10);
      assert db[..|db| - 1] == Decimal(b / 10);
      DecimalInjective(a / 10, b / 10);
    }
  }
}
