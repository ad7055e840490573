/**
 * The end of the Louvain transform: each node's community composed through
 * the rounds, the community sizes, the cluster numbers handed out by
 * decreasing size, and the "Cluster k" labels.
 */
module LouvainRanking {
  import opened Wrappers
  import opened Decimals

  // ---------------------------------------------------------------------
  // Composing the rounds

  /** NodeArray::at on a round's map: the community of `c`, or null when it has none. */
  function Lookup(m: map<nat, nat>, c: nat): (r: Option<nat>)
    ensures r.Some? <==> c in m
  {
    if c in m then Some(m[c]) else None
  }

  /** One round of the walk back: a null community stays null, any other is looked up. */
  function Through(c: Option<nat>, iteration: map<nat, nat>): Option<nat>
  {
    if c.None? then None else Lookup(iteration, c.value)
  }

  /**
   * A community walked through `iterations[0]`, …, `iterations[last]` in
   * order. With no rounds it is unchanged, and null stays null.
   */
  function Compose(c: Option<nat>, iterations: seq<map<nat, nat>>): (r: Option<nat>)
    ensures iterations == [] ==> r == c
    ensures c.None? ==> r.None?
  {
    if iterations == [] then c
    else Through(Compose(c, iterations[..|iterations| - 1]), iterations[|iterations| - 1])
  }

  /** Walking through `a` and then `b` is walking through `a + b`. */
  lemma {:induction false} ComposeAppend(c: Option<nat>, a: seq<map<nat, nat>>, b: seq<map<nat, nat>>)
    ensures Compose(c, a + b) == Compose(Compose(c, a), b)
    decreases |b|
  {
    if b == [] {
      assert a + b == a;
    } else {
      var k := |b| - 1;
      assert (a + b)[..|a + b| - 1] == a + b[..k];
      ComposeAppend(c, a, b[..k]);
    }
  }

  /** Each round's communities are nodes of the next round. */
  ghost predicate Chained(iterations: seq<map<nat, nat>>)
  {
    forall i :: 0 <= i < |iterations| - 1 ==> iterations[i].Values <= iterations[i + 1].Keys
  }

  /**
   * A node with a community in the first round keeps a community through
   * every chained round: after `k` rounds it holds the round-`k` community
   * of some node of that round.
   */
  lemma {:induction false} ComposeChained(iterations: seq<map<nat, nat>>, n: nat, k: nat)
    requires Chained(iterations) && 1 <= k <= |iterations| && n in iterations[0]
    ensures Compose(Some(n), iterations[..k]).Some? && Compose(Some(n), iterations[..k]).value in iterations[k - 1].Values
    decreases k
  {
    assert iterations[..k][..k - 1] == iterations[..k - 1];
    if k == 1 {
      assert Compose(Some(n), iterations[..0]) == Some(n) by {
        assert iterations[..0] == [];
      }
    } else {
      ComposeChained(iterations, n, k - 1);
      var v := Compose(Some(n), iterations[..k - 1]).value;
      assert v in iterations[k - 2].Values;
      assert v in iterations[k - 1];
    }
  }

  // ---------------------------------------------------------------------
  // Community sizes

  /** How many of the final communities `cs` are `c`. */
  function Count(cs: seq<Option<nat>>, c: Option<nat>): nat
  {
    if cs == [] then 0 else Count(cs[..|cs| - 1], c) + (if cs[|cs| - 1] == c then 1 else 0)
  }

  function Keys(h: seq<(Option<nat>, nat)>): seq<Option<nat>>
  {
    seq(|h|, i requires 0 <= i < |h| => h[i].0)
  }

  predicate DistinctKeys(h: seq<(Option<nat>, nat)>)
  {
    forall i, j :: 0 <= i < j < |h| ==> h[i].0 != h[j].0
  }

  /** Where community `c` sits in the histogram, if anywhere. */
  function Find(h: seq<(Option<nat>, nat)>, c: Option<nat>): (r: Option<nat>)
    ensures r.Some? ==> r.value < |h| && h[r.value].0 == c
    ensures r.None? ==> forall i :: 0 <= i < |h| ==> h[i].0 != c
  {
    if h == [] then None
    else if h[|h| - 1].0 == c then Some(|h| - 1)
    else Find(h[..|h| - 1], c)
  }

  /** The histogram after counting one more node of community `c`. */
  function Bump(h: seq<(Option<nat>, nat)>, c: Option<nat>): seq<(Option<nat>, nat)>
  {
    match Find(h, c)
    case Some(i) => h[i := (c, h[i].1 + 1)]
    case None => h + [(c, 1)]
  }

  /**
   * communityHistogram after counting `cs`: each community once, the null
   * one included, with how many nodes it has. Entries are listed in order
   * of first appearance.
   */
  function Histogram(cs: seq<Option<nat>>): seq<(Option<nat>, nat)>
  {
    if cs == [] then [] else Bump(Histogram(cs[..|cs| - 1]), cs[|cs| - 1])
  }

  /** Counting one more node keeps the communities distinct and adds `c` to them. */
  lemma BumpKeys(h: seq<(Option<nat>, nat)>, c: Option<nat>)
    requires DistinctKeys(h)
    ensures DistinctKeys(Bump(h, c))
    ensures forall x :: x in Keys(Bump(h, c)) <==> x in Keys(h) || x == c
  {
    var r := Bump(h, c);
    forall x ensures x in Keys(r) <==> x in Keys(h) || x == c {
      if x in Keys(r) {
        var i :| 0 <= i < |r| && Keys(r)[i] == x;
        if x != c {
          assert Keys(h)[i] == x;
        }
      }
      if x in Keys(h) {
        var i :| 0 <= i < |h| && Keys(h)[i] == x;
        assert Keys(r)[i] == x;
      }
      if x == c {
        assert Keys(r)[if Find(h, c).Some? then Find(h, c).value else |h|] == c;
      }
    }
  }

  /** Each entry's size stays the number of its nodes after counting one more node. */
  lemma BumpCount(prefix: seq<Option<nat>>, h: seq<(Option<nat>, nat)>, c: Option<nat>, i: nat)
    requires DistinctKeys(h) && forall x :: x in Keys(h) <==> x in prefix
    requires forall j :: 0 <= j < |h| ==> h[j].1 == Count(prefix, h[j].0)
    requires i < |Bump(h, c)|
    ensures Bump(h, c)[i].1 == Count(prefix + [c], Bump(h, c)[i].0)
  {
    var r := Bump(h, c);
    var cs := prefix + [c];
    assert cs[..|cs| - 1] == prefix;
    assert Count(cs, r[i].0) == Count(prefix, r[i].0) + (if c == r[i].0 then 1 else 0);
    if i < |h| && h[i].0 == c {
      assert Find(h, c) == Some(i);
    } else if i == |h| {
      assert Find(h, c).None?;
      assert forall j :: 0 <= j < |h| ==> Keys(h)[j] != c;
      assert c !in Keys(h);
      CountAbsent(prefix, c);
    }
  }

  /** The histogram lists each community of `cs` exactly once, with its number of nodes. */
  lemma {:induction false} HistogramMeaning(cs: seq<Option<nat>>)
    ensures DistinctKeys(Histogram(cs))
    ensures forall c :: c in Keys(Histogram(cs)) <==> c in cs
    ensures forall i :: 0 <= i < |Histogram(cs)| ==> Histogram(cs)[i].1 == Count(cs, Histogram(cs)[i].0)
    decreases |cs|
  {
    if cs != [] {
      var k := |cs| - 1;
      var prefix := cs[..k];
      var c := cs[k];
      assert cs == prefix + [c];
      HistogramMeaning(prefix);
      var prev := Histogram(prefix);
      var h := Histogram(cs);
      assert h == Bump(prev, c);
      BumpKeys(prev, c);
      forall x ensures x in Keys(h) <==> x in cs {
        assert x in cs <==> x in prefix || x == c;
      }
      forall i | 0 <= i < |h| ensures h[i].1 == Count(cs, h[i].0) {
        BumpCount(prefix, prev, c, i);
      }
    }
  }

  lemma {:induction false} CountAbsent(cs: seq<Option<nat>>, c: Option<nat>)
    requires c !in cs
    ensures Count(cs, c) == 0
    decreases |cs|
  {
    if cs != [] {
      var k := |cs| - 1;
      assert forall x :: x in cs[..k] ==> x in cs;
      CountAbsent(cs[..k], c);
    }
  }

  /** The histogram loop: one increment per node. */
  method CountSizes(cs: seq<Option<nat>>) returns (h: seq<(Option<nat>, nat)>)
    ensures h == Histogram(cs)
  {
    h := [];
    var k := 0;
    while k < |cs|
      invariant 0 <= k <= |cs|
      invariant h == Histogram(cs[..k])
    {
      var c := cs[k];
      assert cs[..k + 1][..k] == cs[..k] && cs[..k + 1][k] == c;
      ghost var next := Bump(h, c);
      assert next == Histogram(cs[..k + 1]);
      var found := Find(h, c);
      if found.Some? {
        var i := found.value;
        h := h[i := (c, h[i].1 + 1)];
      } else {
        h := h + [(c, 1)];
      }
      assert h == next;
      k := k + 1;
    }
    assert cs[..k] == cs;
  }

  // ---------------------------------------------------------------------
  // Sorting by size

  /** Sizes never increase along `h`. */
  predicate BySize(h: seq<(Option<nat>, nat)>)
  {
    forall i, j :: 0 <= i < j < |h| ==> h[i].1 >= h[j].1
  }

  lemma BySizeCons(x: (Option<nat>, nat), h: seq<(Option<nat>, nat)>)
    requires BySize(h) && forall y :: y in h ==> x.1 >= y.1
    ensures BySize([x] + h)
  {
    var r := [x] + h;
    forall a, b | 0 <= a < b < |r| ensures r[a].1 >= r[b].1 {
      assert r[b] == h[b - 1];
      if a > 0 {
        assert r[a] == h[a - 1];
      } else {
        assert h[b - 1] in h;
      }
    }
  }

  /** The first entry of a histogram sorted by size is a largest one. */
  lemma FirstIsLargest(h: seq<(Option<nat>, nat)>)
    requires BySize(h)
    ensures forall y :: y in h ==> h[0].1 >= y.1
  {
    forall y | y in h ensures h[0].1 >= y.1 {
      var k :| 0 <= k < |h| && h[k] == y;
      if k > 0 { assert h[0].1 >= h[k].1; }
    }
  }

  /** A bound on the sizes of `t` and of `x` bounds every entry of a permutation of `t` with `x` added. */
  lemma BoundedPermutation(r: seq<(Option<nat>, nat)>, t: seq<(Option<nat>, nat)>, x: (Option<nat>, nat), bound: nat)
    requires multiset(r) == multiset(t) + multiset{x}
    requires bound >= x.1 && forall y :: y in t ==> bound >= y.1
    ensures forall y :: y in r ==> bound >= y.1
  {
    forall y | y in r ensures bound >= y.1 {
      assert y in multiset(r);
      if y != x {
        assert y in multiset(t);
      }
    }
  }

  function InsertBySize(x: (Option<nat>, nat), h: seq<(Option<nat>, nat)>): (r: seq<(Option<nat>, nat)>)
    requires BySize(h)
    ensures BySize(r) && multiset(r) == multiset(h) + multiset{x}
  {
    if h == [] || x.1 >= h[0].1 then
      FirstIsLargest(h);
      BySizeCons(x, h);
      [x] + h
    else
      assert h == [h[0]] + h[1..];
      var rest := InsertBySize(x, h[1..]);
      FirstIsLargest(h);
      BoundedPermutation(rest, h[1..], x, h[0].1);
      BySizeCons(h[0], rest);
      [h[0]] + rest
  }


  /**
   * sortedCommunityHistogram: the entries by non-increasing size. std::sort
   * is not stable, so the order of equal sizes is not specified; this one
   * is a valid outcome.
   */
  function SortBySize(h: seq<(Option<nat>, nat)>): (r: seq<(Option<nat>, nat)>)
    ensures BySize(r) && multiset(r) == multiset(h)
  {
    if h == [] then []
    else
      assert h == [h[0]] + h[1..];
      InsertBySize(h[0], SortBySize(h[1..]))
  }

  /** An entry at two places occurs at least twice. */
  lemma Twice<T>(r: seq<T>, i: nat, j: nat)
    requires i < j < |r| && r[i] == r[j]
    ensures multiset(r)[r[i]] >= 2
  {
    assert r == r[..i] + [r[i]] + r[i + 1..j] + [r[j]] + r[j + 1..];
  }

  /** In a histogram with distinct keys, every entry occurs once. */
  lemma Once(h: seq<(Option<nat>, nat)>, a: nat)
    requires DistinctKeys(h) && a < |h|
    ensures multiset(h)[h[a]] == 1
  {
    assert h == h[..a] + [h[a]] + h[a + 1..];
    assert h[a] !in h[..a];
    var after := h[a + 1..];
    forall x | x in after ensures x != h[a] {
      var b :| 0 <= b < |after| && after[b] == x;
      assert x == h[a + 1 + b];
    }
  }

  /** Sorting keeps each community exactly once, with its size. */
  lemma SortKeepsEntries(h: seq<(Option<nat>, nat)>)
    requires DistinctKeys(h)
    ensures DistinctKeys(SortBySize(h))
    ensures forall e :: e in SortBySize(h) <==> e in h
  {
    var r := SortBySize(h);
    forall e ensures e in r <==> e in h {
      assert e in r <==> e in multiset(r);
      assert e in h <==> e in multiset(h);
    }
    forall i, j | 0 <= i < j < |r| ensures r[i].0 != r[j].0 {
      if r[i].0 == r[j].0 {
        assert r[i] in multiset(h) && r[j] in multiset(h);
        var a :| 0 <= a < |h| && h[a] == r[i];
        var b :| 0 <= b < |h| && h[b] == r[j];
        assert a == b;
        Twice(r, i, j);
        Once(h, a);
        assert false;
      }
    }
  }

  // ---------------------------------------------------------------------
  // Cluster numbers

  /** How many entries of `h` have a community, not null. */
  function NonNull(h: seq<(Option<nat>, nat)>): nat
  {
    if h == [] then 0 else NonNull(h[..|h| - 1]) + (if h[|h| - 1].0.Some? then 1 else 0)
  }

  /** clusterNumbers: walking the sorted entries, each non-null community takes the next number from 1. */
  function ClusterNumbers(sorted: seq<(Option<nat>, nat)>): map<nat, nat>
  {
    if sorted == [] then map[]
    else
      var k := |sorted| - 1;
      var prev := ClusterNumbers(sorted[..k]);
      match sorted[k].0
      case Some(c) => prev[c := NonNull(sorted[..k]) + 1]
      case None => prev
  }

  lemma {:induction false} NonNullMonotone(h: seq<(Option<nat>, nat)>, i: nat)
    requires i <= |h|
    ensures NonNull(h[..i]) <= NonNull(h)
    decreases |h| - i
  {
    if i < |h| {
      var k := |h| - 1;
      assert h[..k][..i] == h[..i];
      NonNullMonotone(h[..k], i);
    } else {
      assert h[..i] == h;
    }
  }

  /** Cluster numbers go to the non-null communities of the entries, and to no other. */
  lemma {:induction false} ClusterNumbersKeys(sorted: seq<(Option<nat>, nat)>)
    ensures forall c :: c in ClusterNumbers(sorted) <==> Some(c) in Keys(sorted)
    decreases |sorted|
  {
    if sorted != [] {
      var k := |sorted| - 1;
      ClusterNumbersKeys(sorted[..k]);
      assert Keys(sorted) == Keys(sorted[..k]) + [sorted[k].0];
    }
  }

  /** The entry at `i` gets one more than the number of non-null entries before it. */
  lemma {:induction false} ClusterNumbersAt(sorted: seq<(Option<nat>, nat)>, i: nat)
    requires DistinctKeys(sorted) && i < |sorted| && sorted[i].0.Some?
    ensures sorted[i].0.value in ClusterNumbers(sorted)
    ensures ClusterNumbers(sorted)[sorted[i].0.value] == NonNull(sorted[..i]) + 1
    decreases |sorted|
  {
    var k := |sorted| - 1;
    var prefix := sorted[..k];
    if i < k {
      assert DistinctKeys(prefix);
      ClusterNumbersAt(prefix, i);
      assert prefix[i] == sorted[i];
      assert prefix[..i] == sorted[..i];
      assert sorted[i].0 != sorted[k].0;
    } else {
      assert sorted[..i] == prefix;
    }
  }

  /**
   * Cluster numbers go to the non-null communities only, run 1..k for k of
   * them, and follow the sorted order: an earlier entry gets a smaller
   * number, so no two communities share one.
   */
  lemma ClusterNumbersMeaning(sorted: seq<(Option<nat>, nat)>)
    requires DistinctKeys(sorted)
    ensures forall c :: c in ClusterNumbers(sorted) <==> Some(c) in Keys(sorted)
    ensures forall c :: c in ClusterNumbers(sorted) ==> 1 <= ClusterNumbers(sorted)[c] <= NonNull(sorted)
    ensures forall i, j :: 0 <= i < j < |sorted| && sorted[i].0.Some? && sorted[j].0.Some? ==>
      NumberOf(ClusterNumbers(sorted), sorted[i].0.value) < NumberOf(ClusterNumbers(sorted), sorted[j].0.value)
  {
    ClusterNumbersKeys(sorted);
    var m := ClusterNumbers(sorted);
    forall c | c in m ensures 1 <= m[c] <= NonNull(sorted) {
      ClusterNumberRange(sorted, c);
    }
    forall i, j | 0 <= i < j < |sorted| && sorted[i].0.Some? && sorted[j].0.Some?
      ensures NumberOf(m, sorted[i].0.value) < NumberOf(m, sorted[j].0.value)
    {
      ClusterNumberOrder(sorted, i, j);
    }
  }

  /** A cluster number lies in 1..k for k non-null entries. */
  lemma ClusterNumberRange(sorted: seq<(Option<nat>, nat)>, c: nat)
    requires DistinctKeys(sorted) && Some(c) in Keys(sorted)
    ensures c in ClusterNumbers(sorted) && 1 <= ClusterNumbers(sorted)[c] <= NonNull(sorted)
  {
    var i :| 0 <= i < |sorted| && Keys(sorted)[i] == Some(c);
    ClusterNumbersAt(sorted, i);
    NonNullStep(sorted, i);
    NonNullMonotone(sorted, i + 1);
  }

  /** An earlier non-null entry gets a smaller number than a later one. */
  lemma ClusterNumberOrder(sorted: seq<(Option<nat>, nat)>, i: nat, j: nat)
    requires DistinctKeys(sorted) && i < j < |sorted| && sorted[i].0.Some? && sorted[j].0.Some?
    ensures NumberOf(ClusterNumbers(sorted), sorted[i].0.value) < NumberOf(ClusterNumbers(sorted), sorted[j].0.value)
  {
    ClusterNumbersAt(sorted, i);
    ClusterNumbersAt(sorted, j);
    NonNullStep(sorted, i);
    assert sorted[..j][..i + 1] == sorted[..i + 1];
    NonNullMonotone(sorted[..j], i + 1);
  }


  /** A non-null entry at `i` adds one to the count. */
  lemma NonNullStep(h: seq<(Option<nat>, nat)>, i: nat)
    requires i < |h| && h[i].0.Some?
    ensures NonNull(h[..i + 1]) == NonNull(h[..i]) + 1
  {
    assert h[..i + 1][..i] == h[..i];
  }

  /** A larger community gets a smaller number. */
  lemma LargerFirst(sorted: seq<(Option<nat>, nat)>, i: nat, j: nat)
    requires DistinctKeys(sorted) && BySize(sorted)
    requires i < |sorted| && j < |sorted| && sorted[i].0.Some? && sorted[j].0.Some?
    requires sorted[i].1 > sorted[j].1
    ensures NumberOf(ClusterNumbers(sorted), sorted[i].0.value) < NumberOf(ClusterNumbers(sorted), sorted[j].0.value)
  {
    assert i < j;
    ClusterNumberOrder(sorted, i, j);
  }

  /** The cluster-number loop. */
  method NumberClusters(sorted: seq<(Option<nat>, nat)>) returns (numbers: map<nat, nat>)
    ensures numbers == ClusterNumbers(sorted)
  {
    numbers := map[];
    var clusterNumber := 1;
    var k := 0;
    while k < |sorted|
      invariant 0 <= k <= |sorted|
      invariant numbers == ClusterNumbers(sorted[..k])
      invariant clusterNumber == NonNull(sorted[..k]) + 1
    {
      assert sorted[..k + 1][..k] == sorted[..k];
      var communityId := sorted[k].0;
      if communityId.Some? {
        numbers := numbers[communityId.value := clusterNumber];
        clusterNumber := clusterNumber + 1;
      }
      k := k + 1;
    }
    assert sorted[..k] == sorted;
  }

  // ---------------------------------------------------------------------
  // Labels

  /** clusterNumbers[c] through std::map::operator[]: 0 for a community without a number. */
  function NumberOf(numbers: map<nat, nat>, c: nat): nat
  {
    if c in numbers then numbers[c] else 0
  }

  function Label(k: nat): string
  {
    "Cluster " + Decimal(k)
  }

  /** clusterNames: "Cluster k" for each node with a community; nodes with a null community get none. */
  function Labels(nodes: seq<nat>, communities: map<nat, nat>, numbers: map<nat, nat>): (r: map<nat, string>)
    ensures forall n :: n in r <==> n in nodes && n in communities
  {
    map n | n in nodes && n in communities :: Label(NumberOf(numbers, communities[n]))
  }

  /** Two nodes carry the same label exactly when their communities carry the same number. */
  lemma LabelsMeaning(nodes: seq<nat>, communities: map<nat, nat>, numbers: map<nat, nat>, a: nat, b: nat)
    requires a in Labels(nodes, communities, numbers) && b in Labels(nodes, communities, numbers)
    ensures Labels(nodes, communities, numbers)[a] == Labels(nodes, communities, numbers)[b] <==>
      NumberOf(numbers, communities[a]) == NumberOf(numbers, communities[b])
  {
    var ka, kb := NumberOf(numbers, communities[a]), NumberOf(numbers, communities[b]);
    if Label(ka) == Label(kb) {
      assert Decimal(ka) == Label(ka)[8..];
      assert Decimal(kb) == Label(kb)[8..];
      DecimalInjective(ka, kb);
    }
  }

  /** The labelling loop over the nodes. */
  method MakeLabels(nodes: seq<nat>, communities: map<nat, nat>, numbers: map<nat, nat>) returns (names: map<nat, string>)
    ensures names == Labels(nodes, communities, numbers)
  {
    names := map[];
    var k := 0;
    while k < |nodes|
      invariant 0 <= k <= |nodes|
      invariant names == Labels(nodes[..k], communities, numbers)
    {
      var n := nodes[k];
      assert forall m :: m in nodes[..k + 1] <==> m in nodes[..k] || m == n;
      if n in communities {
        var clusterNumber := NumberOf(numbers, communities[n]);
        names := names[n := Label(clusterNumber)];
      }
      k := k + 1;
    }
    assert nodes[..k] == nodes;
  }

  // ---------------------------------------------------------------------
  // What the labels say

  /** The final community of each node of `nodes`, in order, as the histogram loop reads them. */
  function Finals(nodes: seq<nat>, communities: map<nat, nat>): (r: seq<Option<nat>>)
    ensures |r| == |nodes|
  {
    seq(|nodes|, i requires 0 <= i < |nodes| => Lookup(communities, nodes[i]))
  }

  /** How many nodes of `nodes` end in community `c`. */
  function Size(nodes: seq<nat>, communities: map<nat, nat>, c: nat): nat
  {
    Count(Finals(nodes, communities), Some(c))
  }

  /** The cluster numbers handed out for the final communities. */
  function Numbering(nodes: seq<nat>, communities: map<nat, nat>): map<nat, nat>
  {
    ClusterNumbers(SortBySize(Histogram(Finals(nodes, communities))))
  }

  /** The label of each node with a final community: exactly those nodes are labelled. */
  function NodeLabels(nodes: seq<nat>, communities: map<nat, nat>): (r: map<nat, string>)
    ensures forall n :: n in r <==> n in nodes && n in communities
  {
    Labels(nodes, communities, Numbering(nodes, communities))
  }

  /** Every community of `cs` has an entry with its size in the sorted histogram. */
  lemma EntrySorted(cs: seq<Option<nat>>, c: Option<nat>) returns (i: nat)
    requires c in cs
    ensures DistinctKeys(SortBySize(Histogram(cs)))
    ensures i < |SortBySize(Histogram(cs))| && SortBySize(Histogram(cs))[i] == (c, Count(cs, c))
  {
    HistogramMeaning(cs);
    var h := Histogram(cs);
    assert c in Keys(h);
    var k :| 0 <= k < |h| && Keys(h)[k] == c;
    assert h[k] == (c, Count(cs, c));
    SortKeepsEntries(h);
    assert h[k] in SortBySize(h);
    i :| 0 <= i < |SortBySize(h)| && SortBySize(h)[i] == h[k];
  }

  /**
   * Every node with a final community gets a cluster number from 1; two
   * such nodes get the same number exactly when they share the community,
   * and a community with more nodes gets a smaller number.
   */
  lemma NumberingMeaning(nodes: seq<nat>, communities: map<nat, nat>, a: nat, b: nat)
    requires a in nodes && a in communities && b in nodes && b in communities
    ensures NumberOf(Numbering(nodes, communities), communities[a]) >= 1
    ensures NumberOf(Numbering(nodes, communities), communities[a]) == NumberOf(Numbering(nodes, communities), communities[b]) <==>
      communities[a] == communities[b]
    ensures Size(nodes, communities, communities[a]) > Size(nodes, communities, communities[b]) ==>
      NumberOf(Numbering(nodes, communities), communities[a]) < NumberOf(Numbering(nodes, communities), communities[b])
  {
    var cs := Finals(nodes, communities);
    var s := SortBySize(Histogram(cs));
    var ja :| 0 <= ja < |nodes| && nodes[ja] == a;
    var jb :| 0 <= jb < |nodes| && nodes[jb] == b;
    assert cs[ja] == Some(communities[a]) && cs[jb] == Some(communities[b]);
    var ia := EntrySorted(cs, Some(communities[a]));
    var ib := EntrySorted(cs, Some(communities[b]));
    assert Keys(s)[ia] == Some(communities[a]);
    ClusterNumberRange(s, communities[a]);
    if communities[a] != communities[b] {
      if ia < ib {
        ClusterNumberOrder(s, ia, ib);
      } else {
        ClusterNumberOrder(s, ib, ia);
      }
      if Size(nodes, communities, communities[a]) > Size(nodes, communities, communities[b]) {
        LargerFirst(s, ia, ib);
      }
    }
  }

  /**
   * The labels: the nodes with a final community are labelled, and two of
   * them share a label exactly when they share the community.
   */
  lemma NodeLabelsMeaning(nodes: seq<nat>, communities: map<nat, nat>)
    ensures forall n :: n in NodeLabels(nodes, communities) <==> n in nodes && n in communities
    ensures forall a, b :: a in NodeLabels(nodes, communities) && b in NodeLabels(nodes, communities) ==>
      (NodeLabels(nodes, communities)[a] == NodeLabels(nodes, communities)[b] <==> communities[a] == communities[b])
  {
    forall a, b | a in NodeLabels(nodes, communities) && b in NodeLabels(nodes, communities)
      ensures NodeLabels(nodes, communities)[a] == NodeLabels(nodes, communities)[b] <==> communities[a] == communities[b]
    {
      NumberingMeaning(nodes, communities, a, b);
      LabelsMeaning(nodes, communities, Numbering(nodes, communities), a, b);
    }
  }
}
