/**
 * VisualisationsBuilder: applies one visualisation after another to the
 * visuals of a graph's nodes or edges, records per channel (size, colour,
 * text) which elements each visualisation changed, and afterwards flags the
 * visualisations whose effect a later one overrides.
 *
 * The builder's numbering bookkeeping is modelled as corrected: a build that
 * stops early still counts as applied (see `AsWrittenMisattributesOverride`
 * for what the unconditional-increment-at-the-end code does instead).
 */
module VisualisationsBuilder {
  import opened Decimals

  /** Size, colour and text: the three channels whose changes are tracked. */
  const NumChannels: nat := 3

  /** The visual of one element; the size is a float in the program. */
  datatype ElementVisual = ElementVisual(size: real, innerColor: int, outerColor: int, text: string)

  /** The visual an element has before any visualisation touches it. */
  const DefaultVisual := ElementVisual(0.0, 0, 0, "")

  /**
   * What a channel is handed for one element: for a numeric attribute the
   * (normalised, possibly inverted) value of that element, whose floating
   * point arithmetic is not modelled; for a string attribute the string.
   */
  datatype Value = Numeric(element: nat) | Text(s: string)

  /** A visualisation channel: whether it needs a numeric range, and how it changes a visual. */
  datatype Channel = Channel(requiresRange: bool, applyTo: (Value, ElementVisual) -> ElementVisual)

  /**
   * The attribute being visualised. A numeric one carries the range it
   * reports over the visualised elements; a string one carries each
   * element's value and its list of shared values (empty when it has none).
   */
  datatype Attribute =
    | NumericAttribute(ignoreTails: bool, min: real, max: real)
    | StringAttribute(ignoreTails: bool, values: map<nat, string>, sharedValues: seq<string>)
    | OtherAttribute

  datatype AlertType = Warning | Error

  /** An alert added to the info of the visualisation numbered `index`. */
  datatype Alert = Alert(index: int, alertType: AlertType)

  /** What one build reports about its own visualisation. */
  datatype Info = Info(alerts: seq<AlertType>, stringValues: seq<string>)

  /** One visualisation's record on one channel: its number and which elements it changed. */
  datatype Applied = Applied(index: int, flags: map<nat, bool>)

  /** The builder's state: the element visuals, the applied count and the three record lists. */
  datatype BuilderState = BuilderState(visuals: map<nat, ElementVisual>, numApplied: nat, applications: seq<seq<Applied>>)

  /** ElementIdArray<bool>::get: an element never set reads as false. */
  predicate IsSet(a: Applied, e: nat)
  {
    e in a.flags && a.flags[e]
  }

  function VisualOf(visuals: map<nat, ElementVisual>, e: nat): ElementVisual
  {
    if e in visuals then visuals[e] else DefaultVisual
  }

  /** Three record lists of one length, at least as long as the applied count. */
  predicate WellFormed(s: BuilderState)
  {
    |s.applications| == NumChannels &&
    |s.applications[0]| == |s.applications[1]| == |s.applications[2]| &&
    s.numApplied <= |s.applications[0]|
  }

  /** Every record belongs to a build the count includes. */
  predicate Counted(s: BuilderState)
  {
    WellFormed(s) && s.numApplied == |s.applications[0]|
  }

  // ---------------------------------------------------------------------
  // apply

  function SetFlag(records: seq<Applied>, at: nat, e: nat, f: bool): (r: seq<Applied>)
    requires at < |records|
    ensures |r| == |records|
  {
    records[at := records[at].(flags := records[at].flags[e := f])]
  }

  /** The state after element `e` takes the visual `visual`, recorded in entry `at`. */
  function ApplyAt(s: BuilderState, e: nat, visual: ElementVisual, at: nat): (r: BuilderState)
    requires WellFormed(s) && at < |s.applications[0]|
    ensures WellFormed(r) && r.numApplied == s.numApplied
    ensures forall c :: 0 <= c < NumChannels ==> |r.applications[c]| == |s.applications[c]|
  {
    var before := VisualOf(s.visuals, e);
    var apps := s.applications;
    s.(visuals := s.visuals[e := visual],
       applications := [SetFlag(apps[0], at, e, before.size != visual.size),
                        SetFlag(apps[1], at, e, before.innerColor != visual.innerColor || before.outerColor != visual.outerColor),
                        SetFlag(apps[2], at, e, before.text != visual.text)])
  }

  /** What `apply` records: each channel's flag says whether that part of the visual changed; nothing else moves. */
  lemma ApplyAtRecords(s: BuilderState, e: nat, visual: ElementVisual, at: nat)
    requires WellFormed(s) && at < |s.applications[0]|
    ensures var r := ApplyAt(s, e, visual, at);
      var before := VisualOf(s.visuals, e);
      VisualOf(r.visuals, e) == visual &&
      (forall x :: x != e ==> VisualOf(r.visuals, x) == VisualOf(s.visuals, x)) &&
      (IsSet(r.applications[0][at], e) <==> before.size != visual.size) &&
      (IsSet(r.applications[1][at], e) <==> before.innerColor != visual.innerColor || before.outerColor != visual.outerColor) &&
      (IsSet(r.applications[2][at], e) <==> before.text != visual.text) &&
      (forall c, k, x :: 0 <= c < NumChannels && 0 <= k < |s.applications[c]| && (k != at || x != e) ==>
        IsSet(r.applications[c][k], x) == IsSet(s.applications[c][k], x)) &&
      (forall c, k :: 0 <= c < NumChannels && 0 <= k < |s.applications[c]| ==>
        r.applications[c][k].index == s.applications[c][k].index)
  {
  }

  // ---------------------------------------------------------------------
  // Shared string values

  predicate SortedByRank(s: seq<string>, rank: string -> int)
  {
    forall i, j :: 0 <= i < j < |s| ==> rank(s[i]) <= rank(s[j])
  }

  predicate Distinct(s: seq<string>)
  {
    forall i, j :: 0 <= i < j < |s| ==> s[i] != s[j]
  }

  /** Every value of `s` ranks at least `b`. */
  predicate RanksFrom(s: seq<string>, b: int, rank: string -> int)
  {
    forall y :: y in s ==> b <= rank(y)
  }

  lemma SortedByRankCons(x: string, s: seq<string>, rank: string -> int)
    requires SortedByRank(s, rank) && RanksFrom(s, rank(x), rank)
    ensures SortedByRank([x] + s, rank)
  {
    var r := [x] + s;
    forall a, b | 0 <= a < b < |r| ensures rank(r[a]) <= rank(r[b]) {
      assert r[b] == s[b - 1];
      if a > 0 {
        assert r[a] == s[a - 1];
      } else {
        assert s[b - 1] in s;
      }
    }
  }

  /** A sorted sequence ranks from its first value on. */
  lemma SortedRanksFrom(s: seq<string>, rank: string -> int)
    requires SortedByRank(s, rank) && s != []
    ensures RanksFrom(s, rank(s[0]), rank) && SortedByRank(s[1..], rank) && RanksFrom(s[1..], rank(s[0]), rank)
  {
    forall y | y in s ensures rank(s[0]) <= rank(y) {
      var k :| 0 <= k < |s| && s[k] == y;
      if k > 0 { assert rank(s[0]) <= rank(s[k]); }
    }
    assert forall y :: y in s[1..] ==> y in s;
  }

  /** A bound on the ranks survives adding a value that meets it. */
  lemma RanksFromAdd(r: seq<string>, s: seq<string>, x: string, b: int, rank: string -> int)
    requires multiset(r) == multiset(s) + multiset{x} && RanksFrom(s, b, rank) && b <= rank(x)
    ensures RanksFrom(r, b, rank)
  {
    forall y | y in r ensures b <= rank(y) {
      assert y in multiset(r);
      if y != x {
        assert y in multiset(s);
      }
    }
  }

  function InsertByRank(x: string, s: seq<string>, rank: string -> int): (r: seq<string>)
    requires SortedByRank(s, rank)
    ensures SortedByRank(r, rank) && multiset(r) == multiset(s) + multiset{x}
  {
    if s == [] then
      SortedByRankCons(x, s, rank);
      [x]
    else if rank(x) <= rank(s[0]) then
      SortedRanksFrom(s, rank);
      SortedByRankCons(x, s, rank);
      [x] + s
    else
      SortedRanksFrom(s, rank);
      var rest := InsertByRank(x, s[1..], rank);
      RanksFromAdd(rest, s[1..], x, rank(s[0]), rank);
      SortedByRankCons(s[0], rest, rank);
      assert s == [s[0]] + s[1..];
      [s[0]] + rest
  }

  /** std::sort of the shared values by their collation rank ("Thing 2" before "Thing 10"). */
  function SortByRank(s: seq<string>, rank: string -> int): (r: seq<string>)
    ensures SortedByRank(r, rank) && multiset(r) == multiset(s)
  {
    if s == [] then []
    else
      assert s == [s[0]] + s[1..];
      InsertByRank(s[0], SortByRank(s[1..], rank), rank)
  }

  /** Sorting keeps the shared values: a value is among the sorted ones exactly when it is among the shared ones. */
  lemma SortKeepsValues(shared: seq<string>, rank: string -> int)
    ensures forall v :: v in SortByRank(shared, rank) <==> v in shared
  {
    var sorted := SortByRank(shared, rank);
    forall v ensures v in sorted <==> v in shared {
      assert v in sorted <==> v in multiset(sorted);
      assert v in shared <==> v in multiset(shared);
    }
  }

  /** The map from each shared value to the number of its place in sorted order, written in decimal. */
  function NumberMap(sorted: seq<string>): (m: map<string, string>)
    ensures forall v :: v in m <==> v in sorted
    ensures forall v :: v in m ==> m[v] != ""
  {
    if sorted == [] then map[]
    else
      var n := |sorted| - 1;
      assert sorted == sorted[..n] + [sorted[n]];
      NumberMap(sorted[..n])[sorted[n] := Decimal(n)]
  }

  /** Distinct shared values are numbered 0, 1, 2, … in sorted order, no two alike. */
  lemma NumberMapNumbers(sorted: seq<string>)
    requires Distinct(sorted)
    ensures forall k :: 0 <= k < |sorted| ==> NumberMap(sorted)[sorted[k]] == Decimal(k)
    ensures forall v, w :: v in NumberMap(sorted) && w in NumberMap(sorted) && NumberMap(sorted)[v] == NumberMap(sorted)[w] ==> v == w
  {
    NumberMapAt(sorted);
    var m := NumberMap(sorted);
    forall v, w | v in m && w in m && m[v] == m[w] ensures v == w {
      var i :| 0 <= i < |sorted| && sorted[i] == v;
      var j :| 0 <= j < |sorted| && sorted[j] == w;
      DecimalInjective(i, j);
    }
  }

  lemma NumberMapAt(sorted: seq<string>)
    requires Distinct(sorted)
    ensures forall k :: 0 <= k < |sorted| ==> NumberMap(sorted)[sorted[k]] == Decimal(k)
  {
    forall k | 0 <= k < |sorted| ensures NumberMap(sorted)[sorted[k]] == Decimal(k) {
      NumberMapAtOne(sorted, k);
    }
  }

  lemma {:induction false} NumberMapAtOne(sorted: seq<string>, k: nat)
    requires Distinct(sorted) && k < |sorted|
    ensures NumberMap(sorted)[sorted[k]] == Decimal(k)
    decreases |sorted|
  {
    var n := |sorted| - 1;
    var prefix := sorted[..n];
    assert NumberMap(sorted) == NumberMap(prefix)[sorted[n] := Decimal(n)];
    if k < n {
      assert prefix[k] == sorted[k] && sorted[k] != sorted[n];
      assert Distinct(prefix);
      NumberMapAtOne(prefix, k);
    }
  }

  /** The loop that numbers the sorted shared values. */
  method NumberShared(sorted: seq<string>) returns (m: map<string, string>)
    ensures m == NumberMap(sorted)
  {
    m := map[];
    var k := 0;
    while k < |sorted|
      invariant 0 <= k <= |sorted|
      invariant m == NumberMap(sorted[..k])
    {
      assert sorted[..k + 1][..k] == sorted[..k];
      m := m[sorted[k] := Decimal(k)];
      k := k + 1;
    }
    assert sorted[..k] == sorted;
  }

  /** The value a string attribute shows for one element: its shared-value number, or itself. */
  function Shown(v: string, sorted: seq<string>): (r: string)
    requires sorted != [] && v != "" ==> v in sorted
    ensures r == "" <==> v == ""
    ensures sorted == [] ==> r == v
  {
    if sorted != [] && v != "" then NumberMap(sorted)[v] else v
  }

  function StringValueOf(values: map<nat, string>, e: nat): string
  {
    if e in values then values[e] else ""
  }

  /** `m.at` finds every non-empty value an element shows. */
  predicate ValueShown(attribute: Attribute, sorted: seq<string>, e: nat)
  {
    attribute.StringAttribute? && sorted != [] && StringValueOf(attribute.values, e) != "" ==>
      StringValueOf(attribute.values, e) in sorted
  }

  /** What the channel is handed for element `e`. */
  function ElementValue(attribute: Attribute, sorted: seq<string>, e: nat): Value
    requires ValueShown(attribute, sorted, e)
  {
    match attribute
    case StringAttribute(_, values, _) => Text(Shown(StringValueOf(values, e), sorted))
    case _ => Numeric(e)
  }

  /** The elements a build passes over: tails, when the attribute ignores them. */
  function Skipped(attribute: Attribute, tails: set<nat>): set<nat>
  {
    if (attribute.NumericAttribute? || attribute.StringAttribute?) && attribute.ignoreTails then tails else {}
  }

  /** The attribute's shared values hold every non-empty value of an element it visualises. */
  predicate ValuesShared(attribute: Attribute, elementIds: seq<nat>, tails: set<nat>)
  {
    attribute.StringAttribute? ==>
      forall e :: e in elementIds && e !in Skipped(attribute, tails) ==> ValueShown(attribute, attribute.sharedValues, e)
  }

  // ---------------------------------------------------------------------
  // build

  /**
   * `r` differs from `s` at most in the visuals and in the flags of record
   * `at`: the count, the list lengths, every record's number and every
   * other record are as they were.
   */
  predicate Frame(s: BuilderState, r: BuilderState, at: nat)
  {
    WellFormed(s) && WellFormed(r) && r.numApplied == s.numApplied &&
    |r.applications[0]| == |s.applications[0]| && at < |s.applications[0]| &&
    (forall c, k :: 0 <= c < NumChannels && 0 <= k < |s.applications[c]| ==>
      r.applications[c][k].index == s.applications[c][k].index) &&
    (forall c, k :: 0 <= c < NumChannels && 0 <= k < |s.applications[c]| && k != at ==>
      r.applications[c][k] == s.applications[c][k])
  }

  /** Element `e` keeps its visual and its flags in record `at`. */
  predicate Untouched(s: BuilderState, r: BuilderState, e: nat, at: nat)
    requires Frame(s, r, at)
  {
    VisualOf(r.visuals, e) == VisualOf(s.visuals, e) &&
    forall c :: 0 <= c < NumChannels ==> (IsSet(r.applications[c][at], e) <==> IsSet(s.applications[c][at], e))
  }

  lemma ApplyAtFrame(s: BuilderState, e: nat, visual: ElementVisual, at: nat)
    requires WellFormed(s) && at < |s.applications[0]|
    ensures Frame(s, ApplyAt(s, e, visual, at), at)
    ensures forall x :: x != e ==> Untouched(s, ApplyAt(s, e, visual, at), x, at)
  {
    ApplyAtRecords(s, e, visual, at);
  }

  lemma FrameTrans(s: BuilderState, t: BuilderState, r: BuilderState, at: nat, e: nat)
    requires Frame(s, t, at) && Frame(t, r, at)
    ensures Frame(s, r, at)
    ensures Untouched(s, t, e, at) && Untouched(t, r, e, at) ==> Untouched(s, r, e, at)
  {
  }

  /**
   * The element loop of a build: each element of `es` not in `skip` is handed
   * its value, in order, and the change is recorded in entry `at`.
   */
  function ApplyEach(s: BuilderState, es: seq<nat>, attribute: Attribute, sorted: seq<string>,
                     apply: (Value, ElementVisual) -> ElementVisual, at: nat, skip: set<nat>): (r: BuilderState)
    requires WellFormed(s) && at < |s.applications[0]|
    requires forall e :: e in es && e !in skip ==> ValueShown(attribute, sorted, e)
    ensures Frame(s, r, at)
    ensures forall e :: e !in es || e in skip ==> Untouched(s, r, e, at)
    decreases |es|
  {
    if es == [] then s
    else
      var n := |es| - 1;
      assert es == es[..n] + [es[n]];
      var prev := ApplyEach(s, es[..n], attribute, sorted, apply, at, skip);
      var e := es[n];
      if e in skip then prev
      else
        var visual := apply(ElementValue(attribute, sorted, e), VisualOf(prev.visuals, e));
        ApplyEachFrame(s, prev, es, e, visual, at, skip);
        ApplyAt(prev, e, visual, at)
  }

  /** Applying the last element of `es` keeps the frame and leaves the elements outside `es` untouched. */
  lemma ApplyEachFrame(s: BuilderState, prev: BuilderState, es: seq<nat>, e: nat, visual: ElementVisual, at: nat, skip: set<nat>)
    requires es != [] && e == es[|es| - 1] && e !in skip
    requires Frame(s, prev, at)
    requires forall x :: x !in es[..|es| - 1] || x in skip ==> Untouched(s, prev, x, at)
    ensures Frame(s, ApplyAt(prev, e, visual, at), at)
    ensures forall x :: x !in es || x in skip ==> Untouched(s, ApplyAt(prev, e, visual, at), x, at)
  {
    var r := ApplyAt(prev, e, visual, at);
    ApplyAtFrame(prev, e, visual, at);
    FrameTrans(s, prev, r, at, e);
    forall x | x !in es || x in skip ensures Untouched(s, r, x, at) {
      assert x != e;
      assert x !in es[..|es| - 1] || x in skip;
      FrameTrans(s, prev, r, at, x);
    }
  }

  /** The element loop one element further on. */
  lemma ApplyEachNext(s: BuilderState, es: seq<nat>, k: nat, attribute: Attribute, sorted: seq<string>,
                      apply: (Value, ElementVisual) -> ElementVisual, at: nat, skip: set<nat>)
    requires WellFormed(s) && at < |s.applications[0]| && k < |es|
    requires forall e :: e in es && e !in skip ==> ValueShown(attribute, sorted, e)
    ensures es[k] !in skip ==> ValueShown(attribute, sorted, es[k])
    ensures var prev := ApplyEach(s, es[..k], attribute, sorted, apply, at, skip);
      ApplyEach(s, es[..k + 1], attribute, sorted, apply, at, skip) ==
        if es[k] in skip then prev
        else ApplyAt(prev, es[k], apply(ElementValue(attribute, sorted, es[k]), VisualOf(prev.visuals, es[k])), at)
  {
    assert es[k] in es;
    assert es[..k + 1][..k] == es[..k];
  }

  /** What the element loop hands the channel: the element's value, through the numbering when it is shared. */
  method LookUpValue(attribute: Attribute, sorted: seq<string>, m: map<string, string>, e: nat) returns (value: Value)
    requires m == NumberMap(sorted) && ValueShown(attribute, sorted, e)
    ensures value == ElementValue(attribute, sorted, e)
  {
    match attribute {
      case StringAttribute(_, values, _) =>
        var v := StringValueOf(values, e);
        if sorted != [] && v != "" {
          v := m[v];
        }
        value := Text(v);
      case _ =>
        value := Numeric(e);
    }
  }

  /**
   * `r` holds the records of `s`, each with its number and, all but the
   * record numbered by the applied count, unchanged, plus one more record
   * per channel, numbered `index`.
   */
  predicate Extends(s: BuilderState, r: BuilderState, index: int)
  {
    WellFormed(s) && WellFormed(r) &&
    (forall c :: 0 <= c < NumChannels ==>
      |r.applications[c]| == |s.applications[c]| + 1 && r.applications[c][|s.applications[c]|].index == index) &&
    (forall c, k :: 0 <= c < NumChannels && 0 <= k < |s.applications[c]| ==>
      r.applications[c][k].index == s.applications[c][k].index) &&
    (forall c, k :: 0 <= c < NumChannels && 0 <= k < |s.applications[c]| && k != s.numApplied ==>
      r.applications[c][k] == s.applications[c][k])
  }

  lemma AppendedExtends(s: BuilderState, index: int)
    requires WellFormed(s)
    ensures Extends(s, Appended(s, index), index)
  {
  }

  lemma FrameExtends(s: BuilderState, a: BuilderState, r: BuilderState, index: int)
    requires Extends(s, a, index) && a.numApplied == s.numApplied && Frame(a, r, s.numApplied)
    ensures Extends(s, r, index) && Extends(s, r.(numApplied := s.numApplied + 1), index)
  {
  }

  /** Each build adds one record, numbered `index`, to every channel. */
  function Appended(s: BuilderState, index: int): (r: BuilderState)
    requires WellFormed(s)
    ensures WellFormed(r)
  {
    var blank := Applied(index, map[]);
    s.(applications := [s.applications[0] + [blank], s.applications[1] + [blank], s.applications[2] + [blank]])
  }

  /**
   * One build: the records are added; an empty element list and a numeric
   * range a channel cannot map stop it with an alert; otherwise every
   * visualised element is handed its value and the changes are recorded in
   * the entry numbered by the applied count. `countEarlyReturns` says
   * whether a build that stops early still counts as applied (the
   * corrected behaviour) or not (the program as written).
   */
  function BuildSpec(s: BuilderState, elementIds: seq<nat>, tails: set<nat>, attribute: Attribute,
                     channel: Channel, rank: string -> int, index: int, countEarlyReturns: bool): (r: (BuilderState, Info))
    requires WellFormed(s) && ValuesShared(attribute, elementIds, tails)
    ensures Extends(s, r.0, index)
    ensures countEarlyReturns ==> r.0.numApplied == s.numApplied + 1
    ensures countEarlyReturns && Counted(s) ==> Counted(r.0)
    ensures elementIds == [] ==> r.1 == Info([Error], [])
  {
    var a := Appended(s, index);
    AppendedExtends(s, index);
    var early := a.(numApplied := if countEarlyReturns then s.numApplied + 1 else s.numApplied);
    var skip := Skipped(attribute, tails);
    if elementIds == [] then (early, Info([Error], []))
    else match attribute
      case NumericAttribute(_, min, max) =>
        if channel.requiresRange && min == max then (early, Info([Warning], []))
        else
          var done := ApplyEach(a, elementIds, attribute, [], channel.applyTo, s.numApplied, skip);
          FrameExtends(s, a, done, index);
          (done.(numApplied := s.numApplied + 1), Info([], []))
      case StringAttribute(_, _, shared) =>
        var sorted := SortByRank(shared, rank);
        SortKeepsValues(shared, rank);
        var done := ApplyEach(a, elementIds, attribute, sorted, channel.applyTo, s.numApplied, skip);
        FrameExtends(s, a, done, index);
        (done.(numApplied := s.numApplied + 1), Info([], sorted))
      case OtherAttribute =>
        (a.(numApplied := s.numApplied + 1), Info([], []))
  }

  // ---------------------------------------------------------------------
  // findOverrideAlerts

  /** How many of `es` the record `iv` set. */
  function SourceSet(iv: Applied, es: seq<nat>): nat
  {
    if es == [] then 0
    else SourceSet(iv, es[..|es| - 1]) + (if IsSet(iv, es[|es| - 1]) then 1 else 0)
  }

  /** How many of `es` both `iv` and `jv` set. */
  function BothSet(iv: Applied, jv: Applied, es: seq<nat>): nat
  {
    if es == [] then 0
    else BothSet(iv, jv, es[..|es| - 1]) + (if IsSet(iv, es[|es| - 1]) && IsSet(jv, es[|es| - 1]) then 1 else 0)
  }

  /** The later record `jv` changed some element the earlier `iv` changed. */
  predicate Overlaps(iv: Applied, jv: Applied, es: seq<nat>)
  {
    exists e :: e in es && IsSet(iv, e) && IsSet(jv, e)
  }

  /** The later record `jv` changed every element the earlier `iv` changed. */
  predicate Covers(iv: Applied, jv: Applied, es: seq<nat>)
  {
    forall e :: e in es && IsSet(iv, e) ==> IsSet(jv, e)
  }

  /** The alert an overlap earns: an error when fully overridden, otherwise a warning. */
  function AlertFor(iv: Applied, jv: Applied, es: seq<nat>): Alert
  {
    Alert(iv.index, if Covers(iv, jv, es) then Error else Warning)
  }

  /** The counts mean what the alert needs: overlap when positive, full cover when equal. */
  lemma {:induction false} CountsMeaning(iv: Applied, jv: Applied, es: seq<nat>)
    ensures BothSet(iv, jv, es) <= SourceSet(iv, es)
    ensures BothSet(iv, jv, es) > 0 <==> Overlaps(iv, jv, es)
    ensures BothSet(iv, jv, es) == SourceSet(iv, es) <==> Covers(iv, jv, es)
    decreases |es|
  {
    if es != [] {
      var n := |es| - 1;
      var prefix := es[..n];
      var e := es[n];
      assert es == prefix + [e];
      CountsMeaning(iv, jv, prefix);
      if Overlaps(iv, jv, es) && !(IsSet(iv, e) && IsSet(jv, e)) {
        var x :| x in es && IsSet(iv, x) && IsSet(jv, x);
        assert x in prefix;
      }
      if Covers(iv, jv, prefix) && !Covers(iv, jv, es) {
        var x :| x in es && IsSet(iv, x) && !IsSet(jv, x);
        assert x == e;
      }
    }
  }

  /** The alerts one pair of records yields. */
  function PairAlerts(iv: Applied, jv: Applied, es: seq<nat>): seq<Alert>
  {
    var both := BothSet(iv, jv, es);
    if both > 0 then
      [Alert(iv.index, if both != SourceSet(iv, es) then Warning else Error)]
    else []
  }

  lemma PairAlertsMeaning(iv: Applied, jv: Applied, es: seq<nat>)
    ensures PairAlerts(iv, jv, es) == if Overlaps(iv, jv, es) then [AlertFor(iv, jv, es)] else []
  {
    CountsMeaning(iv, jv, es);
  }

  /** The alerts of record `i` against the later records before `j`. */
  function RowAlerts(records: seq<Applied>, i: nat, j: nat, es: seq<nat>): seq<Alert>
    requires i < |records| && j <= |records|
  {
    if j <= i + 1 then []
    else RowAlerts(records, i, j - 1, es) + PairAlerts(records[i], records[j - 1], es)
  }

  /** The alerts of the first `i` records against every later record before `n`. */
  function ChannelAlerts(records: seq<Applied>, i: nat, n: nat, es: seq<nat>): seq<Alert>
    requires i <= |records| && n <= |records|
  {
    if i == 0 then []
    else ChannelAlerts(records, i - 1, n, es) + RowAlerts(records, i - 1, n, es)
  }

  /** The earlier records the `i` loop visits: all but the last applied one. */
  function Rows(n: nat): nat
  {
    if n == 0 then 0 else n - 1
  }

  predicate CoversApplied(apps: seq<seq<Applied>>, c: nat, n: nat)
  {
    c <= |apps| && forall k :: 0 <= k < c ==> n <= |apps[k]|
  }

  /** The alerts of the first `c` channels. */
  function AlertsUpTo(apps: seq<seq<Applied>>, c: nat, n: nat, es: seq<nat>): seq<Alert>
    requires CoversApplied(apps, c, n)
  {
    if c == 0 then []
    else AlertsUpTo(apps, c - 1, n, es) + ChannelAlerts(apps[c - 1], Rows(n), n, es)
  }

  function OverrideAlerts(apps: seq<seq<Applied>>, n: nat, es: seq<nat>): seq<Alert>
    requires CoversApplied(apps, NumChannels, n)
  {
    AlertsUpTo(apps, NumChannels, n, es)
  }

  /** Record `q` overlaps the earlier record `p` and `a` is the alert that earns. */
  predicate Flagged(records: seq<Applied>, p: nat, q: nat, es: seq<nat>, a: Alert)
    requires p < |records| && q < |records|
  {
    Overlaps(records[p], records[q], es) && a == AlertFor(records[p], records[q], es)
  }

  /** Some record after `p` and before `j` earns record `p` the alert `a`. */
  predicate RowFlags(records: seq<Applied>, p: nat, j: nat, es: seq<nat>, a: Alert)
    requires p < |records| && j <= |records|
  {
    exists q :: p < q < j && Flagged(records, p, q, es, a)
  }

  /** Some pair of records before `n`, the earlier one before `i`, earns the alert `a`. */
  predicate ChannelFlags(records: seq<Applied>, i: nat, n: nat, es: seq<nat>, a: Alert)
    requires i <= |records| && n <= |records|
  {
    exists p :: 0 <= p < i && RowFlags(records, p, n, es, a)
  }

  lemma {:induction false} RowAlertsMembers(records: seq<Applied>, i: nat, j: nat, es: seq<nat>)
    requires i < |records| && j <= |records|
    ensures forall a :: a in RowAlerts(records, i, j, es) <==> RowFlags(records, i, j, es, a)
    decreases j
  {
    if j > i + 1 {
      RowAlertsMembers(records, i, j - 1, es);
      PairAlertsMeaning(records[i], records[j - 1], es);
      forall a ensures a in RowAlerts(records, i, j, es) <==> RowFlags(records, i, j, es, a) {
        if RowFlags(records, i, j, es, a) {
          var q :| i < q < j && Flagged(records, i, q, es, a);
          if q < j - 1 {
            assert RowFlags(records, i, j - 1, es, a);
          } else {
            assert a in PairAlerts(records[i], records[j - 1], es);
          }
        }
        if a in RowAlerts(records, i, j - 1, es) {
          var q :| i < q < j - 1 && Flagged(records, i, q, es, a);
          assert i < q < j && Flagged(records, i, q, es, a);
        }
        if a in PairAlerts(records[i], records[j - 1], es) {
          assert Flagged(records, i, j - 1, es, a);
        }
      }
    }
  }

  lemma {:induction false} ChannelAlertsMembers(records: seq<Applied>, i: nat, n: nat, es: seq<nat>)
    requires i <= |records| && n <= |records|
    ensures forall a :: a in ChannelAlerts(records, i, n, es) <==> ChannelFlags(records, i, n, es, a)
    decreases i
  {
    if i > 0 {
      ChannelAlertsMembers(records, i - 1, n, es);
      RowAlertsMembers(records, i - 1, n, es);
      forall a ensures a in ChannelAlerts(records, i, n, es) <==> ChannelFlags(records, i, n, es, a) {
        if ChannelFlags(records, i, n, es, a) {
          var p :| 0 <= p < i && RowFlags(records, p, n, es, a);
          if p < i - 1 {
            assert ChannelFlags(records, i - 1, n, es, a);
          } else {
            assert a in RowAlerts(records, i - 1, n, es);
          }
        }
        if a in ChannelAlerts(records, i - 1, n, es) {
          var p :| 0 <= p < i - 1 && RowFlags(records, p, n, es, a);
          assert 0 <= p < i && RowFlags(records, p, n, es, a);
        }
        if a in RowAlerts(records, i - 1, n, es) {
          assert 0 <= i - 1 < i && RowFlags(records, i - 1, n, es, a);
        }
      }
    }
  }

  lemma {:induction false} AlertsUpToMembers(apps: seq<seq<Applied>>, c: nat, n: nat, es: seq<nat>)
    requires CoversApplied(apps, c, n)
    ensures forall a :: a in AlertsUpTo(apps, c, n, es) <==> exists k :: 0 <= k < c && ChannelFlags(apps[k], Rows(n), n, es, a)
    decreases c
  {
    if c > 0 {
      AlertsUpToMembers(apps, c - 1, n, es);
      ChannelAlertsMembers(apps[c - 1], Rows(n), n, es);
      forall a ensures a in AlertsUpTo(apps, c, n, es) <==> exists k :: 0 <= k < c && ChannelFlags(apps[k], Rows(n), n, es, a) {
        AlertsUpToStep(apps, c, n, es, a);
      }
    }
  }

  /** One alert against the first `c` channels, from what is known of the first `c - 1` and of channel `c - 1`. */
  lemma AlertsUpToStep(apps: seq<seq<Applied>>, c: nat, n: nat, es: seq<nat>, a: Alert)
    requires 0 < c && CoversApplied(apps, c, n)
    requires a in AlertsUpTo(apps, c - 1, n, es) <==> exists k :: 0 <= k < c - 1 && ChannelFlags(apps[k], Rows(n), n, es, a)
    requires a in ChannelAlerts(apps[c - 1], Rows(n), n, es) <==> ChannelFlags(apps[c - 1], Rows(n), n, es, a)
    ensures a in AlertsUpTo(apps, c, n, es) <==> exists k :: 0 <= k < c && ChannelFlags(apps[k], Rows(n), n, es, a)
  {
    var before, last := AlertsUpTo(apps, c - 1, n, es), ChannelAlerts(apps[c - 1], Rows(n), n, es);
    assert AlertsUpTo(apps, c, n, es) == before + last;
    if exists k :: 0 <= k < c && ChannelFlags(apps[k], Rows(n), n, es, a) {
      var k :| 0 <= k < c && ChannelFlags(apps[k], Rows(n), n, es, a);
      if k < c - 1 {
        assert 0 <= k < c - 1 && ChannelFlags(apps[k], Rows(n), n, es, a);
        assert a in before;
      } else {
        assert a in last;
      }
    }
    if a in before {
      var k :| 0 <= k < c - 1 && ChannelFlags(apps[k], Rows(n), n, es, a);
      assert 0 <= k < c && ChannelFlags(apps[k], Rows(n), n, es, a);
    }
    if a in last {
      assert 0 <= c - 1 < c && ChannelFlags(apps[c - 1], Rows(n), n, es, a);
    }
  }

  /** An alert some pair of channel `k` earns, written out. */
  lemma ChannelFlagsMeaning(apps: seq<seq<Applied>>, k: nat, n: nat, es: seq<nat>, a: Alert)
    requires k < |apps| && n <= |apps[k]|
    ensures ChannelFlags(apps[k], Rows(n), n, es, a) <==>
      exists p, q :: 0 <= p < q < n && Overlaps(apps[k][p], apps[k][q], es) && a == AlertFor(apps[k][p], apps[k][q], es)
  {
    if exists p, q :: 0 <= p < q < n && Overlaps(apps[k][p], apps[k][q], es) && a == AlertFor(apps[k][p], apps[k][q], es) {
      var p, q :| 0 <= p < q < n && Overlaps(apps[k][p], apps[k][q], es) && a == AlertFor(apps[k][p], apps[k][q], es);
      assert Flagged(apps[k], p, q, es, a);
      assert 0 <= p < Rows(n) && RowFlags(apps[k], p, n, es, a);
    }
  }

  /**
   * findOverrideAlerts flags exactly the applied visualisations some later
   * applied one overlaps on some channel: an error when it is fully
   * overridden there, otherwise a warning.
   */
  lemma OverrideAlertsMeaning(apps: seq<seq<Applied>>, n: nat, es: seq<nat>)
    requires CoversApplied(apps, NumChannels, n)
    ensures forall a :: a in OverrideAlerts(apps, n, es) <==>
      exists k, p, q :: 0 <= k < NumChannels && 0 <= p < q < n &&
        Overlaps(apps[k][p], apps[k][q], es) && a == AlertFor(apps[k][p], apps[k][q], es)
  {
    AlertsUpToMembers(apps, NumChannels, n, es);
    forall a ensures a in OverrideAlerts(apps, n, es) <==>
      exists k, p, q :: 0 <= k < NumChannels && 0 <= p < q < n &&
        Overlaps(apps[k][p], apps[k][q], es) && a == AlertFor(apps[k][p], apps[k][q], es)
    {
      if a in OverrideAlerts(apps, n, es) {
        var k :| 0 <= k < NumChannels && ChannelFlags(apps[k], Rows(n), n, es, a);
        ChannelFlagsMeaning(apps, k, n, es, a);
      }
      if exists k, p, q :: 0 <= k < NumChannels && 0 <= p < q < n &&
          Overlaps(apps[k][p], apps[k][q], es) && a == AlertFor(apps[k][p], apps[k][q], es) {
        var k, p, q :| 0 <= k < NumChannels && 0 <= p < q < n &&
          Overlaps(apps[k][p], apps[k][q], es) && a == AlertFor(apps[k][p], apps[k][q], es);
        ChannelFlagsMeaning(apps, k, n, es, a);
      }
    }
  }

  /** The counting loop over the elements for one pair of records. */
  method CountOverlap(iv: Applied, jv: Applied, es: seq<nat>) returns (bothSet: nat, sourceSet: nat)
    ensures bothSet == BothSet(iv, jv, es) && sourceSet == SourceSet(iv, es)
  {
    bothSet, sourceSet := 0, 0;
    var k := 0;
    while k < |es|
      invariant 0 <= k <= |es|
      invariant bothSet == BothSet(iv, jv, es[..k]) && sourceSet == SourceSet(iv, es[..k])
    {
      var e := es[k];
      assert es[..k + 1][..k] == es[..k];
      if IsSet(iv, e) {
        sourceSet := sourceSet + 1;
        if IsSet(jv, e) {
          bothSet := bothSet + 1;
        }
      }
      k := k + 1;
    }
    assert es[..k] == es;
  }

  /** The `i` loop of findOverrideAlerts on one channel. */
  method ChannelOverrideAlerts(records: seq<Applied>, n: nat, es: seq<nat>) returns (alerts: seq<Alert>)
    requires n <= |records|
    ensures alerts == ChannelAlerts(records, Rows(n), n, es)
  {
    alerts := [];
    var i := 0;
    while i < n - 1
      invariant 0 <= i <= Rows(n)
      invariant alerts == ChannelAlerts(records, i, n, es)
    {
      var more := RowOverrideAlerts(records, i, n, es);
      alerts := alerts + more;
      i := i + 1;
    }
  }

  /** The `j` loop of findOverrideAlerts: record `i` against each later applied record. */
  method RowOverrideAlerts(records: seq<Applied>, i: nat, n: nat, es: seq<nat>) returns (alerts: seq<Alert>)
    requires i < n <= |records|
    ensures alerts == RowAlerts(records, i, n, es)
  {
    alerts := [];
    var iv := records[i];
    var j := i + 1;
    while j < n
      invariant i + 1 <= j <= n
      invariant alerts == RowAlerts(records, i, j, es)
    {
      var jv := records[j];
      var bothSet, sourceSet := CountOverlap(iv, jv, es);
      if bothSet > 0 {
        if bothSet != sourceSet {
          alerts := alerts + [Alert(iv.index, Warning)];
        } else {
          alerts := alerts + [Alert(iv.index, Error)];
        }
      }
      j := j + 1;
    }
  }

  // ---------------------------------------------------------------------
  // The program's own numbering

  /** A channel that writes the string it is handed as the element's text. */
  function TextChannel(): Channel
  {
    Channel(false, (v: Value, visual: ElementVisual) => if v.Text? then visual.(text := v.s) else visual)
  }

  /** A colour gradient: it needs a numeric range; its colours are not modelled. */
  function GradientChannel(): Channel
  {
    Channel(true, (v: Value, visual: ElementVisual) => visual)
  }

  /** A numeric build whose range the channel cannot map stops after adding the records. */
  lemma NoRangeBuild(s: BuilderState, es: seq<nat>, tails: set<nat>, attribute: Attribute, channel: Channel,
                     rank: string -> int, index: int, countEarlyReturns: bool)
    requires WellFormed(s) && es != [] && attribute.NumericAttribute? && channel.requiresRange && attribute.min == attribute.max
    ensures BuildSpec(s, es, tails, attribute, channel, rank, index, countEarlyReturns) ==
      (Appended(s, index).(numApplied := if countEarlyReturns then s.numApplied + 1 else s.numApplied), Info([Warning], []))
  {
  }

  /** A string build without shared values over one element writes that element's text. */
  lemma TextBuild(s: BuilderState, e: nat, v: string, rank: string -> int, index: int, countEarlyReturns: bool)
    requires WellFormed(s)
    ensures var visual := VisualOf(s.visuals, e);
      BuildSpec(s, [e], {}, StringAttribute(false, map[e := v], []), TextChannel(), rank, index, countEarlyReturns).0 ==
      ApplyAt(Appended(s, index), e, visual.(text := v), s.numApplied).(numApplied := s.numApplied + 1)
  {
    var attribute := StringAttribute(false, map[e := v], []);
    var a := Appended(s, index);
    assert [e][..0] == [];
    assert SortByRank([], rank) == [];
    assert ElementValue(attribute, [], e) == Text(v);
    var visual := VisualOf(s.visuals, e);
    assert TextChannel().applyTo(Text(v), visual) == visual.(text := v);
    assert ApplyEach(a, [], attribute, [], TextChannel().applyTo, s.numApplied, {}) == a;
    assert ApplyEach(a, [e], attribute, [], TextChannel().applyTo, s.numApplied, {}) ==
      ApplyAt(a, e, visual.(text := v), s.numApplied);
  }

  /** A collation under which all strings rank alike. */
  function SameRank(v: string): int
  {
    0
  }

  /** The state before the scenario: one element with the default visual, no records. */
  function ScenarioStart(): BuilderState
  {
    BuilderState(map[0 := DefaultVisual], 0, [[], [], []])
  }

  /** The scenario's first build: a numeric attribute whose range is a single value, on a gradient. */
  function FirstBuild(countEarlyReturns: bool): BuilderState
  {
    BuildSpec(ScenarioStart(), [0], {}, NumericAttribute(false, 1.0, 1.0), GradientChannel(), SameRank, 0, countEarlyReturns).0
  }

  /** A later build of the scenario: the string `v` written as the text of element 0. */
  function TextStep(s: BuilderState, v: string, index: int, countEarlyReturns: bool): BuilderState
    requires WellFormed(s)
  {
    BuildSpec(s, [0], {}, StringAttribute(false, map[0 := v], []), TextChannel(), SameRank, index, countEarlyReturns).0
  }

  /** Three builds: a numeric one without a range, then two that write the text of element 0. */
  function Scenario(countEarlyReturns: bool): (r: BuilderState)
    ensures WellFormed(r)
  {
    var s1 := FirstBuild(countEarlyReturns);
    var s2 := TextStep(s1, "a", 1, countEarlyReturns);
    TextStep(s2, "b", 2, countEarlyReturns)
  }

  /** A text step writes the text of element 0 and flags only the text channel, when the text changes, in the record numbered by the count. */
  lemma TextStepRecords(s: BuilderState, v: string, index: int, countEarlyReturns: bool)
    requires WellFormed(s)
    ensures var before := VisualOf(s.visuals, 0);
      var blank := Applied(index, map[]);
      var apps := s.applications;
      TextStep(s, v, index, countEarlyReturns) ==
        BuilderState(s.visuals[0 := before.(text := v)], s.numApplied + 1,
          [SetFlag(apps[0] + [blank], s.numApplied, 0, false),
           SetFlag(apps[1] + [blank], s.numApplied, 0, false),
           SetFlag(apps[2] + [blank], s.numApplied, 0, before.text != v)])
  {
    TextBuild(s, 0, v, SameRank, index, countEarlyReturns);
  }

  /** The first build stops with a warning after adding one blank record per channel. */
  lemma FirstBuildRecords(countEarlyReturns: bool)
    ensures FirstBuild(countEarlyReturns) ==
      BuilderState(map[0 := DefaultVisual], if countEarlyReturns then 1 else 0, [[Applied(0, map[])], [Applied(0, map[])], [Applied(0, map[])]])
  {
    var s0 := ScenarioStart();
    NoRangeBuild(s0, [0], {}, NumericAttribute(false, 1.0, 1.0), GradientChannel(), SameRank, 0, countEarlyReturns);
    assert [] + [Applied(0, map[])] == [Applied(0, map[])];
    assert Appended(s0, 0).applications == [[Applied(0, map[])], [Applied(0, map[])], [Applied(0, map[])]];
  }

  /** As written, the second build records its change in record 0, the first build's. */
  lemma AsWrittenSecond()
    ensures TextStep(BuilderState(map[0 := DefaultVisual], 0, [[Applied(0, map[])], [Applied(0, map[])], [Applied(0, map[])]]), "a", 1, false) ==
      BuilderState(map[0 := DefaultVisual.(text := "a")], 1,
        [[Applied(0, map[0 := false]), Applied(1, map[])],
         [Applied(0, map[0 := false]), Applied(1, map[])],
         [Applied(0, map[0 := true]), Applied(1, map[])]])
  {
    var s1 := BuilderState(map[0 := DefaultVisual], 0, [[Applied(0, map[])], [Applied(0, map[])], [Applied(0, map[])]]);
    TextStepRecords(s1, "a", 1, false);
    var pair := [Applied(0, map[]), Applied(1, map[])];
    assert [Applied(0, map[])] + [Applied(1, map[])] == pair;
    assert Appended(s1, 1).applications == [pair, pair, pair];
    assert SetFlag(pair, 0, 0, false) == [Applied(0, map[0 := false]), Applied(1, map[])];
    assert SetFlag(pair, 0, 0, true) == [Applied(0, map[0 := true]), Applied(1, map[])];
  }

  /** As written, the third build records its change in record 1, the second build's. */
  lemma AsWrittenThird()
    ensures TextStep(BuilderState(map[0 := DefaultVisual.(text := "a")], 1,
        [[Applied(0, map[0 := false]), Applied(1, map[])],
         [Applied(0, map[0 := false]), Applied(1, map[])],
         [Applied(0, map[0 := true]), Applied(1, map[])]]), "b", 2, false) ==
      BuilderState(map[0 := DefaultVisual.(text := "b")], 2,
        [[Applied(0, map[0 := false]), Applied(1, map[0 := false]), Applied(2, map[])],
         [Applied(0, map[0 := false]), Applied(1, map[0 := false]), Applied(2, map[])],
         [Applied(0, map[0 := true]), Applied(1, map[0 := true]), Applied(2, map[])]])
  {
    var s2 := BuilderState(map[0 := DefaultVisual.(text := "a")], 1,
      [[Applied(0, map[0 := false]), Applied(1, map[])],
       [Applied(0, map[0 := false]), Applied(1, map[])],
       [Applied(0, map[0 := true]), Applied(1, map[])]]);
    TextStepRecords(s2, "b", 2, false);
    var off, on := [Applied(0, map[0 := false]), Applied(1, map[]), Applied(2, map[])],
                   [Applied(0, map[0 := true]), Applied(1, map[]), Applied(2, map[])];
    assert [Applied(0, map[0 := false]), Applied(1, map[])] + [Applied(2, map[])] == off;
    assert [Applied(0, map[0 := true]), Applied(1, map[])] + [Applied(2, map[])] == on;
    assert Appended(s2, 2).applications == [off, off, on];
    assert SetFlag(off, 1, 0, false) == [Applied(0, map[0 := false]), Applied(1, map[0 := false]), Applied(2, map[])];
    assert SetFlag(on, 1, 0, true) == [Applied(0, map[0 := true]), Applied(1, map[0 := true]), Applied(2, map[])];
  }

  /** Counting the early return, the second build records its change in its own record 1. */
  lemma CorrectedSecond()
    ensures TextStep(BuilderState(map[0 := DefaultVisual], 1, [[Applied(0, map[])], [Applied(0, map[])], [Applied(0, map[])]]), "a", 1, true) ==
      BuilderState(map[0 := DefaultVisual.(text := "a")], 2,
        [[Applied(0, map[]), Applied(1, map[0 := false])],
         [Applied(0, map[]), Applied(1, map[0 := false])],
         [Applied(0, map[]), Applied(1, map[0 := true])]])
  {
    var s1 := BuilderState(map[0 := DefaultVisual], 1, [[Applied(0, map[])], [Applied(0, map[])], [Applied(0, map[])]]);
    TextStepRecords(s1, "a", 1, true);
    var pair := [Applied(0, map[]), Applied(1, map[])];
    assert [Applied(0, map[])] + [Applied(1, map[])] == pair;
    assert Appended(s1, 1).applications == [pair, pair, pair];
    assert SetFlag(pair, 1, 0, false) == [Applied(0, map[]), Applied(1, map[0 := false])];
    assert SetFlag(pair, 1, 0, true) == [Applied(0, map[]), Applied(1, map[0 := true])];
  }

  /** Counting the early return, the third build records its change in its own record 2. */
  lemma CorrectedThird()
    ensures TextStep(BuilderState(map[0 := DefaultVisual.(text := "a")], 2,
        [[Applied(0, map[]), Applied(1, map[0 := false])],
         [Applied(0, map[]), Applied(1, map[0 := false])],
         [Applied(0, map[]), Applied(1, map[0 := true])]]), "b", 2, true) ==
      BuilderState(map[0 := DefaultVisual.(text := "b")], 3,
        [[Applied(0, map[]), Applied(1, map[0 := false]), Applied(2, map[0 := false])],
         [Applied(0, map[]), Applied(1, map[0 := false]), Applied(2, map[0 := false])],
         [Applied(0, map[]), Applied(1, map[0 := true]), Applied(2, map[0 := true])]])
  {
    var s2 := BuilderState(map[0 := DefaultVisual.(text := "a")], 2,
      [[Applied(0, map[]), Applied(1, map[0 := false])],
       [Applied(0, map[]), Applied(1, map[0 := false])],
       [Applied(0, map[]), Applied(1, map[0 := true])]]);
    TextStepRecords(s2, "b", 2, true);
    var off, on := [Applied(0, map[]), Applied(1, map[0 := false]), Applied(2, map[])],
                   [Applied(0, map[]), Applied(1, map[0 := true]), Applied(2, map[])];
    assert [Applied(0, map[]), Applied(1, map[0 := false])] + [Applied(2, map[])] == off;
    assert [Applied(0, map[]), Applied(1, map[0 := true])] + [Applied(2, map[])] == on;
    assert Appended(s2, 2).applications == [off, off, on];
    assert SetFlag(off, 2, 0, false) == [Applied(0, map[]), Applied(1, map[0 := false]), Applied(2, map[0 := false])];
    assert SetFlag(on, 2, 0, true) == [Applied(0, map[]), Applied(1, map[0 := true]), Applied(2, map[0 := true])];
  }

  lemma ScenarioAsWritten()
    ensures Scenario(false) == BuilderState(map[0 := DefaultVisual.(text := "b")], 2,
      [[Applied(0, map[0 := false]), Applied(1, map[0 := false]), Applied(2, map[])],
       [Applied(0, map[0 := false]), Applied(1, map[0 := false]), Applied(2, map[])],
       [Applied(0, map[0 := true]), Applied(1, map[0 := true]), Applied(2, map[])]])
  {
    FirstBuildRecords(false);
    AsWrittenSecond();
    AsWrittenThird();
  }

  lemma ScenarioCorrected()
    ensures Scenario(true) == BuilderState(map[0 := DefaultVisual.(text := "b")], 3,
      [[Applied(0, map[]), Applied(1, map[0 := false]), Applied(2, map[0 := false])],
       [Applied(0, map[]), Applied(1, map[0 := false]), Applied(2, map[0 := false])],
       [Applied(0, map[]), Applied(1, map[0 := true]), Applied(2, map[0 := true])]])
  {
    FirstBuildRecords(true);
    CorrectedSecond();
    CorrectedThird();
  }

  /**
   * Without the increment on the early returns: a numeric visualisation
   * without a range (number 0), then two string visualisations (1 and 2)
   * that both set the text of the only element. The second overrides the
   * first, yet the program records the first one's changes in the record
   * numbered 0 and so flags visualisation 0; counting the early return
   * flags visualisation 1.
   */
  lemma AsWrittenMisattributesOverride()
    ensures OverrideAlerts(Scenario(false).applications, Scenario(false).numApplied, [0]) == [Alert(0, Error)]
    ensures OverrideAlerts(Scenario(true).applications, Scenario(true).numApplied, [0]) == [Alert(1, Error)]
  {
    ScenarioAsWritten();
    AsWrittenAlerts();
    ScenarioCorrected();
    CorrectedAlerts();
  }

  /** With a single element, a pair overlaps exactly when both records set it, and then the later one covers the earlier. */
  lemma SingleElementPair(iv: Applied, jv: Applied)
    ensures PairAlerts(iv, jv, [0]) == if IsSet(iv, 0) && IsSet(jv, 0) then [Alert(iv.index, Error)] else []
  {
    assert [0][..0] == [];
    assert SourceSet(iv, [0]) == if IsSet(iv, 0) then 1 else 0;
    assert BothSet(iv, jv, [0]) == if IsSet(iv, 0) && IsSet(jv, 0) then 1 else 0;
  }

  /** The alerts of three channels, each channel's pairs in order. */
  lemma ThreeChannels(apps: seq<seq<Applied>>, n: nat, es: seq<nat>)
    requires CoversApplied(apps, NumChannels, n)
    ensures OverrideAlerts(apps, n, es) ==
      ChannelAlerts(apps[0], Rows(n), n, es) + ChannelAlerts(apps[1], Rows(n), n, es) + ChannelAlerts(apps[2], Rows(n), n, es)
  {
    assert AlertsUpTo(apps, 1, n, es) == ChannelAlerts(apps[0], Rows(n), n, es);
    assert AlertsUpTo(apps, 2, n, es) == AlertsUpTo(apps, 1, n, es) + ChannelAlerts(apps[1], Rows(n), n, es);
  }

  /** Two applied records yield the alerts of their one pair. */
  lemma TwoApplied(records: seq<Applied>, es: seq<nat>)
    requires 2 <= |records|
    ensures ChannelAlerts(records, Rows(2), 2, es) == PairAlerts(records[0], records[1], es)
  {
    assert RowAlerts(records, 0, 2, es) == RowAlerts(records, 0, 1, es) + PairAlerts(records[0], records[1], es);
    assert ChannelAlerts(records, 1, 2, es) == ChannelAlerts(records, 0, 2, es) + RowAlerts(records, 0, 2, es);
  }

  /** Three applied records yield the alerts of their three pairs, the first record's first. */
  lemma ThreeApplied(records: seq<Applied>, es: seq<nat>)
    requires 3 <= |records|
    ensures ChannelAlerts(records, Rows(3), 3, es) ==
      PairAlerts(records[0], records[1], es) + PairAlerts(records[0], records[2], es) + PairAlerts(records[1], records[2], es)
  {
    assert RowAlerts(records, 0, 2, es) == RowAlerts(records, 0, 1, es) + PairAlerts(records[0], records[1], es);
    assert RowAlerts(records, 0, 3, es) == RowAlerts(records, 0, 2, es) + PairAlerts(records[0], records[2], es);
    assert RowAlerts(records, 1, 3, es) == RowAlerts(records, 1, 2, es) + PairAlerts(records[1], records[2], es);
    assert ChannelAlerts(records, 1, 3, es) == ChannelAlerts(records, 0, 3, es) + RowAlerts(records, 0, 3, es);
    assert ChannelAlerts(records, 2, 3, es) == ChannelAlerts(records, 1, 3, es) + RowAlerts(records, 1, 3, es);
  }

  lemma AsWrittenAlerts()
    ensures OverrideAlerts(
      [[Applied(0, map[0 := false]), Applied(1, map[0 := false]), Applied(2, map[])],
       [Applied(0, map[0 := false]), Applied(1, map[0 := false]), Applied(2, map[])],
       [Applied(0, map[0 := true]), Applied(1, map[0 := true]), Applied(2, map[])]], 2, [0]) == [Alert(0, Error)]
  {
    var off := [Applied(0, map[0 := false]), Applied(1, map[0 := false]), Applied(2, map[])];
    var on := [Applied(0, map[0 := true]), Applied(1, map[0 := true]), Applied(2, map[])];
    ThreeChannels([off, off, on], 2, [0]);
    TwoApplied(off, [0]);
    TwoApplied(on, [0]);
    SingleElementPair(off[0], off[1]);
    SingleElementPair(on[0], on[1]);
  }

  lemma CorrectedAlerts()
    ensures OverrideAlerts(
      [[Applied(0, map[]), Applied(1, map[0 := false]), Applied(2, map[0 := false])],
       [Applied(0, map[]), Applied(1, map[0 := false]), Applied(2, map[0 := false])],
       [Applied(0, map[]), Applied(1, map[0 := true]), Applied(2, map[0 := true])]], 3, [0]) == [Alert(1, Error)]
  {
    var off := [Applied(0, map[]), Applied(1, map[0 := false]), Applied(2, map[0 := false])];
    var on := [Applied(0, map[]), Applied(1, map[0 := true]), Applied(2, map[0 := true])];
    ThreeChannels([off, off, on], 3, [0]);
    ThreeApplied(off, [0]);
    ThreeApplied(on, [0]);
    SingleElementPair(off[0], off[1]);
    SingleElementPair(off[0], off[2]);
    SingleElementPair(off[1], off[2]);
    SingleElementPair(on[0], on[1]);
    SingleElementPair(on[0], on[2]);
    SingleElementPair(on[1], on[2]);
  }

  // ---------------------------------------------------------------------
  // The builder object

  class Builder {
    /** The elements being visualised (nodes or edges) and which of them are tails. */
    const elementIds: seq<nat>
    const tails: set<nat>
    var visuals: map<nat, ElementVisual>
    var numApplied: nat
    var applications: seq<seq<Applied>>

    function State(): BuilderState
      reads this
    {
      BuilderState(visuals, numApplied, applications)
    }

    ghost predicate Valid()
      reads this
    {
      Counted(State())
    }

    constructor(elementIds: seq<nat>, tails: set<nat>, visuals: map<nat, ElementVisual>)
      ensures Valid()
      ensures this.elementIds == elementIds && this.tails == tails
      ensures State() == BuilderState(visuals, 0, [[], [], []])
    {
      this.elementIds := elementIds;
      this.tails := tails;
      this.visuals := visuals;
      numApplied := 0;
      applications := [[], [], []];
    }

    /** apply: the channel changes the element's visual; each channel's flag records whether its part changed. */
    method Apply(value: Value, apply: (Value, ElementVisual) -> ElementVisual, elementId: nat, index: nat)
      requires WellFormed(State()) && index < |applications[0]|
      modifies this
      ensures State() == ApplyAt(old(State()), elementId, apply(value, VisualOf(old(visuals), elementId)), index)
    {
      var oldVisual := VisualOf(visuals, elementId);
      var visual := apply(value, oldVisual);
      visuals := visuals[elementId := visual];
      applications := [
        SetFlag(applications[0], index, elementId, oldVisual.size != visual.size),
        SetFlag(applications[1], index, elementId,
          oldVisual.innerColor != visual.innerColor || oldVisual.outerColor != visual.outerColor),
        SetFlag(applications[2], index, elementId, oldVisual.text != visual.text)];
    }

    /** The element loop of build, for either attribute kind. */
    method ApplyToElements(attribute: Attribute, sorted: seq<string>, m: map<string, string>,
                           apply: (Value, ElementVisual) -> ElementVisual, index: nat, skip: set<nat>)
      requires WellFormed(State()) && index < |applications[0]|
      requires m == NumberMap(sorted)
      requires forall e :: e in elementIds && e !in skip ==> ValueShown(attribute, sorted, e)
      modifies this
      ensures State() == ApplyEach(old(State()), elementIds, attribute, sorted, apply, index, skip)
    {
      var k := 0;
      while k < |elementIds|
        invariant 0 <= k <= |elementIds|
        invariant WellFormed(State()) && index < |applications[0]|
        invariant State() == ApplyEach(old(State()), elementIds[..k], attribute, sorted, apply, index, skip)
      {
        var e := elementIds[k];
        ApplyEachNext(old(State()), elementIds, k, attribute, sorted, apply, index, skip);
        if e !in skip {
          var value := LookUpValue(attribute, sorted, m, e);
          Apply(value, apply, e, index);
        }
        k := k + 1;
      }
      assert elementIds[..k] == elementIds;
    }

    /** The string branch of build: number the sorted shared values, then visit the elements. */
    method ApplyStrings(attribute: Attribute, apply: (Value, ElementVisual) -> ElementVisual, rank: string -> int,
                        index: nat, skip: set<nat>) returns (info: Info)
      requires attribute.StringAttribute? && WellFormed(State()) && index < |applications[0]|
      requires forall e :: e in elementIds && e !in skip ==> ValueShown(attribute, attribute.sharedValues, e)
      modifies this
      ensures var sorted := SortByRank(attribute.sharedValues, rank);
        (forall e :: e in elementIds && e !in skip ==> ValueShown(attribute, sorted, e)) &&
        info == Info([], sorted) &&
        State() == ApplyEach(old(State()), elementIds, attribute, sorted, apply, index, skip)
    {
      var shared := attribute.sharedValues;
      var sorted := SortByRank(shared, rank);
      SortKeepsValues(shared, rank);
      var m := NumberShared(sorted);
      ApplyToElements(attribute, sorted, m, apply, index, skip);
      info := Info([], sorted);
    }

    /**
     * build, with the applied count advanced on every path, so that the
     * record numbered by the count is always the one this build added.
     */
    method Build(attribute: Attribute, channel: Channel, rank: string -> int, index: int) returns (info: Info)
      requires Valid() && ValuesShared(attribute, elementIds, tails)
      modifies this
      ensures Valid()
      ensures (State(), info) == BuildSpec(old(State()), elementIds, tails, attribute, channel, rank, index, true)
    {
      ghost var s0 := State();
      var blank := Applied(index, map[]);
      applications := [applications[0] + [blank], applications[1] + [blank], applications[2] + [blank]];
      assert State() == Appended(s0, index);
      if elementIds == [] {
        info := Info([Error], []);
        numApplied := numApplied + 1;
        return;
      }
      var skip := Skipped(attribute, tails);
      match attribute {
        case NumericAttribute(_, min, max) =>
          if channel.requiresRange && min == max {
            info := Info([Warning], []);
            numApplied := numApplied + 1;
            return;
          }
          ApplyToElements(attribute, [], map[], channel.applyTo, numApplied, skip);
          info := Info([], []);
        case StringAttribute(_, _, _) =>
          info := ApplyStrings(attribute, channel.applyTo, rank, numApplied, skip);
        case OtherAttribute =>
          info := Info([], []);
      }
      numApplied := numApplied + 1;
    }

    /** findOverrideAlerts: every pair of applied records, channel by channel, in order. */
    method FindOverrideAlerts() returns (alerts: seq<Alert>)
      requires WellFormed(State())
      ensures alerts == OverrideAlerts(applications, numApplied, elementIds)
    {
      alerts := [];
      var c := 0;
      while c < NumChannels
        invariant 0 <= c <= NumChannels
        invariant alerts == AlertsUpTo(applications, c, numApplied, elementIds)
      {
        var more := ChannelOverrideAlerts(applications[c], numApplied, elementIds);
        alerts := alerts + more;
        c := c + 1;
      }
    }
  }
}
