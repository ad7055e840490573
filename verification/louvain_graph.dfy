/**
 * The graph the Louvain transform works on, its edge weights, and the
 * per-community degree table that the `add` and `remove` steps keep.
 *
 * Node and edge ids are naturals; a community id is a natural too, and a
 * node that has no community is simply absent from the community map (the
 * program's null id).
 */
module LouvainGraph {

  /**
   * A graph in the order the program visits it: node ids, the tail nodes of
   * merged multi-elements, edge ids, each edge's (source, target) and each
   * node's incident edge list.
   */
  datatype Graph = Graph(
    nodeIds: seq<nat>,
    tails: set<nat>,
    edgeIds: seq<nat>,
    ends: map<nat, (nat, nat)>,
    incident: map<nat, seq<nat>>)

  predicate NoDups(s: seq<nat>)
  {
    forall i, j :: 0 <= i < j < |s| ==> s[i] != s[j]
  }

  /** Ids are listed once; edges join listed nodes; a node's incident edges touch it. */
  predicate WellFormed(g: Graph)
  {
    NoDups(g.nodeIds) && NoDups(g.edgeIds) &&
    (forall e :: e in g.edgeIds ==> e in g.ends && g.ends[e].0 in g.nodeIds && g.ends[e].1 in g.nodeIds) &&
    (forall n, e :: n in g.incident && e in g.incident[n] ==>
      e in g.edgeIds && e in g.ends && (g.ends[e].0 == n || g.ends[e].1 == n))
  }

  /** No edge touches a tail node. */
  predicate EdgesAvoidTails(g: Graph)
  {
    forall e :: e in g.edgeIds && e in g.ends ==> g.ends[e].0 !in g.tails && g.ends[e].1 !in g.tails
  }

  function Incident(g: Graph, n: nat): seq<nat>
  {
    if n in g.incident then g.incident[n] else []
  }

  /** Edge::oppositeId: the other end of `e` seen from `n`. */
  function Opposite(g: Graph, e: nat, n: nat): nat
    requires e in g.ends
  {
    if g.ends[e].0 == n then g.ends[e].1 else g.ends[e].0
  }

  /** A lookup in an element array whose unset entries are 0. */
  function Get(m: map<nat, nat>, k: nat): nat
  {
    if k in m then m[k] else 0
  }

  /** The summed weight of the edges `es`. */
  function SumWeights(es: seq<nat>, weights: map<nat, nat>): nat
  {
    if es == [] then 0 else SumWeights(es[..|es| - 1], weights) + Get(weights, es[|es| - 1])
  }

  lemma {:induction false} SumWeightsAppend(a: seq<nat>, b: seq<nat>, weights: map<nat, nat>)
    ensures SumWeights(a + b, weights) == SumWeights(a, weights) + SumWeights(b, weights)
    decreases |b|
  {
    if b == [] {
      assert a + b == a;
    } else {
      var n := |b| - 1;
      assert (a + b)[..|a + b| - 1] == a + b[..n];
      SumWeightsAppend(a, b[..n], weights);
    }
  }

  /** The weights of edges other than `e` do not matter to a list without `e`. */
  lemma {:induction false} SumWeightsFrame(es: seq<nat>, weights: map<nat, nat>, e: nat, w: nat)
    requires e !in es
    ensures SumWeights(es, weights[e := w]) == SumWeights(es, weights)
    decreases |es|
  {
    if es != [] {
      var n := |es| - 1;
      assert es[n] in es;
      assert forall x :: x in es[..n] ==> x in es;
      SumWeightsFrame(es[..n], weights, e, w);
    }
  }

  /** Adding `w` to an edge listed exactly once adds `w` to the sum. */
  lemma {:induction false} SumWeightsBump(es: seq<nat>, weights: map<nat, nat>, e: nat, w: nat)
    requires NoDups(es) && e in es
    ensures SumWeights(es, weights[e := Get(weights, e) + w]) == SumWeights(es, weights) + w
    decreases |es|
  {
    var n := |es| - 1;
    var prefix := es[..n];
    assert NoDups(prefix);
    if es[n] == e {
      assert e !in prefix;
      SumWeightsFrame(prefix, weights, e, Get(weights, e) + w);
    } else {
      assert e in prefix;
      SumWeightsBump(prefix, weights, e, w);
    }
  }

  /** The weighted degree of `n`: the summed weight of its incident edges. */
  function WeightedDegree(g: Graph, weights: map<nat, nat>, n: nat): nat
  {
    SumWeights(Incident(g, n), weights)
  }

  // ---------------------------------------------------------------------
  // Community degrees

  /** communityDegrees[c], reading an absent entry as 0 as std::map::operator[] does. */
  function Degree(degrees: map<nat, int>, c: nat): int
  {
    if c in degrees then degrees[c] else 0
  }

  /** The table after `add` puts a node of weighted degree `d` into community `c`. */
  function AddDegree(degrees: map<nat, int>, c: nat, d: nat): (r: map<nat, int>)
    ensures Degree(r, c) == Degree(degrees, c) + d
    ensures forall x :: x != c ==> Degree(r, x) == Degree(degrees, x)
  {
    degrees[c := Degree(degrees, c) + d]
  }

  /** The table after `remove` takes a node of weighted degree `d` out of community `c`. */
  function RemoveDegree(degrees: map<nat, int>, c: nat, d: nat): (r: map<nat, int>)
    ensures Degree(r, c) == Degree(degrees, c) - d
    ensures forall x :: x != c ==> Degree(r, x) == Degree(degrees, x)
  {
    degrees[c := Degree(degrees, c) - d]
  }

  /** With integral degrees, `remove` undoes `add` and `add` undoes `remove`, entry by entry. */
  lemma AddRemoveInverse(degrees: map<nat, int>, c: nat, d: nat)
    ensures forall x :: Degree(RemoveDegree(AddDegree(degrees, c, d), c, d), x) == Degree(degrees, x)
    ensures forall x :: Degree(AddDegree(RemoveDegree(degrees, c, d), c, d), x) == Degree(degrees, x)
  {
  }

  /** What node `n` contributes to community `c`: its weighted degree if it belongs to `c`. */
  function Part(communities: map<nat, nat>, degrees: map<nat, nat>, n: nat, c: nat): nat
  {
    if n in communities && communities[n] == c then Get(degrees, n) else 0
  }

  /** The summed weighted degree of the nodes of `nodes` that belong to community `c`. */
  function MemberSum(nodes: seq<nat>, communities: map<nat, nat>, degrees: map<nat, nat>, c: nat): nat
  {
    if nodes == [] then 0
    else MemberSum(nodes[..|nodes| - 1], communities, degrees, c) + Part(communities, degrees, nodes[|nodes| - 1], c)
  }

  /** `a` and `b` hold the same entries for every key but `n`. */
  ghost predicate AgreeExcept(a: map<nat, nat>, b: map<nat, nat>, n: nat)
  {
    forall m :: m != n ==> (m in a <==> m in b) && (m in a && m in b ==> a[m] == b[m])
  }

  /** Changing one node's community or degree changes each member sum by that node's part only. */
  lemma {:induction false} MemberSumUpdate(nodes: seq<nat>, communities: map<nat, nat>, degrees: map<nat, nat>,
                                           communities': map<nat, nat>, degrees': map<nat, nat>, n: nat, c: nat)
    requires NoDups(nodes) && AgreeExcept(communities, communities', n) && AgreeExcept(degrees, degrees', n)
    ensures MemberSum(nodes, communities', degrees', c) ==
      MemberSum(nodes, communities, degrees, c) +
      (if n in nodes then Part(communities', degrees', n, c) - Part(communities, degrees, n, c) else 0)
    decreases |nodes|
  {
    if nodes != [] {
      var k := |nodes| - 1;
      var prefix := nodes[..k];
      assert NoDups(prefix);
      assert nodes == prefix + [nodes[k]];
      MemberSumUpdate(prefix, communities, degrees, communities', degrees', n, c);
      if nodes[k] == n {
        assert n !in prefix;
      } else {
        assert n in nodes <==> n in prefix;
        assert Part(communities', degrees', nodes[k], c) == Part(communities, degrees, nodes[k], c);
      }
    }
  }

  /** Between steps, each community's degree is the summed weighted degree of its members. */
  ghost predicate DegreesConsistent(nodes: seq<nat>, communities: map<nat, nat>, degrees: map<nat, nat>, table: map<nat, int>)
  {
    forall c :: Degree(table, c) == MemberSum(nodes, communities, degrees, c)
  }

  /** `add` of a node that has no community keeps the table consistent. */
  lemma AddKeepsConsistent(nodes: seq<nat>, communities: map<nat, nat>, degrees: map<nat, nat>,
                           table: map<nat, int>, n: nat, c: nat)
    requires NoDups(nodes) && n in nodes && n !in communities
    requires DegreesConsistent(nodes, communities, degrees, table)
    ensures DegreesConsistent(nodes, communities[n := c], degrees, AddDegree(table, c, Get(degrees, n)))
  {
    forall x ensures Degree(AddDegree(table, c, Get(degrees, n)), x) == MemberSum(nodes, communities[n := c], degrees, x) {
      MemberSumUpdate(nodes, communities, degrees, communities[n := c], degrees, n, x);
    }
  }

  /** `remove` of a node from its own community keeps the table consistent. */
  lemma RemoveKeepsConsistent(nodes: seq<nat>, communities: map<nat, nat>, degrees: map<nat, nat>,
                              table: map<nat, int>, n: nat)
    requires NoDups(nodes) && n in nodes && n in communities
    requires DegreesConsistent(nodes, communities, degrees, table)
    ensures DegreesConsistent(nodes, communities - {n}, degrees, RemoveDegree(table, communities[n], Get(degrees, n)))
  {
    var c := communities[n];
    forall x ensures Degree(RemoveDegree(table, c, Get(degrees, n)), x) == MemberSum(nodes, communities - {n}, degrees, x) {
      MemberSumUpdate(nodes, communities, degrees, communities - {n}, degrees, n, x);
    }
  }

  /** Setting the weighted degree of a node that has no community changes no member sum. */
  lemma SetDegreeKeepsConsistent(nodes: seq<nat>, communities: map<nat, nat>, degrees: map<nat, nat>,
                                 table: map<nat, int>, n: nat, d: nat)
    requires NoDups(nodes) && n !in communities
    requires DegreesConsistent(nodes, communities, degrees, table)
    ensures DegreesConsistent(nodes, communities, degrees[n := d], table)
  {
    forall x ensures Degree(table, x) == MemberSum(nodes, communities, degrees[n := d], x) {
      MemberSumUpdate(nodes, communities, degrees, communities, degrees[n := d], n, x);
    }
  }

  /** Nothing belongs to any community: every sum is 0, as is every entry of an empty table. */
  lemma {:induction false} EmptyConsistent(nodes: seq<nat>, degrees: map<nat, nat>)
    ensures DegreesConsistent(nodes, map[], degrees, map[])
  {
    forall c ensures MemberSum(nodes, map[], degrees, c) == 0 {
      EmptyMemberSum(nodes, degrees, c);
    }
  }

  lemma {:induction false} EmptyMemberSum(nodes: seq<nat>, degrees: map<nat, nat>, c: nat)
    ensures MemberSum(nodes, map[], degrees, c) == 0
    decreases |nodes|
  {
    if nodes != [] {
      EmptyMemberSum(nodes[..|nodes| - 1], degrees, c);
    }
  }

  // ---------------------------------------------------------------------
  // Node order

  /** The non-tail nodes, in iteration order. */
  function NonTail(nodes: seq<nat>, tails: set<nat>): (r: seq<nat>)
    ensures |r| <= |nodes|
    ensures forall n :: n in r <==> n in nodes && n !in tails
  {
    if nodes == [] then []
    else
      var k := |nodes| - 1;
      assert nodes == nodes[..k] + [nodes[k]];
      NonTail(nodes[..k], tails) + (if nodes[k] in tails then [] else [nodes[k]])
  }

  /**
   * The start of `moveNodes`: the non-tail nodes, in order, each in a
   * community of its own numbered 0, 1, 2, …
   */
  function Singletons(nodes: seq<nat>, tails: set<nat>): (r: map<nat, nat>)
    ensures forall n :: n in r <==> n in nodes && n !in tails
  {
    if nodes == [] then map[]
    else
      var k := |nodes| - 1;
      assert nodes == nodes[..k] + [nodes[k]];
      var prev := Singletons(nodes[..k], tails);
      if nodes[k] in tails then prev else prev[nodes[k] := |NonTail(nodes[..k], tails)|]
  }

  /** The i-th non-tail node starts in community i, so no two start together. */
  lemma {:induction false} SingletonsNumbering(nodes: seq<nat>, tails: set<nat>)
    requires NoDups(nodes)
    ensures forall i :: 0 <= i < |NonTail(nodes, tails)| ==>
      NonTail(nodes, tails)[i] in Singletons(nodes, tails) && Singletons(nodes, tails)[NonTail(nodes, tails)[i]] == i
    decreases |nodes|
  {
    if nodes != [] {
      var k := |nodes| - 1;
      var prefix := nodes[..k];
      assert NoDups(prefix);
      assert nodes == prefix + [nodes[k]];
      SingletonsNumbering(prefix, tails);
      var last := nodes[k];
      assert last !in prefix;
      var before := NonTail(prefix, tails);
      var prev := Singletons(prefix, tails);
      var order := NonTail(nodes, tails);
      var r := Singletons(nodes, tails);
      assert order == before + (if last in tails then [] else [last]);
      assert r == if last in tails then prev else prev[last := |before|];
      forall i | 0 <= i < |order|
        ensures order[i] in r && r[order[i]] == i
      {
        if i < |before| {
          assert order[i] == before[i];
          assert before[i] in prefix;
          assert before[i] in prev && prev[before[i]] == i;
          assert before[i] != last;
        }
      }
    }
  }
}
