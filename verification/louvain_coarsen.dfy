/**
 * The two steps between Louvain rounds: `relabel`, which renumbers the
 * communities densely in order of first appearance, and `coarsen`, which
 * contracts each community to one node and sums the weights of the edges
 * between communities.
 */
module LouvainCoarsen {
  import opened Wrappers
  import opened LouvainGraph
  import opened Collections

  /** Every non-tail node has a community. */
  predicate Assigned(nodes: seq<nat>, tails: set<nat>, communities: map<nat, nat>)
  {
    forall n :: n in nodes && n !in tails ==> n in communities
  }

  // ---------------------------------------------------------------------
  // relabel

  /** The distinct communities of the non-tail nodes, in order of first appearance. */
  function FirstAppearances(nodes: seq<nat>, tails: set<nat>, communities: map<nat, nat>): (r: seq<nat>)
    requires Assigned(nodes, tails, communities)
    ensures NoDups(r)
  {
    if nodes == [] then []
    else
      var k := |nodes| - 1;
      var n := nodes[k];
      assert nodes == nodes[..k] + [n];
      var prev := FirstAppearances(nodes[..k], tails, communities);
      if n in tails || communities[n] in prev then prev
      else prev + [communities[n]]
  }

  /** The list holds exactly the communities of the non-tail nodes. */
  lemma {:induction false} FirstAppearancesMembers(nodes: seq<nat>, tails: set<nat>, communities: map<nat, nat>)
    requires Assigned(nodes, tails, communities)
    ensures forall c :: c in FirstAppearances(nodes, tails, communities) <==>
      exists n :: n in nodes && n !in tails && communities[n] == c
    decreases |nodes|
  {
    if nodes != [] {
      var k := |nodes| - 1;
      var n := nodes[k];
      assert nodes == nodes[..k] + [n];
      FirstAppearancesMembers(nodes[..k], tails, communities);
      var prev := FirstAppearances(nodes[..k], tails, communities);
      forall c ensures c in FirstAppearances(nodes, tails, communities) <==>
        exists m :: m in nodes && m !in tails && communities[m] == c
      {
        if exists m :: m in nodes && m !in tails && communities[m] == c {
          var m :| m in nodes && m !in tails && communities[m] == c;
          if m != n {
            assert m in nodes[..k];
          }
        }
        if c in prev {
          var m :| m in nodes[..k] && m !in tails && communities[m] == c;
          assert m in nodes;
        }
      }
    }
  }

  /** Where `x` stands in a list without repeats. */
  function IndexOf(s: seq<nat>, x: nat): (i: nat)
    requires x in s
    ensures i < |s| && s[i] == x
  {
    if s[0] == x then 0 else 1 + IndexOf(s[1..], x)
  }

  lemma IndexOfUnique(s: seq<nat>, i: nat)
    requires NoDups(s) && i < |s|
    ensures IndexOf(s, s[i]) == i
  {
  }

  /** A node's community keeps its place when more nodes are visited. */
  lemma {:induction false} FirstAppearancesGrow(nodes: seq<nat>, k: nat, tails: set<nat>, communities: map<nat, nat>)
    requires Assigned(nodes, tails, communities) && k <= |nodes|
    ensures Assigned(nodes[..k], tails, communities)
    ensures FirstAppearances(nodes[..k], tails, communities) <= FirstAppearances(nodes, tails, communities)
    decreases |nodes| - k
  {
    if k < |nodes| {
      var m := |nodes| - 1;
      assert nodes[..m][..k] == nodes[..k];
      FirstAppearancesGrow(nodes[..m], k, tails, communities);
    } else {
      assert nodes[..k] == nodes;
    }
  }

  /** relabel: each non-tail node's community becomes the place of its old community in first-appearance order. */
  function Relabelled(nodes: seq<nat>, tails: set<nat>, communities: map<nat, nat>): (r: map<nat, nat>)
    requires Assigned(nodes, tails, communities)
    ensures r.Keys == communities.Keys
  {
    var order := FirstAppearances(nodes, tails, communities);
    FirstAppearancesMembers(nodes, tails, communities);
    map n | n in communities :: if n in nodes && n !in tails then IndexOf(order, communities[n]) else communities[n]
  }

  /** The community ids the non-tail nodes hold. */
  function IdsOf(nodes: seq<nat>, tails: set<nat>, communities: map<nat, nat>): set<nat>
  {
    set n | n in nodes && n !in tails && n in communities :: communities[n]
  }

  /**
   * relabel maps the communities onto 0..k-1, k being the number of distinct
   * communities, each node's new id being the place of its old community in
   * first-appearance order; two non-tail nodes share a new id exactly when
   * they shared the old one.
   */
  lemma RelabelledMeaning(nodes: seq<nat>, tails: set<nat>, communities: map<nat, nat>)
    requires Assigned(nodes, tails, communities)
    ensures forall n :: n in nodes && n !in tails ==>
      Relabelled(nodes, tails, communities)[n] < |FirstAppearances(nodes, tails, communities)| &&
      FirstAppearances(nodes, tails, communities)[Relabelled(nodes, tails, communities)[n]] == communities[n]
    ensures forall i :: 0 <= i < |FirstAppearances(nodes, tails, communities)| ==>
      i in IdsOf(nodes, tails, Relabelled(nodes, tails, communities))
    ensures forall a, b :: a in nodes && a !in tails && b in nodes && b !in tails ==>
      (Relabelled(nodes, tails, communities)[a] == Relabelled(nodes, tails, communities)[b] <==> communities[a] == communities[b])
  {
    var order := FirstAppearances(nodes, tails, communities);
    var r := Relabelled(nodes, tails, communities);
    FirstAppearancesMembers(nodes, tails, communities);
    forall i | 0 <= i < |order| ensures i in IdsOf(nodes, tails, r) {
      assert order[i] in order;
      var n :| n in nodes && n !in tails && communities[n] == order[i];
      IndexOfUnique(order, i);
      assert r[n] == i;
    }
  }

  /**
   * The relabel loop after `k` nodes, started from `start`: `idMap` sends
   * each community seen so far to its place in first-appearance order,
   * visited non-tail nodes hold their new id and every other node its old one.
   */
  ghost predicate RelabelState(nodes: seq<nat>, tails: set<nat>, start: map<nat, nat>, k: nat,
                               communities: map<nat, nat>, idMap: map<nat, nat>, next: nat)
  {
    k <= |nodes| && Assigned(nodes, tails, start) && Assigned(nodes[..k], tails, start) &&
    next == |FirstAppearances(nodes[..k], tails, start)| &&
    (forall c :: c in idMap <==> c in FirstAppearances(nodes[..k], tails, start)) &&
    (forall c :: c in idMap ==> idMap[c] < next && FirstAppearances(nodes[..k], tails, start)[idMap[c]] == c) &&
    communities.Keys == start.Keys &&
    (forall m :: m in nodes[..k] && m !in tails ==> start[m] in idMap && communities[m] == idMap[start[m]]) &&
    (forall m :: m in communities && !(m in nodes[..k] && m !in tails) ==> communities[m] == start[m])
  }

  lemma RelabelStart(nodes: seq<nat>, tails: set<nat>, start: map<nat, nat>)
    requires Assigned(nodes, tails, start)
    ensures RelabelState(nodes, tails, start, 0, start, map[], 0)
  {
    assert nodes[..0] == [];
  }

  /** The relabel loop passes over a tail node. */
  lemma RelabelSkip(nodes: seq<nat>, tails: set<nat>, start: map<nat, nat>, k: nat,
                    communities: map<nat, nat>, idMap: map<nat, nat>, next: nat)
    requires RelabelState(nodes, tails, start, k, communities, idMap, next) && k < |nodes| && nodes[k] in tails
    ensures RelabelState(nodes, tails, start, k + 1, communities, idMap, next)
  {
    assert nodes[..k + 1] == nodes[..k] + [nodes[k]];
    assert nodes[..k + 1][..k] == nodes[..k];
  }

  /** A node not yet visited still holds its old community. */
  lemma RelabelUnvisited(nodes: seq<nat>, tails: set<nat>, start: map<nat, nat>, k: nat,
                         communities: map<nat, nat>, idMap: map<nat, nat>, next: nat)
    requires RelabelState(nodes, tails, start, k, communities, idMap, next) && k < |nodes| && nodes[k] !in tails
    requires NoDups(nodes)
    ensures nodes[k] in communities && communities[nodes[k]] == start[nodes[k]]
  {
    assert nodes[k] !in nodes[..k];
  }

  /** The relabel loop meets a community for the first time: it gets id `next`. */
  lemma RelabelNew(nodes: seq<nat>, tails: set<nat>, start: map<nat, nat>, k: nat,
                   communities: map<nat, nat>, idMap: map<nat, nat>, next: nat)
    requires RelabelState(nodes, tails, start, k, communities, idMap, next) && k < |nodes| && nodes[k] !in tails
    requires NoDups(nodes) && start[nodes[k]] !in idMap
    ensures RelabelState(nodes, tails, start, k + 1, communities[nodes[k] := next], idMap[start[nodes[k]] := next], next + 1)
  {
    var n := nodes[k];
    assert nodes[..k + 1] == nodes[..k] + [n];
    assert nodes[..k + 1][..k] == nodes[..k];
    assert n !in nodes[..k];
    var order := FirstAppearances(nodes[..k], tails, start);
    assert FirstAppearances(nodes[..k + 1], tails, start) == order + [start[n]];
  }

  /** The relabel loop meets a community it has seen: it reuses its id. */
  lemma RelabelKnown(nodes: seq<nat>, tails: set<nat>, start: map<nat, nat>, k: nat,
                     communities: map<nat, nat>, idMap: map<nat, nat>, next: nat)
    requires RelabelState(nodes, tails, start, k, communities, idMap, next) && k < |nodes| && nodes[k] !in tails
    requires NoDups(nodes) && start[nodes[k]] in idMap
    ensures RelabelState(nodes, tails, start, k + 1, communities[nodes[k] := idMap[start[nodes[k]]]], idMap, next)
  {
    var n := nodes[k];
    var prefix := nodes[..k];
    assert nodes[..k + 1] == prefix + [n];
    assert FirstAppearances(nodes[..k + 1], tails, start) == FirstAppearances(prefix, tails, start) by {
      assert nodes[..k + 1][..k] == prefix;
    }
    assert n !in prefix;
    var c' := communities[n := idMap[start[n]]];
    assert forall m :: m in nodes[..k + 1] <==> m in prefix || m == n;
  }

  /** At the end of the relabel loop the communities are the relabelled ones. */
  lemma RelabelDone(nodes: seq<nat>, tails: set<nat>, start: map<nat, nat>,
                    communities: map<nat, nat>, idMap: map<nat, nat>, next: nat)
    requires RelabelState(nodes, tails, start, |nodes|, communities, idMap, next)
    ensures communities == Relabelled(nodes, tails, start)
  {
    assert nodes[..|nodes|] == nodes;
    var order := FirstAppearances(nodes, tails, start);
    var r := Relabelled(nodes, tails, start);
    forall m | m in communities ensures communities[m] == r[m] {
      if m in nodes && m !in tails {
        IndexOfUnique(order, idMap[start[m]]);
      }
    }
  }

  // ---------------------------------------------------------------------
  // coarsen

  /** Edge `e` joins `s` and `t`, either way round, as firstEdgeIdBetween looks for it. */
  predicate Joins(ends: map<nat, (nat, nat)>, e: nat, s: nat, t: nat)
  {
    e in ends && ((ends[e].0 == s && ends[e].1 == t) || (ends[e].0 == t && ends[e].1 == s))
  }

  /** firstEdgeIdBetween: the first listed edge joining `s` and `t`, if any. */
  function FindEdge(ids: seq<nat>, ends: map<nat, (nat, nat)>, s: nat, t: nat): (r: Option<nat>)
    ensures r.Some? ==> r.value in ids && Joins(ends, r.value, s, t)
    ensures r.None? ==> forall e :: e in ids ==> !Joins(ends, e, s, t)
  {
    if ids == [] then None
    else if Joins(ends, ids[0], s, t) then Some(ids[0])
    else FindEdge(ids[1..], ends, s, t)
  }

  /** addEdge's bookkeeping: the new edge joins the incident list of an end. */
  function Attach(incident: map<nat, seq<nat>>, n: nat, e: nat): map<nat, seq<nat>>
  {
    incident[n := (if n in incident then incident[n] else []) + [e]]
  }

  /**
   * A coarse graph under construction: its nodes are `nodes`, it has no
   * tails, its edges are numbered 0, 1, 2, … and join nodes of `nodes`, and
   * no two of its edges join the same pair of nodes.
   */
  ghost predicate CoarseShape(cg: Graph, nodes: seq<nat>)
  {
    cg.nodeIds == nodes && cg.tails == {} && NoDups(nodes) &&
    cg.edgeIds == Range(|cg.edgeIds|) && EdgesWithin(cg, nodes) && IncidentSound(cg) && NoParallel(cg)
  }

  /** Every edge has ends, and they are nodes of `nodes`. */
  ghost predicate EdgesWithin(cg: Graph, nodes: seq<nat>)
  {
    forall e :: e in cg.edgeIds ==> e in cg.ends && cg.ends[e].0 in nodes && cg.ends[e].1 in nodes
  }

  /** The incident lists name only edges that touch their node. */
  ghost predicate IncidentSound(cg: Graph)
  {
    forall n, e :: n in cg.incident && e in cg.incident[n] ==>
      e in cg.edgeIds && e in cg.ends && (cg.ends[e].0 == n || cg.ends[e].1 == n)
  }

  /** No two edges join the same pair of nodes. */
  ghost predicate NoParallel(cg: Graph)
    requires forall e :: e in cg.edgeIds ==> e in cg.ends
  {
    forall e, f :: e in cg.edgeIds && f in cg.edgeIds && e != f ==> !Joins(cg.ends, f, cg.ends[e].0, cg.ends[e].1)
  }

  lemma CoarseShapeWellFormed(cg: Graph, nodes: seq<nat>)
    requires CoarseShape(cg, nodes)
    ensures WellFormed(cg) && EdgesAvoidTails(cg)
  {
  }

  /**
   * One fine edge, between communities `s` and `t`, of weight `w`: its
   * weight goes to the coarse edge joining `s` and `t`, which is added
   * first when there is none.
   */
  function CoarseStep(cg: Graph, cw: map<nat, nat>, s: nat, t: nat, w: nat): (r: (Graph, map<nat, nat>))
  {
    match FindEdge(cg.edgeIds, cg.ends, s, t)
    case Some(e) => (cg, cw[e := Get(cw, e) + w])
    case None => (WithEdge(cg, s, t), cw[|cg.edgeIds| := Get(cw, |cg.edgeIds|) + w])
  }

  /** The coarse graph with a new edge joining `s` and `t`, numbered after the existing ones. */
  function WithEdge(cg: Graph, s: nat, t: nat): Graph
  {
    var e := |cg.edgeIds|;
    cg.(edgeIds := cg.edgeIds + [e], ends := cg.ends[e := (s, t)], incident := Attach(Attach(cg.incident, s, e), t, e))
  }

  /** A new edge between nodes of `nodes` keeps every edge within `nodes`. */
  lemma WithEdgeWithin(cg: Graph, nodes: seq<nat>, s: nat, t: nat)
    requires EdgesWithin(cg, nodes) && cg.edgeIds == Range(|cg.edgeIds|) && s in nodes && t in nodes
    ensures EdgesWithin(WithEdge(cg, s, t), nodes)
  {
  }

  /** The new edge is listed only at its two ends. */
  lemma WithEdgeIncident(cg: Graph, s: nat, t: nat)
    requires IncidentSound(cg) && cg.edgeIds == Range(|cg.edgeIds|)
    ensures IncidentSound(WithEdge(cg, s, t))
  {
    var e := |cg.edgeIds|;
    var r := WithEdge(cg, s, t);
    assert e !in cg.edgeIds;
    forall n, f | n in r.incident && f in r.incident[n]
      ensures f in r.edgeIds && f in r.ends && (r.ends[f].0 == n || r.ends[f].1 == n)
    {
      if f != e {
        assert n in cg.incident && f in cg.incident[n];
      }
    }
  }

  /** A new edge between two nodes not yet joined adds no parallel edge. */
  lemma WithEdgeNoParallel(cg: Graph, s: nat, t: nat)
    requires (forall e :: e in cg.edgeIds ==> e in cg.ends) && NoParallel(cg) && cg.edgeIds == Range(|cg.edgeIds|)
    requires forall e :: e in cg.edgeIds ==> !Joins(cg.ends, e, s, t)
    ensures NoParallel(WithEdge(cg, s, t))
  {
    var e := |cg.edgeIds|;
    var r := WithEdge(cg, s, t);
    assert e !in cg.edgeIds;
    forall f, g | f in r.edgeIds && g in r.edgeIds && f != g ensures !Joins(r.ends, g, r.ends[f].0, r.ends[f].1) {
      if f == e {
        assert g in cg.edgeIds;
      } else if g == e {
        assert f in cg.edgeIds;
      } else {
        assert f in cg.edgeIds && g in cg.edgeIds;
      }
    }
  }

  /** Adding an edge between two communities not yet joined keeps the coarse graph's shape. */
  lemma WithEdgeKeeps(cg: Graph, nodes: seq<nat>, s: nat, t: nat)
    requires CoarseShape(cg, nodes) && s in nodes && t in nodes
    requires forall e :: e in cg.edgeIds ==> !Joins(cg.ends, e, s, t)
    ensures CoarseShape(WithEdge(cg, s, t), nodes)
  {
    var r := WithEdge(cg, s, t);
    assert r.edgeIds == Range(|r.edgeIds|);
    WithEdgeWithin(cg, nodes, s, t);
    WithEdgeIncident(cg, s, t);
    WithEdgeNoParallel(cg, s, t);
  }

  predicate WeightsOn(cg: Graph, cw: map<nat, nat>)
  {
    forall e :: e in cw ==> e in cg.edgeIds
  }

  /** Weight added to a coarse edge that already exists adds to the total. */
  lemma BumpSum(ids: seq<nat>, cw: map<nat, nat>, e: nat, w: nat)
    requires ids == Range(|ids|) && e in ids && (forall k :: k in cw ==> k in ids)
    ensures forall k :: k in cw[e := Get(cw, e) + w] ==> k in ids
    ensures SumWeights(ids, cw[e := Get(cw, e) + w]) == SumWeights(ids, cw) + w
  {
    assert NoDups(ids);
    SumWeightsBump(ids, cw, e, w);
  }

  /** The weight of a new coarse edge adds to the total. */
  lemma NewSum(ids: seq<nat>, cw: map<nat, nat>, w: nat)
    requires ids == Range(|ids|) && (forall k :: k in cw ==> k in ids)
    ensures var e := |ids|; var r := cw[e := Get(cw, e) + w];
      (forall k :: k in r ==> k in ids + [e]) && SumWeights(ids + [e], r) == SumWeights(ids, cw) + w
  {
    var e := |ids|;
    var all := ids + [e];
    var r := cw[e := Get(cw, e) + w];
    assert e !in ids;
    assert e !in cw;
    SumWeightsFrame(ids, cw, e, Get(cw, e) + w);
    assert all[..|all| - 1] == ids;
  }

  /** A step keeps the coarse graph's shape. */
  lemma CoarseStepShape(cg: Graph, cw: map<nat, nat>, nodes: seq<nat>, s: nat, t: nat, w: nat)
    requires CoarseShape(cg, nodes) && s in nodes && t in nodes
    ensures CoarseShape(CoarseStep(cg, cw, s, t, w).0, nodes)
  {
    if FindEdge(cg.edgeIds, cg.ends, s, t).None? {
      WithEdgeKeeps(cg, nodes, s, t);
    }
  }

  /** A step adds the fine edge's weight to the coarse total. */
  lemma CoarseStepSum(cg: Graph, cw: map<nat, nat>, s: nat, t: nat, w: nat)
    requires cg.edgeIds == Range(|cg.edgeIds|) && WeightsOn(cg, cw)
    ensures WeightsOn(CoarseStep(cg, cw, s, t, w).0, CoarseStep(cg, cw, s, t, w).1)
    ensures SumWeights(CoarseStep(cg, cw, s, t, w).0.edgeIds, CoarseStep(cg, cw, s, t, w).1) == SumWeights(cg.edgeIds, cw) + w
  {
    var found := FindEdge(cg.edgeIds, cg.ends, s, t);
    CoarseStepCases(cg, cw, s, t, w);
    var r := CoarseStep(cg, cw, s, t, w);
    if found.Some? {
      var f := found.value;
      BumpSum(cg.edgeIds, cw, f, w);
      assert r.0.edgeIds == cg.edgeIds && r.1 == cw[f := Get(cw, f) + w];
    } else {
      var e := |cg.edgeIds|;
      NewSum(cg.edgeIds, cw, w);
      assert r.0.edgeIds == cg.edgeIds + [e] && r.1 == cw[e := Get(cw, e) + w];
    }
  }

  /** The community of each end of edge `e`. */
  predicate EndsAssigned(g: Graph, communities: map<nat, nat>, es: seq<nat>)
  {
    forall e :: e in es ==> e in g.ends && g.ends[e].0 in communities && g.ends[e].1 in communities
  }

  /** The coarse graph and weights after visiting the fine edges `es`. */
  function CoarseEdges(g: Graph, weights: map<nat, nat>, communities: map<nat, nat>, nodes: seq<nat>, es: seq<nat>): (r: (Graph, map<nat, nat>))
    requires EndsAssigned(g, communities, es)
  {
    if es == [] then (Graph(nodes, {}, [], map[], map[]), map[])
    else
      var k := |es| - 1;
      var e := es[k];
      assert e in es;
      assert EndsAssigned(g, communities, es[..k]);
      var prev := CoarseEdges(g, weights, communities, nodes, es[..k]);
      CoarseStep(prev.0, prev.1, communities[g.ends[e].0], communities[g.ends[e].1], Get(weights, e))
  }

  /** The coarse graph has the given nodes, no tails, and at most one coarse edge per fine edge visited. */
  lemma {:induction false} CoarseEdgesCount(g: Graph, weights: map<nat, nat>, communities: map<nat, nat>, nodes: seq<nat>, es: seq<nat>)
    requires EndsAssigned(g, communities, es)
    ensures CoarseEdges(g, weights, communities, nodes, es).0.nodeIds == nodes
    ensures CoarseEdges(g, weights, communities, nodes, es).0.tails == {}
    ensures |CoarseEdges(g, weights, communities, nodes, es).0.edgeIds| <= |es|
    decreases |es|
  {
    if es != [] {
      var k := |es| - 1;
      assert es[k] in es;
      assert EndsAssigned(g, communities, es[..k]);
      CoarseEdgesCount(g, weights, communities, nodes, es[..k]);
      var prev := CoarseEdges(g, weights, communities, nodes, es[..k]);
      var s, t := communities[g.ends[es[k]].0], communities[g.ends[es[k]].1];
      CoarseStepCases(prev.0, prev.1, s, t, Get(weights, es[k]));
    }
  }

  /** Visiting edge `k` of `es` is one CoarseStep on the coarse graph of the edges before it. */
  lemma CoarseEdgesNext(g: Graph, weights: map<nat, nat>, communities: map<nat, nat>, nodes: seq<nat>, es: seq<nat>, k: nat)
    requires EndsAssigned(g, communities, es) && k < |es|
    ensures es[k] in g.ends && g.ends[es[k]].0 in communities && g.ends[es[k]].1 in communities
    ensures EndsAssigned(g, communities, es[..k]) && EndsAssigned(g, communities, es[..k + 1])
    ensures CoarseEdges(g, weights, communities, nodes, es[..k + 1]) ==
      CoarseStep(CoarseEdges(g, weights, communities, nodes, es[..k]).0, CoarseEdges(g, weights, communities, nodes, es[..k]).1,
                 communities[g.ends[es[k]].0], communities[g.ends[es[k]].1], Get(weights, es[k]))
  {
    assert es[k] in es;
    assert es[..k + 1][..k] == es[..k] && es[..k + 1][k] == es[k];
  }

  /** The ends of the edges `es` have communities among `nodes`. */
  predicate EndsIn(g: Graph, communities: map<nat, nat>, es: seq<nat>, nodes: seq<nat>)
    requires EndsAssigned(g, communities, es)
  {
    forall e :: e in es ==> communities[g.ends[e].0] in nodes && communities[g.ends[e].1] in nodes
  }

  /** Coarsening keeps the shape and the total edge weight. */
  lemma {:induction false} CoarseEdgesKeep(g: Graph, weights: map<nat, nat>, communities: map<nat, nat>, nodes: seq<nat>, es: seq<nat>)
    requires NoDups(nodes) && EndsAssigned(g, communities, es) && EndsIn(g, communities, es, nodes)
    ensures CoarseShape(CoarseEdges(g, weights, communities, nodes, es).0, nodes)
    ensures WeightsOn(CoarseEdges(g, weights, communities, nodes, es).0, CoarseEdges(g, weights, communities, nodes, es).1)
    ensures SumWeights(CoarseEdges(g, weights, communities, nodes, es).0.edgeIds, CoarseEdges(g, weights, communities, nodes, es).1) ==
      SumWeights(es, weights)
    decreases |es|
  {
    if es == [] {
      assert Range(0) == [];
    } else {
      var k := |es| - 1;
      var e := es[k];
      assert e in es;
      assert EndsAssigned(g, communities, es[..k]);
      assert EndsIn(g, communities, es[..k], nodes);
      CoarseEdgesKeep(g, weights, communities, nodes, es[..k]);
      var prev := CoarseEdges(g, weights, communities, nodes, es[..k]);
      var s, t := communities[g.ends[e].0], communities[g.ends[e].1];
      CoarseStepShape(prev.0, prev.1, nodes, s, t, Get(weights, e));
      CoarseStepSum(prev.0, prev.1, s, t, Get(weights, e));
    }
  }

  /** Fine edge `e` runs between communities `s` and `t`, either way round. */
  predicate Links(g: Graph, communities: map<nat, nat>, e: nat, s: nat, t: nat)
    requires e in g.ends && g.ends[e].0 in communities && g.ends[e].1 in communities
  {
    var a, b := communities[g.ends[e].0], communities[g.ends[e].1];
    (a == s && b == t) || (a == t && b == s)
  }

  /** The fine edges of `es` that run between communities `s` and `t`, in order. */
  function EdgesBetween(g: Graph, communities: map<nat, nat>, es: seq<nat>, s: nat, t: nat): seq<nat>
    requires EndsAssigned(g, communities, es)
  {
    if es == [] then []
    else
      var k := |es| - 1;
      assert es[k] in es;
      var prev := EdgesBetween(g, communities, es[..k], s, t);
      if Links(g, communities, es[k], s, t) then prev + [es[k]] else prev
  }

  /** The edges between `s` and `t` are exactly the fine edges of `es` that run between them. */
  lemma {:induction false} EdgesBetweenMembers(g: Graph, communities: map<nat, nat>, es: seq<nat>, s: nat, t: nat)
    requires EndsAssigned(g, communities, es)
    ensures forall x :: x in EdgesBetween(g, communities, es, s, t) <==> x in es && Links(g, communities, x, s, t)
    decreases |es|
  {
    if es != [] {
      var k := |es| - 1;
      assert es[k] in es;
      assert forall x :: x in es <==> x in es[..k] || x == es[k];
      EdgesBetweenMembers(g, communities, es[..k], s, t);
    }
  }

  /** The fine edges between `s` and `t` are those between `t` and `s`. */
  lemma {:induction false} EdgesBetweenSymmetric(g: Graph, communities: map<nat, nat>, es: seq<nat>, s: nat, t: nat)
    requires EndsAssigned(g, communities, es)
    ensures EdgesBetween(g, communities, es, s, t) == EdgesBetween(g, communities, es, t, s)
    decreases |es|
  {
    if es != [] {
      var k := |es| - 1;
      assert es[k] in es;
      assert EndsAssigned(g, communities, es[..k]);
      EdgesBetweenSymmetric(g, communities, es[..k], s, t);
    }
  }

  /** One more fine edge joins the edges between `s` and `t` exactly when it runs between them. */
  lemma EdgesBetweenLast(g: Graph, communities: map<nat, nat>, prefix: seq<nat>, e: nat, s: nat, t: nat)
    requires EndsAssigned(g, communities, prefix) && e in g.ends && g.ends[e].0 in communities && g.ends[e].1 in communities
    ensures EndsAssigned(g, communities, prefix + [e])
    ensures EdgesBetween(g, communities, prefix + [e], s, t) ==
      EdgesBetween(g, communities, prefix, s, t) + (if Links(g, communities, e, s, t) then [e] else [])
  {
    var es := prefix + [e];
    assert es[..|es| - 1] == prefix && es[|es| - 1] == e;
  }

  lemma SumWeightsSnoc(es: seq<nat>, e: nat, weights: map<nat, nat>)
    ensures SumWeights(es + [e], weights) == SumWeights(es, weights) + Get(weights, e)
  {
    assert (es + [e])[..|es|] == es;
  }

  /** Every fine edge of `es` runs between two communities that a coarse edge joins. */
  ghost predicate Covered(g: Graph, communities: map<nat, nat>, es: seq<nat>, cg: Graph)
    requires EndsAssigned(g, communities, es)
  {
    forall x :: x in es ==> FindEdge(cg.edgeIds, cg.ends, communities[g.ends[x].0], communities[g.ends[x].1]).Some?
  }

  /** Every coarse edge joins two communities some fine edge of `es` runs between, and carries their summed weight. */
  ghost predicate Carried(g: Graph, communities: map<nat, nat>, weights: map<nat, nat>, es: seq<nat>, cg: Graph, cw: map<nat, nat>)
    requires EndsAssigned(g, communities, es)
  {
    forall ce :: ce in cg.edgeIds ==>
      ce in cg.ends &&
      EdgesBetween(g, communities, es, cg.ends[ce].0, cg.ends[ce].1) != [] &&
      Get(cw, ce) == SumWeights(EdgesBetween(g, communities, es, cg.ends[ce].0, cg.ends[ce].1), weights)
  }

  /** The two outcomes of a step: the weight goes to the coarse edge found, or to a new one. */
  lemma CoarseStepCases(cg: Graph, cw: map<nat, nat>, s: nat, t: nat, w: nat)
    ensures FindEdge(cg.edgeIds, cg.ends, s, t).Some? ==>
      var f := FindEdge(cg.edgeIds, cg.ends, s, t).value; CoarseStep(cg, cw, s, t, w) == (cg, cw[f := Get(cw, f) + w])
    ensures FindEdge(cg.edgeIds, cg.ends, s, t).None? ==>
      CoarseStep(cg, cw, s, t, w) == (WithEdge(cg, s, t), cw[|cg.edgeIds| := Get(cw, |cg.edgeIds|) + w])
  {
  }

  /** A fine edge between communities already joined keeps every fine edge covered. */
  lemma CoveredStepFound(g: Graph, communities: map<nat, nat>, prefix: seq<nat>, e: nat, cg: Graph, s: nat, t: nat)
    requires EndsAssigned(g, communities, prefix) && e in g.ends && g.ends[e].0 in communities && g.ends[e].1 in communities
    requires s == communities[g.ends[e].0] && t == communities[g.ends[e].1]
    requires Covered(g, communities, prefix, cg) && FindEdge(cg.edgeIds, cg.ends, s, t).Some?
    ensures EndsAssigned(g, communities, prefix + [e])
    ensures Covered(g, communities, prefix + [e], cg)
  {
    var es := prefix + [e];
    forall x | x in es ensures FindEdge(cg.edgeIds, cg.ends, communities[g.ends[x].0], communities[g.ends[x].1]).Some? {
      if x != e {
        assert x in prefix;
      }
    }
  }

  /** A fine edge between communities already joined by coarse edge `f` adds its weight to `f` only. */
  lemma CarriedStepFound(g: Graph, weights: map<nat, nat>, communities: map<nat, nat>,
                         prefix: seq<nat>, e: nat, cg: Graph, cw: map<nat, nat>, s: nat, t: nat, f: nat)
    requires EndsAssigned(g, communities, prefix) && e in g.ends && g.ends[e].0 in communities && g.ends[e].1 in communities
    requires s == communities[g.ends[e].0] && t == communities[g.ends[e].1]
    requires (forall ce :: ce in cg.edgeIds ==> ce in cg.ends) && NoParallel(cg)
    requires Carried(g, communities, weights, prefix, cg, cw)
    requires f in cg.edgeIds && Joins(cg.ends, f, s, t)
    ensures EndsAssigned(g, communities, prefix + [e])
    ensures Carried(g, communities, weights, prefix + [e], cg, cw[f := Get(cw, f) + Get(weights, e)])
  {
    EdgesBetweenLast(g, communities, prefix, e, s, t);
    var es := prefix + [e];
    var cw' := cw[f := Get(cw, f) + Get(weights, e)];
    forall ce | ce in cg.edgeIds
      ensures ce in cg.ends && EdgesBetween(g, communities, es, cg.ends[ce].0, cg.ends[ce].1) != [] &&
        Get(cw', ce) == SumWeights(EdgesBetween(g, communities, es, cg.ends[ce].0, cg.ends[ce].1), weights)
    {
      var a, b := cg.ends[ce].0, cg.ends[ce].1;
      EdgesBetweenLast(g, communities, prefix, e, a, b);
      if ce == f {
        assert Links(g, communities, e, a, b);
        SumWeightsSnoc(EdgesBetween(g, communities, prefix, a, b), e, weights);
      } else {
        assert !Joins(cg.ends, f, a, b);
      }
    }
  }

  /** A new coarse edge for the fine edge's communities keeps every fine edge covered. */
  lemma CoveredStepNew(g: Graph, communities: map<nat, nat>, prefix: seq<nat>, e: nat, cg: Graph, s: nat, t: nat)
    requires EndsAssigned(g, communities, prefix) && e in g.ends && g.ends[e].0 in communities && g.ends[e].1 in communities
    requires s == communities[g.ends[e].0] && t == communities[g.ends[e].1]
    requires cg.edgeIds == Range(|cg.edgeIds|) && Covered(g, communities, prefix, cg)
    ensures EndsAssigned(g, communities, prefix + [e])
    ensures Covered(g, communities, prefix + [e], WithEdge(cg, s, t))
  {
    var es := prefix + [e];
    var n := |cg.edgeIds|;
    var cg' := WithEdge(cg, s, t);
    assert n !in cg.edgeIds;
    assert n in cg'.edgeIds && Joins(cg'.ends, n, s, t);
    forall x | x in es ensures FindEdge(cg'.edgeIds, cg'.ends, communities[g.ends[x].0], communities[g.ends[x].1]).Some? {
      if x != e {
        assert x in prefix;
        var f := FindEdge(cg.edgeIds, cg.ends, communities[g.ends[x].0], communities[g.ends[x].1]).value;
        assert f in cg'.edgeIds && cg'.ends[f] == cg.ends[f];
      }
    }
  }

  /** Before a new coarse edge is made for `s` and `t`, no fine edge runs between them. */
  lemma NoneBetweenYet(g: Graph, communities: map<nat, nat>, prefix: seq<nat>, cg: Graph, s: nat, t: nat)
    requires EndsAssigned(g, communities, prefix) && Covered(g, communities, prefix, cg)
    requires FindEdge(cg.edgeIds, cg.ends, s, t).None?
    ensures EdgesBetween(g, communities, prefix, s, t) == []
  {
    EdgesBetweenMembers(g, communities, prefix, s, t);
  }

  /** A coarse edge that does not join `s` and `t` gains no fine edge from one between them. */
  lemma OtherPairUnchanged(g: Graph, communities: map<nat, nat>, prefix: seq<nat>, e: nat, cg: Graph, s: nat, t: nat, ce: nat)
    requires EndsAssigned(g, communities, prefix) && e in g.ends && g.ends[e].0 in communities && g.ends[e].1 in communities
    requires s == communities[g.ends[e].0] && t == communities[g.ends[e].1]
    requires ce in cg.ends && !Joins(cg.ends, ce, s, t)
    ensures EndsAssigned(g, communities, prefix + [e])
    ensures EdgesBetween(g, communities, prefix + [e], cg.ends[ce].0, cg.ends[ce].1) ==
      EdgesBetween(g, communities, prefix, cg.ends[ce].0, cg.ends[ce].1)
  {
    EdgesBetweenLast(g, communities, prefix, e, cg.ends[ce].0, cg.ends[ce].1);
  }

  /** A fine edge between communities not yet joined creates their coarse edge with its weight; no other edge changes. */
  lemma CarriedStepNew(g: Graph, weights: map<nat, nat>, communities: map<nat, nat>,
                       prefix: seq<nat>, e: nat, cg: Graph, cw: map<nat, nat>, s: nat, t: nat)
    requires EndsAssigned(g, communities, prefix) && e in g.ends && g.ends[e].0 in communities && g.ends[e].1 in communities
    requires s == communities[g.ends[e].0] && t == communities[g.ends[e].1]
    requires cg.edgeIds == Range(|cg.edgeIds|) && WeightsOn(cg, cw) && Carried(g, communities, weights, prefix, cg, cw)
    requires forall ce :: ce in cg.edgeIds ==> !Joins(cg.ends, ce, s, t)
    requires EdgesBetween(g, communities, prefix, s, t) == []
    ensures EndsAssigned(g, communities, prefix + [e])
    ensures Carried(g, communities, weights, prefix + [e],
                    WithEdge(cg, s, t), cw[|cg.edgeIds| := Get(cw, |cg.edgeIds|) + Get(weights, e)])
  {
    EdgesBetweenLast(g, communities, prefix, e, s, t);
    var es := prefix + [e];
    var n := |cg.edgeIds|;
    var cg' := WithEdge(cg, s, t);
    var cw' := cw[n := Get(cw, n) + Get(weights, e)];
    assert n !in cg.edgeIds && n !in cw;
    forall ce | ce in cg'.edgeIds
      ensures ce in cg'.ends && EdgesBetween(g, communities, es, cg'.ends[ce].0, cg'.ends[ce].1) != [] &&
        Get(cw', ce) == SumWeights(EdgesBetween(g, communities, es, cg'.ends[ce].0, cg'.ends[ce].1), weights)
    {
      if ce == n {
        assert cg'.ends[ce] == (s, t);
        assert Links(g, communities, e, s, t);
        SumWeightsSnoc([], e, weights);
      } else {
        assert ce in cg.edgeIds && cg'.ends[ce] == cg.ends[ce];
        OtherPairUnchanged(g, communities, prefix, e, cg, s, t, ce);
      }
    }
  }

  /** The coarse edge loop over `es` joins the communities of every fine edge. */
  lemma {:induction false} CoarseEdgesCovered(g: Graph, weights: map<nat, nat>, communities: map<nat, nat>, nodes: seq<nat>, es: seq<nat>)
    requires NoDups(nodes) && EndsAssigned(g, communities, es) && EndsIn(g, communities, es, nodes)
    ensures Covered(g, communities, es, CoarseEdges(g, weights, communities, nodes, es).0)
    decreases |es|
  {
    if es != [] {
      var k := |es| - 1;
      var e := es[k];
      CoarseEdgesNext(g, weights, communities, nodes, es, k);
      assert es[..k + 1] == es && es[..k] + [e] == es;
      assert EndsIn(g, communities, es[..k], nodes);
      CoarseEdgesCovered(g, weights, communities, nodes, es[..k]);
      CoarseEdgesKeep(g, weights, communities, nodes, es[..k]);
      var prev := CoarseEdges(g, weights, communities, nodes, es[..k]);
      var s, t := communities[g.ends[e].0], communities[g.ends[e].1];
      CoarseStepCases(prev.0, prev.1, s, t, Get(weights, e));
      if FindEdge(prev.0.edgeIds, prev.0.ends, s, t).Some? {
        CoveredStepFound(g, communities, es[..k], e, prev.0, s, t);
      } else {
        CoveredStepNew(g, communities, es[..k], e, prev.0, s, t);
      }
    }
  }

  /** One step keeps every coarse edge carrying the weight of the fine edges between its ends. */
  lemma CarriedStep(g: Graph, weights: map<nat, nat>, communities: map<nat, nat>,
                    prefix: seq<nat>, e: nat, cg: Graph, cw: map<nat, nat>, nodes: seq<nat>)
    requires EndsAssigned(g, communities, prefix) && e in g.ends && g.ends[e].0 in communities && g.ends[e].1 in communities
    requires CoarseShape(cg, nodes) && WeightsOn(cg, cw)
    requires Covered(g, communities, prefix, cg) && Carried(g, communities, weights, prefix, cg, cw)
    ensures EndsAssigned(g, communities, prefix + [e])
    ensures var r := CoarseStep(cg, cw, communities[g.ends[e].0], communities[g.ends[e].1], Get(weights, e));
      Carried(g, communities, weights, prefix + [e], r.0, r.1)
  {
    var s, t := communities[g.ends[e].0], communities[g.ends[e].1];
    CoarseStepCases(cg, cw, s, t, Get(weights, e));
    var found := FindEdge(cg.edgeIds, cg.ends, s, t);
    if found.Some? {
      CarriedStepFound(g, weights, communities, prefix, e, cg, cw, s, t, found.value);
    } else {
      NoneBetweenYet(g, communities, prefix, cg, s, t);
      CarriedStepNew(g, weights, communities, prefix, e, cg, cw, s, t);
    }
  }

  /** Every coarse edge carries the summed weight of the fine edges between its ends. */
  lemma {:induction false} CoarseEdgesCarried(g: Graph, weights: map<nat, nat>, communities: map<nat, nat>, nodes: seq<nat>, es: seq<nat>)
    requires NoDups(nodes) && EndsAssigned(g, communities, es) && EndsIn(g, communities, es, nodes)
    ensures Carried(g, communities, weights, es,
                    CoarseEdges(g, weights, communities, nodes, es).0, CoarseEdges(g, weights, communities, nodes, es).1)
    decreases |es|
  {
    if es != [] {
      var k := |es| - 1;
      var e := es[k];
      CoarseEdgesNext(g, weights, communities, nodes, es, k);
      assert es[..k + 1] == es && es[..k] + [e] == es;
      assert EndsIn(g, communities, es[..k], nodes);
      CoarseEdgesCarried(g, weights, communities, nodes, es[..k]);
      CoarseEdgesKeep(g, weights, communities, nodes, es[..k]);
      CoarseEdgesCovered(g, weights, communities, nodes, es[..k]);
      var prev := CoarseEdges(g, weights, communities, nodes, es[..k]);
      CarriedStep(g, weights, communities, es[..k], e, prev.0, prev.1, nodes);
    }
  }

  /**
   * coarsen: one node per distinct community of the non-tail nodes, one
   * edge per pair of communities some fine edge joins, carrying the summed
   * weight of those fine edges.
   */
  function Coarsened(g: Graph, weights: map<nat, nat>, communities: map<nat, nat>): (r: (Graph, map<nat, nat>))
    requires Assigned(g.nodeIds, g.tails, communities) && EndsAssigned(g, communities, g.edgeIds)
    ensures r.0.nodeIds == FirstAppearances(g.nodeIds, g.tails, communities) && r.0.tails == {}
    ensures |r.0.edgeIds| <= |g.edgeIds|
  {
    CoarseEdgesCount(g, weights, communities, FirstAppearances(g.nodeIds, g.tails, communities), g.edgeIds);
    CoarseEdges(g, weights, communities, FirstAppearances(g.nodeIds, g.tails, communities), g.edgeIds)
  }

  /**
   * When no edge touches a tail, the coarse graph is well formed, has one
   * node per distinct community and no tails, and its edge weights sum to
   * the fine edge weights.
   */
  lemma CoarsenedMeaning(g: Graph, weights: map<nat, nat>, communities: map<nat, nat>)
    requires WellFormed(g) && EdgesAvoidTails(g) && Assigned(g.nodeIds, g.tails, communities)
    ensures EndsAssigned(g, communities, g.edgeIds)
    ensures var r := Coarsened(g, weights, communities);
      WellFormed(r.0) && EdgesAvoidTails(r.0) && r.0.tails == {} && NoParallel(r.0) &&
      (forall c :: c in r.0.nodeIds <==> exists n :: n in g.nodeIds && n !in g.tails && communities[n] == c) &&
      SumWeights(r.0.edgeIds, r.1) == SumWeights(g.edgeIds, weights)
  {
    var nodes := FirstAppearances(g.nodeIds, g.tails, communities);
    FirstAppearancesMembers(g.nodeIds, g.tails, communities);
    forall e | e in g.edgeIds ensures communities[g.ends[e].0] in nodes && communities[g.ends[e].1] in nodes {
    }
    CoarseEdgesKeep(g, weights, communities, nodes, g.edgeIds);
    CoarseShapeWellFormed(Coarsened(g, weights, communities).0, nodes);
  }

  /** A covered fine edge between `s` and `t` means a coarse edge joins them. */
  lemma CoveredPairs(g: Graph, communities: map<nat, nat>, es: seq<nat>, cg: Graph)
    requires EndsAssigned(g, communities, es) && Covered(g, communities, es, cg)
    ensures forall s, t :: EdgesBetween(g, communities, es, s, t) != [] ==> FindEdge(cg.edgeIds, cg.ends, s, t).Some?
  {
    forall s, t | EdgesBetween(g, communities, es, s, t) != [] ensures FindEdge(cg.edgeIds, cg.ends, s, t).Some? {
      EdgesBetweenMembers(g, communities, es, s, t);
      var x := EdgesBetween(g, communities, es, s, t)[0];
      assert x in EdgesBetween(g, communities, es, s, t);
      var f := FindEdge(cg.edgeIds, cg.ends, communities[g.ends[x].0], communities[g.ends[x].1]).value;
      assert Joins(cg.ends, f, s, t);
    }
  }

  /** A coarse edge joining `s` and `t` means some fine edge runs between them. */
  lemma CarriedPairs(g: Graph, communities: map<nat, nat>, weights: map<nat, nat>, es: seq<nat>, cg: Graph, cw: map<nat, nat>)
    requires EndsAssigned(g, communities, es) && Carried(g, communities, weights, es, cg, cw)
    ensures forall s, t :: FindEdge(cg.edgeIds, cg.ends, s, t).Some? ==> EdgesBetween(g, communities, es, s, t) != []
  {
    forall s, t | FindEdge(cg.edgeIds, cg.ends, s, t).Some? ensures EdgesBetween(g, communities, es, s, t) != [] {
      EdgesBetweenSymmetric(g, communities, es, s, t);
    }
  }

  /**
   * The coarse edges: two communities are joined by a coarse edge exactly
   * when some fine edge runs between them (and, having no parallels, by
   * one edge only), and each coarse edge carries the summed weight of the
   * fine edges between its ends.
   */
  lemma CoarsenedPairs(g: Graph, weights: map<nat, nat>, communities: map<nat, nat>)
    requires WellFormed(g) && EdgesAvoidTails(g) && Assigned(g.nodeIds, g.tails, communities)
    ensures EndsAssigned(g, communities, g.edgeIds)
    ensures var r := Coarsened(g, weights, communities);
      (forall s, t :: FindEdge(r.0.edgeIds, r.0.ends, s, t).Some? <==> EdgesBetween(g, communities, g.edgeIds, s, t) != []) &&
      (forall ce :: ce in r.0.edgeIds ==>
        ce in r.0.ends && Get(r.1, ce) == SumWeights(EdgesBetween(g, communities, g.edgeIds, r.0.ends[ce].0, r.0.ends[ce].1), weights))
  {
    var nodes := FirstAppearances(g.nodeIds, g.tails, communities);
    FirstAppearancesMembers(g.nodeIds, g.tails, communities);
    forall e | e in g.edgeIds ensures communities[g.ends[e].0] in nodes && communities[g.ends[e].1] in nodes {
    }
    CoarseEdgesCovered(g, weights, communities, nodes, g.edgeIds);
    CoarseEdgesCarried(g, weights, communities, nodes, g.edgeIds);
    var r := Coarsened(g, weights, communities);
    CoveredPairs(g, communities, g.edgeIds, r.0);
    CarriedPairs(g, communities, weights, g.edgeIds, r.0, r.1);
  }
}
