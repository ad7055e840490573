/**
 * One local move of the Louvain method: the weight a node sends to each
 * neighbouring community, and the community it moves to.
 */
module LouvainMoves {
  import opened LouvainGraph
  import Collections

  // ---------------------------------------------------------------------
  // Neighbour community weights

  /** The edge `e` of node `n` counts for a neighbour community: it is no loop and its far end is a non-tail node with a community. */
  predicate Counts(g: Graph, communities: map<nat, nat>, n: nat, e: nat)
  {
    e in g.ends && Opposite(g, e, n) != n && Opposite(g, e, n) !in g.tails && Opposite(g, e, n) in communities
  }

  /** The edge `e` of node `n` counts for community `c`. */
  predicate LeadsTo(g: Graph, communities: map<nat, nat>, n: nat, e: nat, c: nat)
  {
    Counts(g, communities, n, e) && communities[Opposite(g, e, n)] == c
  }

  /**
   * neighbourCommunityWeights after one more edge `e` of node `n`: a loop
   * edge or a tail neighbour is passed over; any other edge adds its weight
   * to the entry of the neighbour's community.
   */
  function AddEdge(g: Graph, weights: map<nat, nat>, communities: map<nat, nat>, n: nat, prev: map<nat, nat>, e: nat): (r: map<nat, nat>)
    ensures forall c {:trigger Get(r, c)} {:trigger c in r} ::
      (c in r <==> c in prev || LeadsTo(g, communities, n, e, c)) &&
      Get(r, c) == Get(prev, c) + (if LeadsTo(g, communities, n, e, c) then Get(weights, e) else 0)
  {
    if !Counts(g, communities, n, e) then prev
    else prev[communities[Opposite(g, e, n)] := Get(prev, communities[Opposite(g, e, n)]) + Get(weights, e)]
  }

  /** neighbourCommunityWeights after visiting the edges `es` of node `n`. */
  function NeighbourWeights(g: Graph, weights: map<nat, nat>, communities: map<nat, nat>, n: nat, es: seq<nat>): map<nat, nat>
  {
    if es == [] then map[]
    else AddEdge(g, weights, communities, n, NeighbourWeights(g, weights, communities, n, es[..|es| - 1]), es[|es| - 1])
  }

  /** The edges of `es` that count for community `c`. */
  function EdgesTo(g: Graph, communities: map<nat, nat>, n: nat, es: seq<nat>, c: nat): (r: seq<nat>)
    ensures forall e :: e in r ==> e in es
  {
    if es == [] then []
    else
      var k := |es| - 1;
      EdgesTo(g, communities, n, es[..k], c) + (if LeadsTo(g, communities, n, es[k], c) then [es[k]] else [])
  }

  /**
   * The candidates are exactly the communities some counted edge leads to,
   * and each one's weight is the summed weight of the edges leading to it.
   */
  lemma {:induction false} NeighbourWeightsMeaning(g: Graph, weights: map<nat, nat>, communities: map<nat, nat>, n: nat, es: seq<nat>)
    ensures forall c :: c in NeighbourWeights(g, weights, communities, n, es) <==> EdgesTo(g, communities, n, es, c) != []
    ensures forall c :: Get(NeighbourWeights(g, weights, communities, n, es), c) == SumWeights(EdgesTo(g, communities, n, es, c), weights)
    decreases |es|
  {
    if es != [] {
      var k := |es| - 1;
      var prefix := es[..k];
      NeighbourWeightsMeaning(g, weights, communities, n, prefix);
      forall c ensures (c in NeighbourWeights(g, weights, communities, n, es) <==> EdgesTo(g, communities, n, es, c) != []) &&
                       Get(NeighbourWeights(g, weights, communities, n, es), c) == SumWeights(EdgesTo(g, communities, n, es, c), weights)
      {
        NeighbourKeysStep(g, weights, communities, n, es, c);
        NeighbourSumStep(g, weights, communities, n, es, c);
      }
    }
  }

  /** The last edge of `es` adds `c` as a candidate exactly when it leads there. */
  lemma NeighbourKeysStep(g: Graph, weights: map<nat, nat>, communities: map<nat, nat>, n: nat, es: seq<nat>, c: nat)
    requires es != []
    requires c in NeighbourWeights(g, weights, communities, n, es[..|es| - 1]) <==> EdgesTo(g, communities, n, es[..|es| - 1], c) != []
    ensures c in NeighbourWeights(g, weights, communities, n, es) <==> EdgesTo(g, communities, n, es, c) != []
  {
    var k := |es| - 1;
    var prev := NeighbourWeights(g, weights, communities, n, es[..k]);
    assert NeighbourWeights(g, weights, communities, n, es) == AddEdge(g, weights, communities, n, prev, es[k]);
  }

  /** The last edge of `es` adds its weight to the entry of `c` exactly when it leads there. */
  lemma NeighbourSumStep(g: Graph, weights: map<nat, nat>, communities: map<nat, nat>, n: nat, es: seq<nat>, c: nat)
    requires es != []
    requires Get(NeighbourWeights(g, weights, communities, n, es[..|es| - 1]), c) ==
             SumWeights(EdgesTo(g, communities, n, es[..|es| - 1], c), weights)
    ensures Get(NeighbourWeights(g, weights, communities, n, es), c) == SumWeights(EdgesTo(g, communities, n, es, c), weights)
  {
    var k := |es| - 1;
    var e := es[k];
    var prev := NeighbourWeights(g, weights, communities, n, es[..k]);
    var before := EdgesTo(g, communities, n, es[..k], c);
    var hit := LeadsTo(g, communities, n, e, c);
    var extra := if hit then [e] else [];
    assert NeighbourWeights(g, weights, communities, n, es) == AddEdge(g, weights, communities, n, prev, e);
    assert EdgesTo(g, communities, n, es, c) == before + extra;
    assert SumWeights(extra, weights) == if hit then Get(weights, e) else 0 by {
      if hit { assert extra[..0] == []; }
    }
    SumWeightsAppend(before, extra, weights);
  }

  /** The edge loop of `moveNodes` that fills neighbourCommunityWeights. */
  method ComputeNeighbourWeights(g: Graph, weights: map<nat, nat>, communities: map<nat, nat>, n: nat) returns (nw: map<nat, nat>)
    requires WellFormed(g)
    ensures nw == NeighbourWeights(g, weights, communities, n, Incident(g, n))
  {
    var es := Incident(g, n);
    nw := map[];
    var k := 0;
    while k < |es|
      invariant 0 <= k <= |es|
      invariant nw == NeighbourWeights(g, weights, communities, n, es[..k])
    {
      var e := es[k];
      assert es[..k + 1][..k] == es[..k];
      assert e in g.ends;
      ghost var next := AddEdge(g, weights, communities, n, nw, e);
      assert next == NeighbourWeights(g, weights, communities, n, es[..k + 1]);
      var m := Opposite(g, e, n);
      if m != n && m !in g.tails && m in communities {
        var c := communities[m];
        nw := nw[c := Get(nw, c) + Get(weights, e)];
      }
      assert nw == next;
      k := k + 1;
    }
    assert es[..k] == es;
  }

  // ---------------------------------------------------------------------
  // Choosing a community

  /**
   * The modularity gain of moving a node of weighted degree `nodeDegree`
   * into a community of degree `communityDegree` to which it sends `weight`.
   */
  function Gain(resolution: real, weight: nat, communityDegree: int, nodeDegree: nat, totalWeight: nat): real
    requires totalWeight > 0
  {
    resolution * weight as real - (communityDegree * nodeDegree) as real / totalWeight as real
  }

  function CandidateGain(nw: map<nat, nat>, table: map<nat, int>, nodeDegree: nat, totalWeight: nat, resolution: real, c: nat): real
    requires totalWeight > 0 && c in nw
  {
    Gain(resolution, nw[c], Degree(table, c), nodeDegree, totalWeight)
  }

  /** Among the candidates `done`, `r` has the largest positive gain and the smallest id of those that tie; or none gains and `r` is `current`. */
  ghost predicate BestAmong(done: set<nat>, nw: map<nat, nat>, table: map<nat, int>, nodeDegree: nat, totalWeight: nat,
                            resolution: real, current: nat, r: nat, best: real)
    requires totalWeight > 0 && done <= nw.Keys
  {
    (r == current && best == 0.0 && forall c :: c in done ==> CandidateGain(nw, table, nodeDegree, totalWeight, resolution, c) <= 0.0) ||
    (r in done && best > 0.0 && best == CandidateGain(nw, table, nodeDegree, totalWeight, resolution, r) &&
      forall c :: c in done ==>
        CandidateGain(nw, table, nodeDegree, totalWeight, resolution, c) <= best &&
        (CandidateGain(nw, table, nodeDegree, totalWeight, resolution, c) == best ==> r <= c))
  }

  /**
   * Where a node moves: the neighbour community of largest positive gain,
   * the smallest id among those that tie (ascending std::map order with a
   * strict comparison); its community before the move when none gains.
   * With a total weight of 0 every gain is 0/0, which compares false.
   */
  ghost predicate BestMove(nw: map<nat, nat>, table: map<nat, int>, nodeDegree: nat, totalWeight: nat,
                           resolution: real, current: nat, r: nat)
  {
    if totalWeight > 0 && exists c :: c in nw && CandidateGain(nw, table, nodeDegree, totalWeight, resolution, c) > 0.0 then
      r in nw && CandidateGain(nw, table, nodeDegree, totalWeight, resolution, r) > 0.0 &&
      forall c :: c in nw ==>
        CandidateGain(nw, table, nodeDegree, totalWeight, resolution, c) <= CandidateGain(nw, table, nodeDegree, totalWeight, resolution, r) &&
        (CandidateGain(nw, table, nodeDegree, totalWeight, resolution, c) == CandidateGain(nw, table, nodeDegree, totalWeight, resolution, r) ==> r <= c)
    else
      r == current
  }

  /** Visiting candidate `c`, larger than every candidate visited so far: a
      strictly larger gain takes over, a tie keeps the earlier, smaller id. */
  lemma BestAmongStep(done: set<nat>, nw: map<nat, nat>, table: map<nat, int>, nodeDegree: nat, totalWeight: nat,
                      resolution: real, current: nat, r: nat, best: real, c: nat)
    requires totalWeight > 0 && done <= nw.Keys && c in nw && c !in done
    requires forall a :: a in done ==> a < c
    requires BestAmong(done, nw, table, nodeDegree, totalWeight, resolution, current, r, best)
    ensures var gain := CandidateGain(nw, table, nodeDegree, totalWeight, resolution, c);
      BestAmong(done + {c}, nw, table, nodeDegree, totalWeight, resolution, current,
                if gain > best then c else r, if gain > best then gain else best)
  {
    var gain := CandidateGain(nw, table, nodeDegree, totalWeight, resolution, c);
    if gain > best {
      assert best >= 0.0;
    } else if r != current || best != 0.0 {
      assert r in done && r < c;
    }
  }

  /** Once every candidate is visited, the running best is the move. */
  lemma BestAmongAll(nw: map<nat, nat>, table: map<nat, int>, nodeDegree: nat, totalWeight: nat,
                     resolution: real, current: nat, r: nat, best: real)
    requires totalWeight > 0
    requires BestAmong(nw.Keys, nw, table, nodeDegree, totalWeight, resolution, current, r, best)
    ensures BestMove(nw, table, nodeDegree, totalWeight, resolution, current, r)
  {
    if exists c :: c in nw && CandidateGain(nw, table, nodeDegree, totalWeight, resolution, c) > 0.0 {
      var c :| c in nw && CandidateGain(nw, table, nodeDegree, totalWeight, resolution, c) > 0.0;
      assert r in nw.Keys;
    }
  }

  /** An ascending walk over `keys`: the keys visited so far all precede the rest. */
  ghost predicate Walked(keys: set<nat>, done: set<nat>, remaining: set<nat>)
  {
    remaining + done == keys && remaining !! done && forall a, b :: a in done && b in remaining ==> a < b
  }

  /** Visiting the least remaining key continues the walk. */
  lemma WalkStep(keys: set<nat>, done: set<nat>, remaining: set<nat>, c: nat)
    requires Walked(keys, done, remaining)
    requires c in remaining && forall x :: x in remaining ==> c <= x
    ensures c !in done && forall a :: a in done ==> a < c
    ensures Walked(keys, done + {c}, remaining - {c})
  {
  }

  /** The loop over neighbourCommunityWeights that picks the new community. */
  method ChooseCommunity(nw: map<nat, nat>, table: map<nat, int>, nodeDegree: nat, totalWeight: nat,
                         resolution: real, current: nat) returns (r: nat)
    ensures BestMove(nw, table, nodeDegree, totalWeight, resolution, current, r)
  {
    var maxDeltaQ := 0.0;
    r := current;
    var remaining := nw.Keys;
    ghost var done: set<nat> := {};
    while remaining != {}
      invariant Walked(nw.Keys, done, remaining)
      invariant totalWeight == 0 ==> r == current
      invariant totalWeight > 0 ==> BestAmong(done, nw, table, nodeDegree, totalWeight, resolution, current, r, maxDeltaQ)
      decreases |remaining|
    {
      var c: nat := Collections.Min(remaining);
      WalkStep(nw.Keys, done, remaining, c);
      if totalWeight > 0 {
        BestAmongStep(done, nw, table, nodeDegree, totalWeight, resolution, current, r, maxDeltaQ, c);
        var deltaQ := Gain(resolution, nw[c], Degree(table, c), nodeDegree, totalWeight);
        if deltaQ > maxDeltaQ {
          maxDeltaQ := deltaQ;
          r := c;
        }
      }
      remaining := remaining - {c};
      done := done + {c};
    }
    if totalWeight > 0 {
      BestAmongAll(nw, table, nodeDegree, totalWeight, resolution, current, r, maxDeltaQ);
    }
  }
}
