/**
 * The state `LouvainTransform::apply` keeps across its lambdas, as a class:
 * the graph being clustered (the input, then each coarsened graph), its edge
 * weights, the community of each node, each node's weighted degree, each
 * community's degree, and the relabelled communities of every round.
 */
module Louvain {
  import opened Wrappers
  import opened LouvainGraph
  import opened LouvainMoves
  import opened LouvainCoarsen
  import opened LouvainRanking

  /** The non-tail nodes of `g` are exactly the keys of `communities`. */
  ghost predicate Covers(g: Graph, communities: map<nat, nat>)
  {
    forall n :: n in communities <==> n in g.nodeIds && n !in g.tails
  }

  /** The degree table agrees with the communities, and every community in use has an entry. */
  ghost predicate Consistent(g: Graph, communities: map<nat, nat>, degrees: map<nat, nat>, table: map<nat, int>)
  {
    NoDups(g.nodeIds) &&
    DegreesConsistent(g.nodeIds, communities, degrees, table) &&
    (forall n :: n in communities ==> communities[n] in table)
  }

  /** Exactly the nodes with a community have a weighted degree, and it is the sum of their edge weights. */
  ghost predicate DegreesKnown(g: Graph, weights: map<nat, nat>, communities: map<nat, nat>, degrees: map<nat, nat>)
  {
    (forall n :: n in degrees <==> n in communities) &&
    (forall n :: n in degrees ==> degrees[n] == WeightedDegree(g, weights, n))
  }

  /** A node that gets a community and its weighted degree together keeps the degrees known. */
  lemma DegreesKnownAdd(g: Graph, weights: map<nat, nat>, communities: map<nat, nat>, degrees: map<nat, nat>, n: nat, c: nat)
    requires DegreesKnown(g, weights, communities, degrees)
    ensures DegreesKnown(g, weights, communities[n := c], degrees[n := WeightedDegree(g, weights, n)])
  {
  }

  /** Between moves: the graph is well formed, every non-tail node has a community and its weighted degree, and the table agrees. */
  ghost predicate SettledState(g: Graph, weights: map<nat, nat>, communities: map<nat, nat>, degrees: map<nat, nat>, table: map<nat, int>)
  {
    Consistent(g, communities, degrees, table) && WellFormed(g) && Covers(g, communities) &&
    DegreesKnown(g, weights, communities, degrees)
  }

  /** Removing a key and setting it again is setting it. */
  lemma RemoveThenSet(m: map<nat, nat>, n: nat, c: nat)
    ensures (m - {n})[n := c] == m[n := c]
  {
  }

  /** A move of one node, `remove` then `add`, keeps the state settled. */
  lemma MoveKeepsSettled(g: Graph, weights: map<nat, nat>, communities: map<nat, nat>, degrees: map<nat, nat>,
                         table: map<nat, int>, n: nat, c: nat)
    requires SettledState(g, weights, communities, degrees, table) && n in communities
    ensures SettledState(g, weights, communities[n := c], degrees,
      AddDegree(RemoveDegree(table, communities[n], Get(degrees, n)), c, Get(degrees, n)))
  {
    assert n in g.nodeIds;
    RemoveKeepsConsistent(g.nodeIds, communities, degrees, table, n);
    var removed := RemoveDegree(table, communities[n], Get(degrees, n));
    AddKeepsConsistent(g.nodeIds, communities - {n}, degrees, removed, n, c);
    RemoveThenSet(communities, n, c);
  }

  /**
   * One move of node `n` from `before` and `table` to `after` and
   * `afterTable`: only the community of `n` changes, to its best move, the
   * degree table loses the node's degree from its old community and adds it
   * to its new one, and the state stays settled.
   */
  ghost predicate Moved(g: Graph, weights: map<nat, nat>, degrees: map<nat, nat>, totalWeight: nat, resolution: real,
                        before: map<nat, nat>, table: map<nat, int>, n: nat, after: map<nat, nat>, afterTable: map<nat, int>)
  {
    n in before && n in after &&
    after == before[n := after[n]] &&
    BestMove(NeighbourWeights(g, weights, before, n, Incident(g, n)), RemoveDegree(table, before[n], Get(degrees, n)),
             Get(degrees, n), totalWeight, resolution, before[n], after[n]) &&
    afterTable == AddDegree(RemoveDegree(table, before[n], Get(degrees, n)), after[n], Get(degrees, n)) &&
    SettledState(g, weights, after, degrees, afterTable)
  }

  /** Moving node `n` to its best move is a Moved step. */
  lemma MoveStep(g: Graph, weights: map<nat, nat>, degrees: map<nat, nat>, totalWeight: nat, resolution: real,
                 before: map<nat, nat>, table: map<nat, int>, n: nat, chosen: nat)
    requires SettledState(g, weights, before, degrees, table) && n in before
    requires BestMove(NeighbourWeights(g, weights, before, n, Incident(g, n)), RemoveDegree(table, before[n], Get(degrees, n)),
                      Get(degrees, n), totalWeight, resolution, before[n], chosen)
    ensures Moved(g, weights, degrees, totalWeight, resolution, before, table, n, before[n := chosen],
                  AddDegree(RemoveDegree(table, before[n], Get(degrees, n)), chosen, Get(degrees, n)))
  {
    MoveKeepsSettled(g, weights, before, degrees, table, n, chosen);
  }

  /** Staying put leaves the degree table as it was. */
  lemma StayKeepsTable(table: map<nat, int>, c: nat, d: nat)
    requires c in table
    ensures AddDegree(RemoveDegree(table, c, d), c, d) == table
  {
  }

  /** Node `n` would not leave its community: its best move is to stay. */
  ghost predicate Stays(g: Graph, weights: map<nat, nat>, communities: map<nat, nat>, degrees: map<nat, nat>,
                        table: map<nat, int>, totalWeight: nat, resolution: real, n: nat)
    requires n in communities
  {
    BestMove(NeighbourWeights(g, weights, communities, n, Incident(g, n)),
             RemoveDegree(table, communities[n], Get(degrees, n)),
             Get(degrees, n), totalWeight, resolution, communities[n], communities[n])
  }

  /** The start of `moveNodes` after visiting the first `k` nodes, `next` being the next community id. */
  ghost predicate InitState(g: Graph, weights: map<nat, nat>, k: nat, communities: map<nat, nat>, degrees: map<nat, nat>,
                            table: map<nat, int>, next: nat)
  {
    k <= |g.nodeIds| &&
    communities == Singletons(g.nodeIds[..k], g.tails) &&
    next == |NonTail(g.nodeIds[..k], g.tails)| &&
    DegreesKnown(g, weights, communities, degrees) &&
    Consistent(g, communities, degrees, table)
  }

  /** Passing over a tail node at the start of `moveNodes` keeps InitState. */
  lemma InitSkip(g: Graph, weights: map<nat, nat>, k: nat, communities: map<nat, nat>, degrees: map<nat, nat>,
                 table: map<nat, int>, next: nat)
    requires InitState(g, weights, k, communities, degrees, table, next) && k < |g.nodeIds| && g.nodeIds[k] in g.tails
    ensures InitState(g, weights, k + 1, communities, degrees, table, next)
  {
    assert g.nodeIds[..k + 1][..k] == g.nodeIds[..k];
  }

  /** The next non-tail node of the start of `moveNodes` gets the next number. */
  lemma InitAddNumbering(nodes: seq<nat>, tails: set<nat>, k: nat, communities: map<nat, nat>, next: nat)
    requires k < |nodes| && nodes[k] !in tails
    requires communities == Singletons(nodes[..k], tails) && next == |NonTail(nodes[..k], tails)|
    ensures communities[nodes[k] := next] == Singletons(nodes[..k + 1], tails)
    ensures next + 1 == |NonTail(nodes[..k + 1], tails)|
  {
    SingletonsNext(nodes, tails, k);
    NonTailNext(nodes, tails, k);
  }

  /** The start of `moveNodes` one node further on. */
  lemma SingletonsNext(nodes: seq<nat>, tails: set<nat>, k: nat)
    requires k < |nodes|
    ensures Singletons(nodes[..k + 1], tails) ==
      if nodes[k] in tails then Singletons(nodes[..k], tails)
      else Singletons(nodes[..k], tails)[nodes[k] := |NonTail(nodes[..k], tails)|]
  {
    assert nodes[..k + 1][..k] == nodes[..k];
  }

  /** The non-tail nodes one node further on. */
  lemma NonTailNext(nodes: seq<nat>, tails: set<nat>, k: nat)
    requires k < |nodes|
    ensures NonTail(nodes[..k + 1], tails) == NonTail(nodes[..k], tails) + (if nodes[k] in tails then [] else [nodes[k]])
  {
    assert nodes[..k + 1][..k] == nodes[..k];
  }

  /** Giving a node without a community its degree and a community of its own keeps the table consistent. */
  lemma InitAddConsistent(g: Graph, weights: map<nat, nat>, communities: map<nat, nat>, degrees: map<nat, nat>,
                          table: map<nat, int>, n: nat, next: nat)
    requires Consistent(g, communities, degrees, table) && n in g.nodeIds && n !in communities
    ensures Consistent(g, communities[n := next], degrees[n := WeightedDegree(g, weights, n)],
                       AddDegree(table, next, WeightedDegree(g, weights, n)))
  {
    var d := WeightedDegree(g, weights, n);
    SetDegreeKeepsConsistent(g.nodeIds, communities, degrees, table, n, d);
    AddKeepsConsistent(g.nodeIds, communities, degrees[n := d], table, n, next);
  }

  /** Placing a non-tail node in community `next` at the start of `moveNodes` keeps InitState. */
  lemma InitAdd(g: Graph, weights: map<nat, nat>, k: nat, communities: map<nat, nat>, degrees: map<nat, nat>,
                table: map<nat, int>, next: nat, communities': map<nat, nat>, degrees': map<nat, nat>, table': map<nat, int>)
    requires InitState(g, weights, k, communities, degrees, table, next) && k < |g.nodeIds| && g.nodeIds[k] !in g.tails
    requires communities' == communities[g.nodeIds[k] := next]
    requires degrees' == degrees[g.nodeIds[k] := WeightedDegree(g, weights, g.nodeIds[k])]
    requires table' == AddDegree(table, next, WeightedDegree(g, weights, g.nodeIds[k]))
    ensures InitState(g, weights, k + 1, communities', degrees', table', next + 1)
  {
    var nodes := g.nodeIds;
    var n := nodes[k];
    assert n !in nodes[..k] by {
      assert NoDups(nodes);
    }
    assert n !in communities;
    InitAddNumbering(nodes, g.tails, k, communities, next);
    InitAddConsistent(g, weights, communities, degrees, table, n, next);
    DegreesKnownAdd(g, weights, communities, degrees, n, next);
  }

  /** A node not yet visited at the start of `moveNodes` has no weighted degree yet. */
  lemma InitUnvisited(g: Graph, weights: map<nat, nat>, k: nat, communities: map<nat, nat>, degrees: map<nat, nat>,
                      table: map<nat, int>, next: nat)
    requires InitState(g, weights, k, communities, degrees, table, next) && k < |g.nodeIds|
    ensures g.nodeIds[k] !in degrees
  {
    assert g.nodeIds[k] !in g.nodeIds[..k] by {
      assert NoDups(g.nodeIds);
    }
  }

  /** Before the first node, InitState holds of the empty maps. */
  lemma InitStart(g: Graph, weights: map<nat, nat>)
    requires NoDups(g.nodeIds)
    ensures InitState(g, weights, 0, map[], map[], map[], 0)
  {
    EmptyConsistent(g.nodeIds, map[]);
    assert g.nodeIds[..0] == [];
  }

  /** After the last node, every non-tail node is alone in its community and the state is settled. */
  lemma InitDone(g: Graph, weights: map<nat, nat>, communities: map<nat, nat>, degrees: map<nat, nat>,
                 table: map<nat, int>, next: nat)
    requires WellFormed(g) && InitState(g, weights, |g.nodeIds|, communities, degrees, table, next)
    ensures communities == Singletons(g.nodeIds, g.tails)
    ensures SettledState(g, weights, communities, degrees, table)
  {
    assert g.nodeIds[..|g.nodeIds|] == g.nodeIds;
  }

  /** The nodes from `k` on are where they started. */
  ghost predicate NotYetVisited(nodes: seq<nat>, k: nat, communities: map<nat, nat>, start: map<nat, nat>)
    requires k <= |nodes|
  {
    forall m :: m in nodes[k..] && m in communities ==> m in start && communities[m] == start[m]
  }

  /** Visiting node `k`, whatever becomes of it, leaves the later nodes where they started. */
  lemma NotYetVisitedStep(nodes: seq<nat>, k: nat, communities: map<nat, nat>, start: map<nat, nat>, communities': map<nat, nat>)
    requires NoDups(nodes) && k < |nodes| && NotYetVisited(nodes, k, communities, start)
    requires forall m :: m != nodes[k] ==> (m in communities' <==> m in communities)
    requires forall m :: m != nodes[k] && m in communities' ==> communities'[m] == communities[m]
    ensures NotYetVisited(nodes, k + 1, communities', start)
  {
    forall m | m in nodes[k + 1..] && m in communities'
      ensures m in start && communities'[m] == start[m]
    {
      var j :| k + 1 <= j < |nodes| && nodes[j] == m;
      assert nodes[j] != nodes[k];
      assert m in nodes[k..];
    }
  }

  /**
   * A pass of `moveNodes` after visiting the first `k` nodes, started from
   * `start` and `startTable`: the nodes still to come are where they
   * started, `improved` says whether anything changed, and while nothing has,
   * every visited node stays.
   */
  ghost predicate PassInvariant(g: Graph, weights: map<nat, nat>, communities: map<nat, nat>, degrees: map<nat, nat>,
                                table: map<nat, int>, totalWeight: nat, resolution: real,
                                k: nat, improved: bool, start: map<nat, nat>, startTable: map<nat, int>)
  {
    SettledState(g, weights, communities, degrees, table) && k <= |g.nodeIds| &&
    communities.Keys == start.Keys &&
    NotYetVisited(g.nodeIds, k, communities, start) &&
    (improved <==> communities != start) &&
    (!improved ==> table == startTable) &&
    (!improved ==> forall j :: 0 <= j < k && g.nodeIds[j] in communities ==>
      Stays(g, weights, communities, degrees, table, totalWeight, resolution, g.nodeIds[j]))
  }

  /** Passing over a tail node keeps the pass invariant. */
  lemma PassSkip(g: Graph, weights: map<nat, nat>, communities: map<nat, nat>, degrees: map<nat, nat>,
                 table: map<nat, int>, totalWeight: nat, resolution: real,
                 k: nat, improved: bool, start: map<nat, nat>, startTable: map<nat, int>)
    requires PassInvariant(g, weights, communities, degrees, table, totalWeight, resolution, k, improved, start, startTable)
    requires k < |g.nodeIds| && g.nodeIds[k] in g.tails
    ensures PassInvariant(g, weights, communities, degrees, table, totalWeight, resolution, k + 1, improved, start, startTable)
  {
    assert g.nodeIds[k] !in communities;
    NotYetVisitedStep(g.nodeIds, k, communities, start, communities);
  }

  /** Moving node `k`, or leaving it where it is, keeps the pass invariant; `improved` is set when it moved. */
  lemma PassStep(g: Graph, weights: map<nat, nat>, communities: map<nat, nat>, degrees: map<nat, nat>,
                 table: map<nat, int>, totalWeight: nat, resolution: real,
                 k: nat, improved: bool, start: map<nat, nat>, startTable: map<nat, int>,
                 communities': map<nat, nat>, table': map<nat, int>)
    requires PassInvariant(g, weights, communities, degrees, table, totalWeight, resolution, k, improved, start, startTable)
    requires k < |g.nodeIds| && g.nodeIds[k] in communities
    requires Moved(g, weights, degrees, totalWeight, resolution, communities, table, g.nodeIds[k], communities', table')
    ensures PassInvariant(g, weights, communities', degrees, table', totalWeight, resolution, k + 1,
                          improved || communities'[g.nodeIds[k]] != communities[g.nodeIds[k]], start, startTable)
  {
    var n := g.nodeIds[k];
    if communities'[n] != communities[n] {
      PassMoved(g, weights, communities, degrees, table, totalWeight, resolution, k, improved, start, startTable, communities', table');
    } else {
      assert communities' == communities;
      StayKeepsTable(table, communities[n], Get(degrees, n));
      PassStayed(g, weights, communities, degrees, table, totalWeight, resolution, k, improved, start, startTable);
    }
  }

  /** Node `k` moving to another community keeps the pass invariant, with `improved` now set. */
  lemma PassMoved(g: Graph, weights: map<nat, nat>, communities: map<nat, nat>, degrees: map<nat, nat>,
                  table: map<nat, int>, totalWeight: nat, resolution: real,
                  k: nat, improved: bool, start: map<nat, nat>, startTable: map<nat, int>,
                  communities': map<nat, nat>, table': map<nat, int>)
    requires PassInvariant(g, weights, communities, degrees, table, totalWeight, resolution, k, improved, start, startTable)
    requires k < |g.nodeIds| && g.nodeIds[k] in communities
    requires SettledState(g, weights, communities', degrees, table')
    requires g.nodeIds[k] in communities' && communities' == communities[g.nodeIds[k] := communities'[g.nodeIds[k]]]
    requires communities'[g.nodeIds[k]] != communities[g.nodeIds[k]]
    ensures PassInvariant(g, weights, communities', degrees, table', totalWeight, resolution, k + 1, true, start, startTable)
  {
    var nodes := g.nodeIds;
    var n := nodes[k];
    assert n in nodes[k..];
    NotYetVisitedStep(nodes, k, communities, start, communities');
    assert communities'[n] != start[n];
    assert communities'.Keys == start.Keys;
  }


  /** Node `k` staying in its community keeps the whole state, and the node stays. */
  lemma PassStayed(g: Graph, weights: map<nat, nat>, communities: map<nat, nat>, degrees: map<nat, nat>,
                   table: map<nat, int>, totalWeight: nat, resolution: real,
                   k: nat, improved: bool, start: map<nat, nat>, startTable: map<nat, int>)
    requires PassInvariant(g, weights, communities, degrees, table, totalWeight, resolution, k, improved, start, startTable)
    requires k < |g.nodeIds| && g.nodeIds[k] in communities
    requires Stays(g, weights, communities, degrees, table, totalWeight, resolution, g.nodeIds[k])
    ensures PassInvariant(g, weights, communities, degrees, table, totalWeight, resolution, k + 1, improved, start, startTable)
  {
    NotYetVisitedStep(g.nodeIds, k, communities, start, communities);
    if !improved {
      forall j | 0 <= j < k + 1 && g.nodeIds[j] in communities
        ensures Stays(g, weights, communities, degrees, table, totalWeight, resolution, g.nodeIds[j])
      {
      }
    }
  }

  /**
   * Between rounds: the graph is well formed with no edge at a tail and
   * keeps the total weight; with no round recorded it is the input graph,
   * otherwise it has no tails, the last round's communities are its nodes,
   * the first round covers the non-tail input nodes, and each round's
   * communities are nodes of the next.
   */
  ghost predicate Between(target: Graph, g: Graph, weights: map<nat, nat>, iterations: seq<map<nat, nat>>, totalWeight: nat)
  {
    WellFormed(g) && EdgesAvoidTails(g) && SumWeights(g.edgeIds, weights) == totalWeight &&
    Chained(iterations) &&
    (iterations == [] ==> g == target) &&
    (iterations != [] ==>
      g.tails == {} &&
      (forall c :: c in iterations[|iterations| - 1].Values ==> c in g.nodeIds) &&
      (forall n :: n in iterations[0] <==> n in target.nodeIds && n !in target.tails))
  }

  /** Relabelling the settled communities, recording them and coarsening onto them keeps Between. */
  lemma RoundStep(target: Graph, g: Graph, weights: map<nat, nat>, iterations: seq<map<nat, nat>>, totalWeight: nat,
                  communities: map<nat, nat>)
    requires Between(target, g, weights, iterations, totalWeight) && Covers(g, communities)
    ensures Assigned(g.nodeIds, g.tails, communities)
    ensures Assigned(g.nodeIds, g.tails, Relabelled(g.nodeIds, g.tails, communities))
    ensures EndsAssigned(g, Relabelled(g.nodeIds, g.tails, communities), g.edgeIds)
    ensures Between(target, Coarsened(g, weights, Relabelled(g.nodeIds, g.tails, communities)).0,
                    Coarsened(g, weights, Relabelled(g.nodeIds, g.tails, communities)).1,
                    iterations + [Relabelled(g.nodeIds, g.tails, communities)], totalWeight)
  {
    var r := Relabelled(g.nodeIds, g.tails, communities);
    assert Assigned(g.nodeIds, g.tails, r);
    CoarsenedMeaning(g, weights, r);
    var cg := Coarsened(g, weights, r).0;
    var its := iterations + [r];
    forall c | c in r.Values ensures c in cg.nodeIds {
      var n :| n in r && r[n] == c;
      assert n in g.nodeIds && n !in g.tails;
    }
    forall i | 0 <= i < |its| - 1 ensures its[i].Values <= its[i + 1].Keys {
      if i < |iterations| - 1 {
        assert its[i] == iterations[i] && its[i + 1] == iterations[i + 1];
      } else {
        assert its[i] == iterations[|iterations| - 1] && its[i + 1] == r;
      }
    }
    assert its[0] == if iterations == [] then r else iterations[0];
    assert its[|its| - 1] == r;
  }

  /** The state a round's `moveNodes` settles in: the graph and weights it worked on, and the per-node maps. */
  datatype RoundState = RoundState(graph: Graph, weights: map<nat, nat>, communities: map<nat, nat>,
                                   weightedDegrees: map<nat, nat>, communityDegrees: map<nat, int>)

  /** No node of the state has a move of positive gain to another community. */
  ghost predicate Optimal(s: RoundState, totalWeight: nat, resolution: real)
  {
    WellFormed(s.graph) &&
    forall n :: n in s.communities ==>
      Stays(s.graph, s.weights, s.communities, s.weightedDegrees, s.communityDegrees, totalWeight, resolution, n)
  }

  /**
   * A recorded round: `moveNodes` left a settled state in which no node has
   * a move of positive gain, and the round's iteration is its relabelled
   * communities, which the graph's edges can be coarsened onto.
   */
  ghost predicate Converged(s: RoundState, iteration: map<nat, nat>, totalWeight: nat, resolution: real)
  {
    SettledState(s.graph, s.weights, s.communities, s.weightedDegrees, s.communityDegrees) &&
    Optimal(s, totalWeight, resolution) && EdgesAvoidTails(s.graph) &&
    iteration == Relabelled(s.graph.nodeIds, s.graph.tails, s.communities) &&
    Assigned(s.graph.nodeIds, s.graph.tails, iteration) && EndsAssigned(s.graph, iteration, s.graph.edgeIds)
  }

  /**
   * The history of the rounds: each round converged on the graph and
   * weights its predecessor coarsened onto its iteration (the first on the
   * input graph), and `g` and `weights` are what the last round coarsened
   * (the input when there is none).
   */
  ghost predicate Trace(target: Graph, targetWeights: map<nat, nat>, history: seq<RoundState>, iterations: seq<map<nat, nat>>,
                        g: Graph, weights: map<nat, nat>, totalWeight: nat, resolution: real)
    decreases |history|
  {
    |history| == |iterations| &&
    if history == [] then g == target && weights == targetWeights
    else
      var k := |history| - 1;
      Trace(target, targetWeights, history[..k], iterations[..k], history[k].graph, history[k].weights, totalWeight, resolution) &&
      Converged(history[k], iterations[k], totalWeight, resolution) &&
      (g, weights) == Coarsened(history[k].graph, history[k].weights, iterations[k])
  }

  /** A converged round on the current graph extends the history by its state and its iteration. */
  lemma TraceStep(target: Graph, targetWeights: map<nat, nat>, history: seq<RoundState>, iterations: seq<map<nat, nat>>,
                  totalWeight: nat, resolution: real, s: RoundState, r: map<nat, nat>, cg: Graph, cw: map<nat, nat>)
    requires Trace(target, targetWeights, history, iterations, s.graph, s.weights, totalWeight, resolution)
    requires Converged(s, r, totalWeight, resolution) && (cg, cw) == Coarsened(s.graph, s.weights, r)
    ensures Trace(target, targetWeights, history + [s], iterations + [r], cg, cw, totalWeight, resolution)
  {
    assert (history + [s])[..|history|] == history && (iterations + [r])[..|history|] == iterations;
  }

  /** The first recorded round worked on the input graph and weights. */
  lemma {:induction false} TraceFirst(target: Graph, targetWeights: map<nat, nat>, history: seq<RoundState>,
                                      iterations: seq<map<nat, nat>>, g: Graph, weights: map<nat, nat>,
                                      totalWeight: nat, resolution: real)
    requires Trace(target, targetWeights, history, iterations, g, weights, totalWeight, resolution)
    ensures history != [] ==> history[0].graph == target && history[0].weights == targetWeights
    decreases |history|
  {
    if history != [] {
      var k := |history| - 1;
      TraceFirst(target, targetWeights, history[..k], iterations[..k], history[k].graph, history[k].weights, totalWeight, resolution);
      if k > 0 {
        assert history[..k][0] == history[0];
      }
    }
  }

  /** A node's community after the first loop of the finalising step: its own id, except that a tail of the last graph keeps what it had. */
  function Start(g: Graph, communities: map<nat, nat>, n: nat): (r: Option<nat>)
    ensures n !in g.tails ==> r == Some(n)
  {
    if n in g.tails then Lookup(communities, n) else Some(n)
  }

  /** `m` with the entry of `n` set to `o`, or emptied when `o` is null. */
  function Assign(m: map<nat, nat>, n: nat, o: Option<nat>): (r: map<nat, nat>)
    ensures Lookup(r, n) == o
    ensures forall k :: k != n ==> Lookup(r, k) == Lookup(m, k)
  {
    if o.Some? then m[n := o.value] else m - {n}
  }

  /**
   * After the rounds, walking each input node through them gives a community
   * to every node that is no tail, and none to a tail.
   */
  lemma FinalCommunities(target: Graph, g: Graph, weights: map<nat, nat>, iterations: seq<map<nat, nat>>, totalWeight: nat,
                         communities: map<nat, nat>, n: nat)
    requires Between(target, g, weights, iterations, totalWeight) && Covers(g, communities) && n in target.nodeIds
    ensures Compose(Start(g, communities, n), iterations).Some? <==> n !in target.tails
  {
    if iterations != [] {
      if n in target.tails {
        assert [iterations[0]][..0] == iterations[..0];
        assert Compose(Some(n), [iterations[0]]) == None;
        ComposeAppend(Some(n), [iterations[0]], iterations[1..]);
        assert [iterations[0]] + iterations[1..] == iterations;
      } else {
        ComposeChained(iterations, n, |iterations|);
        assert iterations[..|iterations|] == iterations;
      }
    }
  }

  /**
   * The body of the edge loop of `coarsen`: the fine edge's weight goes to
   * the coarse edge already joining `s` and `t`, or to a new one.
   */
  method AddCoarseEdge(cg: Graph, cw: map<nat, nat>, s: nat, t: nat, w: nat) returns (cg': Graph, cw': map<nat, nat>)
    ensures (cg', cw') == CoarseStep(cg, cw, s, t, w)
  {
    var found := FindEdge(cg.edgeIds, cg.ends, s, t);
    var newEdgeId: nat;
    cg' := cg;
    if found.None? {
      newEdgeId := |cg.edgeIds|;
      cg' := WithEdge(cg, s, t);
    } else {
      newEdgeId := found.value;
    }
    cw' := cw[newEdgeId := Get(cw, newEdgeId) + w];
  }

  class LouvainRun {
    /** The graph the transform was applied to. */
    const target: Graph
    const resolution: real
    const totalWeight: nat
    /** The edge weights the transform started from. */
    const initialWeights: map<nat, nat>

    var graph: Graph
    var weights: map<nat, nat>
    var communities: map<nat, nat>
    var weightedDegrees: map<nat, nat>
    var communityDegrees: map<nat, int>
    var iterations: seq<map<nat, nat>>
    /** The state each recorded round's `moveNodes` settled in. */
    ghost var history: seq<RoundState>

    /** Between moves: every non-tail node has a community and its weighted degree, and the degree table agrees. */
    ghost predicate Settled()
      reads this
    {
      SettledState(graph, weights, communities, weightedDegrees, communityDegrees)
    }

    /** The graph, weights and per-node maps as one value. */
    ghost function State(): RoundState
      reads this
    {
      RoundState(graph, weights, communities, weightedDegrees, communityDegrees)
    }

    /** No single node has a move of positive gain to another community. */
    ghost predicate LocallyOptimal()
      reads this
    {
      Optimal(State(), totalWeight, resolution)
    }

    constructor (target: Graph, weights: map<nat, nat>, resolution: real)
      ensures this.target == target && graph == target && this.weights == weights && this.resolution == resolution
      ensures totalWeight == SumWeights(target.edgeIds, weights)
      ensures communities == map[] && weightedDegrees == map[] && communityDegrees == map[] && iterations == []
      ensures initialWeights == weights && history == []
    {
      this.target := target;
      this.resolution := resolution;
      this.totalWeight := SumWeights(target.edgeIds, weights);
      initialWeights := weights;
      graph := target;
      this.weights := weights;
      communities := map[];
      weightedDegrees := map[];
      communityDegrees := map[];
      iterations := [];
      history := [];
    }

    /** `add`: node `n` joins community `c`, whose degree grows by the node's weighted degree. */
    method Add(c: nat, n: nat)
      modifies this`communities, this`communityDegrees
      ensures communities == old(communities)[n := c]
      ensures communityDegrees == AddDegree(old(communityDegrees), c, Get(weightedDegrees, n))
    {
      communities := communities[n := c];
      communityDegrees := communityDegrees[c := Degree(communityDegrees, c) + Get(weightedDegrees, n)];
    }

    /** `remove`: node `n` leaves community `c` and has none, and the degree of `c` shrinks by the node's weighted degree. */
    method Remove(c: nat, n: nat)
      modifies this`communities, this`communityDegrees
      ensures communities == old(communities) - {n}
      ensures communityDegrees == RemoveDegree(old(communityDegrees), c, Get(weightedDegrees, n))
    {
      communities := communities - {n};
      communityDegrees := communityDegrees[c := Degree(communityDegrees, c) - Get(weightedDegrees, n)];
    }

    /** The edge loop that sums a node's incident edge weights. */
    method DegreeOf(n: nat) returns (d: nat)
      ensures d == WeightedDegree(graph, weights, n)
    {
      var es := Incident(graph, n);
      d := 0;
      var k := 0;
      while k < |es|
        invariant 0 <= k <= |es|
        invariant d == SumWeights(es[..k], weights)
      {
        assert es[..k + 1][..k] == es[..k];
        d := d + Get(weights, es[k]);
        k := k + 1;
      }
      assert es[..k] == es;
    }

    /** One node of the start of `moveNodes`: a non-tail node gets its weighted degree and community `next`. */
    method InitVisit(k: nat, next: nat) returns (next': nat)
      requires InitState(graph, weights, k, communities, weightedDegrees, communityDegrees, next) && k < |graph.nodeIds|
      modifies this`communities, this`weightedDegrees, this`communityDegrees
      ensures InitState(graph, weights, k + 1, communities, weightedDegrees, communityDegrees, next')
    {
      var n := graph.nodeIds[k];
      next' := next;
      if n in graph.tails {
        InitSkip(graph, weights, k, communities, weightedDegrees, communityDegrees, next);
      } else {
        InitUnvisited(graph, weights, k, communities, weightedDegrees, communityDegrees, next);
        ghost var c0, d0, t0 := communities, weightedDegrees, communityDegrees;
        var d := DegreeOf(n);
        weightedDegrees := weightedDegrees[n := Get(weightedDegrees, n) + d];
        assert weightedDegrees == d0[n := WeightedDegree(graph, weights, n)];
        Add(next, n);
        InitAdd(graph, weights, k, c0, d0, t0, next, communities, weightedDegrees, communityDegrees);
        next' := next + 1;
      }
    }

    /** The start of `moveNodes`: each non-tail node, in order, gets its weighted degree and a community of its own. */
    method Init()
      requires NoDups(graph.nodeIds) && WellFormed(graph)
      requires communities == map[] && weightedDegrees == map[] && communityDegrees == map[]
      modifies this`communities, this`weightedDegrees, this`communityDegrees
      ensures communities == Singletons(graph.nodeIds, graph.tails)
      ensures Settled()
    {
      var next := 0;
      var k := 0;
      InitStart(graph, weights);
      while k < |graph.nodeIds|
        invariant InitState(graph, weights, k, communities, weightedDegrees, communityDegrees, next)
      {
        next := InitVisit(k, next);
        k := k + 1;
      }
      InitDone(graph, weights, communities, weightedDegrees, communityDegrees, next);
    }

    /**
     * One step of a `moveNodes` pass: node `n` leaves its community and joins
     * the neighbour community of best positive gain, or its own again.
     */
    method MoveNode(n: nat) returns (moved: bool)
      requires Settled() && n in communities
      modifies this`communities, this`communityDegrees
      ensures Moved(graph, weights, weightedDegrees, totalWeight, resolution, old(communities), old(communityDegrees), n,
                    communities, communityDegrees)
      ensures moved <==> communities[n] != old(communities)[n]
    {
      var nw := ComputeNeighbourWeights(graph, weights, communities, n);
      var c := communities[n];
      var d := Get(weightedDegrees, n);
      ghost var before := communities;
      ghost var table := communityDegrees;
      Remove(c, n);
      ghost var removed := communityDegrees;
      assert removed == RemoveDegree(table, before[n], Get(weightedDegrees, n));
      var chosen := ChooseCommunity(nw, communityDegrees, d, totalWeight, resolution, c);
      assert BestMove(NeighbourWeights(graph, weights, before, n, Incident(graph, n)), removed,
                      Get(weightedDegrees, n), totalWeight, resolution, before[n], chosen);
      Add(chosen, n);
      RemoveThenSet(before, n, chosen);
      MoveStep(graph, weights, weightedDegrees, totalWeight, resolution, before, table, n, chosen);
      moved := chosen != c;
    }

    /** A pass of `moveNodes` after `k` nodes, started from `start` and `startTable`. */
    ghost predicate PassState(k: nat, improved: bool, start: map<nat, nat>, startTable: map<nat, int>)
      reads this
    {
      PassInvariant(graph, weights, communities, weightedDegrees, communityDegrees, totalWeight, resolution, k, improved, start, startTable)
    }

    /** The pass visits node `k`: a tail is passed over, any other node moves. */
    method PassVisit(k: nat, improved: bool, ghost start: map<nat, nat>, ghost startTable: map<nat, int>) returns (improved': bool)
      requires k < |graph.nodeIds| && PassState(k, improved, start, startTable)
      modifies this`communities, this`communityDegrees
      ensures PassState(k + 1, improved', start, startTable)
    {
      var n := graph.nodeIds[k];
      if n in graph.tails {
        PassSkip(graph, weights, communities, weightedDegrees, communityDegrees, totalWeight, resolution, k, improved, start, startTable);
        improved' := improved;
      } else {
        ghost var c, t := communities, communityDegrees;
        var moved := MoveNode(n);
        PassStep(graph, weights, c, weightedDegrees, t, totalWeight, resolution, k, improved, start, startTable,
                 communities, communityDegrees);
        improved' := improved || moved;
      }
    }

    /** A pass of `moveNodes` over every non-tail node; `improved` says some node changed community. */
    method MovePass() returns (improved: bool)
      requires Settled()
      modifies this`communities, this`communityDegrees
      ensures Settled()
      ensures communities.Keys == old(communities).Keys
      ensures improved <==> communities != old(communities)
      ensures !improved ==> communityDegrees == old(communityDegrees) && LocallyOptimal()
    {
      improved := false;
      var k := 0;
      while k < |graph.nodeIds|
        invariant PassState(k, improved, old(communities), old(communityDegrees))
      {
        improved := PassVisit(k, improved, old(communities), old(communityDegrees));
        k := k + 1;
      }
    }

    /**
     * `moveNodes` with at most `fuel` passes. Unless some node moved, every
     * node is left in its own community; when the last pass moved nothing
     * (`converged`), no node has a move of positive gain.
     */
    method MoveNodes(fuel: nat) returns (modified: bool, converged: bool)
      requires NoDups(graph.nodeIds) && WellFormed(graph)
      requires communities == map[] && weightedDegrees == map[] && communityDegrees == map[]
      modifies this`communities, this`weightedDegrees, this`communityDegrees
      ensures Settled()
      ensures !modified ==> communities == Singletons(graph.nodeIds, graph.tails)
      ensures converged ==> LocallyOptimal()
    {
      Init();
      modified := false;
      var improved := true;
      var remaining := fuel;
      while improved && remaining > 0
        invariant Settled()
        invariant !modified ==> communities == Singletons(graph.nodeIds, graph.tails)
        invariant !improved ==> LocallyOptimal()
      {
        improved := MovePass();
        if improved {
          modified := true;
        }
        remaining := remaining - 1;
      }
      converged := !improved;
    }

    /** One node of `relabel`: a non-tail node takes the id of its community, a new id when the community is new. */
    method RelabelVisit(k: nat, idMap: map<nat, nat>, next: nat, ghost start: map<nat, nat>) returns (idMap': map<nat, nat>, next': nat)
      requires k < |graph.nodeIds| && NoDups(graph.nodeIds)
      requires RelabelState(graph.nodeIds, graph.tails, start, k, communities, idMap, next)
      modifies this`communities
      ensures RelabelState(graph.nodeIds, graph.tails, start, k + 1, communities, idMap', next')
    {
      var n := graph.nodeIds[k];
      idMap', next' := idMap, next;
      if n in graph.tails {
        RelabelSkip(graph.nodeIds, graph.tails, start, k, communities, idMap, next);
      } else {
        RelabelUnvisited(graph.nodeIds, graph.tails, start, k, communities, idMap, next);
        var oldCommunityId := communities[n];
        if oldCommunityId !in idMap {
          RelabelNew(graph.nodeIds, graph.tails, start, k, communities, idMap, next);
          idMap' := idMap[oldCommunityId := next];
          communities := communities[n := next];
          next' := next + 1;
        } else {
          RelabelKnown(graph.nodeIds, graph.tails, start, k, communities, idMap, next);
          communities := communities[n := idMap[oldCommunityId]];
        }
      }
    }

    /** `relabel`: the communities of the non-tail nodes become 0..k-1 in order of first appearance. */
    method Relabel()
      requires NoDups(graph.nodeIds) && Assigned(graph.nodeIds, graph.tails, communities)
      modifies this`communities
      ensures communities == Relabelled(graph.nodeIds, graph.tails, old(communities))
    {
      var idMap: map<nat, nat> := map[];
      var next := 0;
      var k := 0;
      RelabelStart(graph.nodeIds, graph.tails, communities);
      while k < |graph.nodeIds|
        invariant 0 <= k <= |graph.nodeIds|
        invariant RelabelState(graph.nodeIds, graph.tails, old(communities), k, communities, idMap, next)
      {
        idMap, next := RelabelVisit(k, idMap, next, old(communities));
        k := k + 1;
      }
      RelabelDone(graph.nodeIds, graph.tails, old(communities), communities, idMap, next);
    }

    /** The node loop of `coarsen`: one coarse node per distinct community, in order of first appearance. */
    method CoarseNodes() returns (coarseNodes: seq<nat>)
      requires Assigned(graph.nodeIds, graph.tails, communities)
      ensures coarseNodes == FirstAppearances(graph.nodeIds, graph.tails, communities)
    {
      var nodes := graph.nodeIds;
      coarseNodes := [];
      var k := 0;
      while k < |nodes|
        invariant 0 <= k <= |nodes|
        invariant Assigned(nodes[..k], graph.tails, communities)
        invariant coarseNodes == FirstAppearances(nodes[..k], graph.tails, communities)
      {
        var n := nodes[k];
        assert nodes[..k + 1][..k] == nodes[..k] && nodes[..k + 1][k] == n;
        if n !in graph.tails {
          var newNodeId := communities[n];
          if newNodeId !in coarseNodes {
            coarseNodes := coarseNodes + [newNodeId];
          }
        }
        k := k + 1;
      }
      assert nodes[..k] == nodes;
    }

    /** The edge loop of `coarsen`: each fine edge adds its weight to the coarse edge between its ends' communities. */
    method CoarseEdgeLoop(coarseNodes: seq<nat>) returns (coarseGraph: Graph, newWeights: map<nat, nat>)
      requires EndsAssigned(graph, communities, graph.edgeIds)
      ensures (coarseGraph, newWeights) == CoarseEdges(graph, weights, communities, coarseNodes, graph.edgeIds)
    {
      var g, c, w := graph, communities, weights;
      var es := g.edgeIds;
      coarseGraph := Graph(coarseNodes, {}, [], map[], map[]);
      newWeights := map[];
      var k := 0;
      assert es[..0] == [];
      while k < |es|
        invariant 0 <= k <= |es|
        invariant EndsAssigned(g, c, es[..k])
        invariant (coarseGraph, newWeights) == CoarseEdges(g, w, c, coarseNodes, es[..k])
      {
        var e := es[k];
        CoarseEdgesNext(g, w, c, coarseNodes, es, k);
        var sourceId := c[g.ends[e].0];
        var targetId := c[g.ends[e].1];
        var newWeight := Get(w, e);
        coarseGraph, newWeights := AddCoarseEdge(coarseGraph, newWeights, sourceId, targetId, newWeight);
        k := k + 1;
      }
      assert es[..k] == es;
    }

    /** `coarsen`: the graph and weights become the coarse graph of the communities and its summed weights. */
    method Coarsen()
      requires Assigned(graph.nodeIds, graph.tails, communities) && EndsAssigned(graph, communities, graph.edgeIds)
      modifies this`graph, this`weights
      ensures (graph, weights) == Coarsened(old(graph), old(weights), communities)
    {
      var coarseNodes := CoarseNodes();
      var coarseGraph, newWeights := CoarseEdgeLoop(coarseNodes);
      graph := coarseGraph;
      weights := newWeights;
    }
  
    /** The rounds so far, as Between states them. */
    ghost predicate Rounds()
      reads this`graph, this`weights, this`iterations
    {
      Between(target, graph, weights, iterations, totalWeight)
    }

    /** The rounds so far, as Trace states them from the input graph and weights. */
    ghost predicate Recorded()
      reads this`graph, this`weights, this`iterations, this`history
    {
      Trace(target, initialWeights, history, iterations, graph, weights, totalWeight, resolution)
    }

    /**
     * One round of the do-while loop of `apply`: the per-node state is reset
     * and `moveNodes` runs; when it converged after moving a node, the
     * communities are relabelled, recorded as a new iteration, and the graph
     * is coarsened onto them. A `moveNodes` cut short by its pass bound
     * (`!converged`) records nothing.
     */
    method Round(passes: nat) returns (modified: bool, converged: bool)
      requires Rounds() && Recorded()
      modifies this
      ensures Rounds() && Recorded()
      ensures !(modified && converged) ==>
        graph == old(graph) && weights == old(weights) && iterations == old(iterations) && history == old(history)
      ensures !modified ==> Settled() && communities == Singletons(graph.nodeIds, graph.tails)
      ensures !modified && converged ==> LocallyOptimal()
      ensures modified && converged ==> |iterations| == |old(iterations)| + 1 && iterations[..|old(iterations)|] == old(iterations)
    {
      modified, converged := Settle(passes);
      if modified && converged {
        Advance();
      }
    }

    /** The first half of a round: the per-node state is reset and `moveNodes` runs. */
    method Settle(passes: nat) returns (modified: bool, converged: bool)
      requires NoDups(graph.nodeIds) && WellFormed(graph)
      modifies this`communities, this`weightedDegrees, this`communityDegrees
      ensures Settled()
      ensures !modified ==> communities == Singletons(graph.nodeIds, graph.tails)
      ensures converged ==> LocallyOptimal()
    {
      communities := map[];
      weightedDegrees := map[];
      communityDegrees := map[];
      modified, converged := MoveNodes(passes);
    }

    /** The second half of a round that moved nodes and converged: relabel, record the communities, coarsen. */
    method Advance()
      requires Rounds() && Recorded() && Settled() && LocallyOptimal()
      modifies this
      ensures Rounds() && Recorded()
      ensures |iterations| == |old(iterations)| + 1 && iterations[..|old(iterations)|] == old(iterations)
      ensures iterations[|iterations| - 1] == Relabelled(old(graph).nodeIds, old(graph).tails, old(communities))
      ensures history == old(history) + [old(State())]
    {
      ghost var s := State();
      RoundStep(target, graph, weights, iterations, totalWeight, communities);
      Relabel();
      iterations := iterations + [communities];
      Coarsen();
      history := history + [s];
      TraceStep(target, initialWeights, old(history), old(iterations), totalWeight, resolution, s, communities, graph, weights);
      assert iterations[..|old(iterations)|] == old(iterations);
    }

    /**
     * The rounds, at most `rounds` of them with at most `passes` passes
     * each. `done` when a round's `moveNodes` converged without moving a
     * node: every non-tail node then sits in a community of its own and none
     * has a move of positive gain. A bound that runs out first, in either
     * loop, leaves `done` false.
     */
    method Run(rounds: nat, passes: nat) returns (done: bool)
      requires Rounds() && Recorded()
      modifies this
      ensures Rounds() && Recorded()
      ensures done ==> Settled() && LocallyOptimal() && communities == Singletons(graph.nodeIds, graph.tails)
    {
      done := false;
      var finished := false;
      var remaining := rounds;
      while !finished && remaining > 0
        invariant Rounds() && Recorded()
        invariant done ==> Settled() && LocallyOptimal() && communities == Singletons(graph.nodeIds, graph.tails)
        decreases remaining
      {
        var modified, converged := Round(passes);
        finished := !(modified && converged);
        done := !modified && converged;
        remaining := remaining - 1;
      }
    }

    /** The first loop of the finalising step: each input node that is no tail of the last graph becomes its own community. */
    method StartCommunities()
      modifies this`communities
      ensures forall n :: n in target.nodeIds ==> Lookup(communities, n) == Start(graph, old(communities), n)
    {
      var nodes := target.nodeIds;
      var k := 0;
      while k < |nodes|
        invariant 0 <= k <= |nodes|
        invariant forall n :: n in nodes[..k] ==> Lookup(communities, n) == Start(graph, old(communities), n)
        invariant forall n :: n !in nodes[..k] ==> Lookup(communities, n) == Lookup(old(communities), n)
      {
        var n := nodes[k];
        assert forall m :: m in nodes[..k + 1] <==> m in nodes[..k] || m == n;
        if n !in graph.tails {
          communities := communities[n := n];
        }
        k := k + 1;
      }
      assert nodes[..k] == nodes;
    }

    /** The inner loop of the walk back: node `n`'s community is looked up in each iteration in turn, and a null one stays null. */
    method WalkNode(n: nat)
      modifies this`communities
      ensures Lookup(communities, n) == Compose(Lookup(old(communities), n), iterations)
      ensures forall m :: m != n ==> Lookup(communities, m) == Lookup(old(communities), m)
    {
      var i := 0;
      while i < |iterations|
        invariant 0 <= i <= |iterations|
        invariant Lookup(communities, n) == Compose(Lookup(old(communities), n), iterations[..i])
        invariant forall m :: m != n ==> Lookup(communities, m) == Lookup(old(communities), m)
      {
        assert iterations[..i + 1][..i] == iterations[..i] && iterations[..i + 1][i] == iterations[i];
        var communityId := Lookup(communities, n);
        if communityId.Some? {
          communities := Assign(communities, n, Lookup(iterations[i], communityId.value));
        }
        i := i + 1;
      }
      assert iterations[..i] == iterations;
    }

    /** The walk back over the iterations, node by node. */
    method WalkBack()
      requires NoDups(target.nodeIds)
      modifies this`communities
      ensures forall n :: n in target.nodeIds ==> Lookup(communities, n) == Compose(Lookup(old(communities), n), iterations)
    {
      var nodes := target.nodeIds;
      var k := 0;
      while k < |nodes|
        invariant 0 <= k <= |nodes|
        invariant forall n :: n in nodes[..k] ==> Lookup(communities, n) == Compose(Lookup(old(communities), n), iterations)
        invariant forall n :: n in nodes[k..] ==> Lookup(communities, n) == Lookup(old(communities), n)
      {
        var n := nodes[k];
        assert n !in nodes[..k];
        assert forall m :: m in nodes[k + 1..] ==> m in nodes[k..] && m != n;
        assert forall m :: m in nodes[..k + 1] <==> m in nodes[..k] || m == n;
        WalkNode(n);
        k := k + 1;
      }
      assert nodes[..k] == nodes;
    }

    /**
     * The finalising step: each input node's community is its own id walked
     * through every iteration. When the rounds are done, a tail ends with no
     * community and every other node with its own id walked through the
     * iterations, which it never drops out of.
     */
    method Finalise()
      requires NoDups(target.nodeIds)
      modifies this`communities
      ensures forall n :: n in target.nodeIds ==> Lookup(communities, n) == Compose(Start(graph, old(communities), n), iterations)
      ensures old(Rounds() && Settled()) ==>
        forall n :: n in target.nodeIds ==> (n in communities <==> n !in target.tails)
      ensures old(Rounds() && Settled()) ==>
        forall n :: n in target.nodeIds ==>
          Lookup(communities, n) == if n in target.tails then None else Compose(Some(n), iterations)
    {
      ghost var before := communities;
      StartCommunities();
      WalkBack();
      if Rounds() && SettledState(graph, weights, before, old(weightedDegrees), old(communityDegrees)) {
        forall n | n in target.nodeIds
          ensures n in communities <==> n !in target.tails
          ensures Lookup(communities, n) == if n in target.tails then None else Compose(Some(n), iterations)
        {
          FinalCommunities(target, graph, weights, iterations, totalWeight, before, n);
        }
      }
    }
  }

  /** What `apply` leaves: an error alert, no result within the round bound, or the cluster label of each node. */
  datatype Outcome = InvalidParameter | Unfinished | Clusters(labels: map<nat, string>)

  /** The edge weights: 1 for each edge, or the attribute's value when weighted. */
  method EdgeWeights(edgeIds: seq<nat>, weighted: bool, values: map<nat, nat>) returns (weights: map<nat, nat>)
    ensures forall e :: e in weights <==> e in edgeIds
    ensures forall e :: e in weights ==> weights[e] == if weighted then Get(values, e) else 1
  {
    weights := map[];
    var k := 0;
    while k < |edgeIds|
      invariant 0 <= k <= |edgeIds|
      invariant forall e :: e in weights <==> e in edgeIds[..k]
      invariant forall e :: e in weights ==> weights[e] == if weighted then Get(values, e) else 1
    {
      assert forall e :: e in edgeIds[..k + 1] <==> e in edgeIds[..k] || e == edgeIds[k];
      weights := weights[edgeIds[k] := if weighted then Get(values, edgeIds[k]) else 1];
      k := k + 1;
    }
    assert edgeIds[..k] == edgeIds;
  }

  /**
   * `LouvainTransform::apply`: weighted without an attribute is an invalid
   * parameter; otherwise the edge weights are 1 or the attribute's values,
   * and once the rounds are done, `history` and `iterations` are the rounds
   * that converged after moving nodes (Trace), `settled` is the last round,
   * which converged with every node alone, each node's final community is its
   * own id walked through the iterations (none for a tail), every node that
   * is no tail gets the label "Cluster k", two nodes share a label exactly
   * when they share a final community, and a larger community gets a smaller k.
   */
  method Apply(target: Graph, weighted: bool, attributeNames: seq<string>, values: map<nat, nat>,
               resolution: real, rounds: nat, passes: nat)
    returns (outcome: Outcome, ghost finals: map<nat, nat>, ghost weights: map<nat, nat>,
             ghost history: seq<RoundState>, ghost iterations: seq<map<nat, nat>>, ghost settled: RoundState)
    requires WellFormed(target) && EdgesAvoidTails(target)
    ensures outcome == InvalidParameter <==> weighted && attributeNames == []
    ensures outcome != InvalidParameter ==>
      (forall e :: e in weights <==> e in target.edgeIds) &&
      (forall e :: e in weights ==> weights[e] == if weighted then Get(values, e) else 1)
    ensures outcome.Clusters? ==>
      Trace(target, weights, history, iterations, settled.graph, settled.weights, SumWeights(target.edgeIds, weights), resolution)
    ensures outcome.Clusters? ==>
      SettledState(settled.graph, settled.weights, settled.communities, settled.weightedDegrees, settled.communityDegrees) &&
      Optimal(settled, SumWeights(target.edgeIds, weights), resolution) &&
      settled.communities == Singletons(settled.graph.nodeIds, settled.graph.tails)
    ensures outcome.Clusters? ==> forall n :: n in target.nodeIds ==>
      Lookup(finals, n) == if n in target.tails then None else Compose(Some(n), iterations)
    ensures outcome.Clusters? ==> outcome.labels == NodeLabels(target.nodeIds, finals)
    ensures outcome.Clusters? ==> forall n :: n in outcome.labels <==> n in target.nodeIds && n !in target.tails
    ensures outcome.Clusters? ==> forall a, b :: a in outcome.labels && b in outcome.labels ==>
      (outcome.labels[a] == outcome.labels[b] <==> finals[a] == finals[b])
  {
    finals, weights, history, iterations := map[], map[], [], [];
    settled := RoundState(target, map[], map[], map[], map[]);
    if weighted && attributeNames == [] {
      return InvalidParameter, finals, weights, history, iterations, settled;
    }
    var edgeWeights := EdgeWeights(target.edgeIds, weighted, values);
    weights := edgeWeights;
    var done, communities;
    done, communities, history, iterations, settled := Cluster(target, edgeWeights, resolution, rounds, passes);
    if !done {
      return Unfinished, finals, weights, history, iterations, settled;
    }
    finals := communities;
    var names := ClusterLabels(target.nodeIds, communities);
    NodeLabelsMeaning(target.nodeIds, communities);
    outcome := Clusters(names);
  }

  /**
   * The rounds and the finalising step of `apply` on the input graph and its
   * edge weights. When they are done, `history` and `iterations` are the
   * rounds that converged after moving nodes, `settled` is the last round,
   * which converged with every node alone, and each node's final community
   * is its own id walked through the iterations (none for a tail).
   */
  method Cluster(target: Graph, weights: map<nat, nat>, resolution: real, rounds: nat, passes: nat)
    returns (done: bool, communities: map<nat, nat>,
             ghost history: seq<RoundState>, ghost iterations: seq<map<nat, nat>>, ghost settled: RoundState)
    requires WellFormed(target) && EdgesAvoidTails(target)
    ensures done ==>
      Trace(target, weights, history, iterations, settled.graph, settled.weights, SumWeights(target.edgeIds, weights), resolution)
    ensures done ==>
      SettledState(settled.graph, settled.weights, settled.communities, settled.weightedDegrees, settled.communityDegrees) &&
      Optimal(settled, SumWeights(target.edgeIds, weights), resolution) &&
      settled.communities == Singletons(settled.graph.nodeIds, settled.graph.tails)
    ensures done ==> forall n :: n in target.nodeIds ==>
      Lookup(communities, n) == if n in target.tails then None else Compose(Some(n), iterations)
    ensures done ==> forall n :: n in target.nodeIds ==> (n in communities <==> n !in target.tails)
  {
    var run := new LouvainRun(target, weights, resolution);
    done := run.Run(rounds, passes);
    history, iterations, settled := run.history, run.iterations, run.State();
    if done {
      run.Finalise();
    }
    communities := run.communities;
  }

  /** The end of `apply`: the final communities are counted, ranked by size, numbered and turned into labels. */
  method ClusterLabels(nodes: seq<nat>, communities: map<nat, nat>) returns (names: map<nat, string>)
    ensures names == NodeLabels(nodes, communities)
  {
    var cs := seq(|nodes|, i requires 0 <= i < |nodes| => Lookup(communities, nodes[i]));
    assert cs == Finals(nodes, communities);
    var histogram := CountSizes(cs);
    var sorted := SortBySize(histogram);
    var numbers := NumberClusters(sorted);
    names := MakeLabels(nodes, communities, numbers);
  }
}
