/** Directed graphs given as successor lists, the paths in them, and the facts the
    two searches of the pathfinding demo rest on: the invariant of a breadth-first
    search, and the level-by-level enumeration of simple paths that a FIFO queue of
    paths performs. */
module Graphs {
  import opened Wrappers
  import opened Seqs

  type NodeId = nat
  type Graph = map<NodeId, seq<NodeId>>
  type Path = seq<NodeId>

  /** The successor list of n; a node without an entry has none. */
  function Succ(g: Graph, n: NodeId): seq<NodeId>
  {
    if n in g then g[n] else []
  }

  /** Each node of p is followed by one of its successors. */
  predicate IsWalk(g: Graph, p: Path)
  {
    forall i :: 0 <= i < |p| - 1 ==> p[i + 1] in Succ(g, p[i])
  }

  predicate IsPath(g: Graph, p: Path, s: NodeId, t: NodeId)
  {
    |p| > 0 && p[0] == s && p[|p| - 1] == t && IsWalk(g, p)
  }

  /** A path that visits no node twice. */
  predicate IsSimplePath(g: Graph, p: Path, s: NodeId, t: NodeId)
  {
    IsPath(g, p, s, t) && NoDup(p)
  }

  ghost predicate Reachable(g: Graph, s: NodeId, t: NodeId)
  {
    exists p :: IsPath(g, p, s, t)
  }

  lemma PathPrefix(g: Graph, p: Path, s: NodeId, i: nat)
    requires i < |p| && IsPath(g, p, s, p[|p| - 1])
    ensures IsPath(g, p[..i + 1], s, p[i])
  {
  }

  /** A path that starts inside S and ends outside it leaves S along some edge. */
  lemma {:induction false} ExitEdge(p: Path, S: set<NodeId>) returns (i: nat)
    requires |p| > 0 && p[0] in S && p[|p| - 1] !in S
    ensures i < |p| - 1 && p[i] in S && p[i + 1] !in S
  {
    if p[1] !in S {
      i := 0;
    } else {
      var k := ExitEdge(p[1..], S);
      i := k + 1;
    }
  }

  // ---------------------------------------------------------------------------
  // Breadth-first search

  /** came_from records, for every discovered node other than the start, the node it
      was discovered from, and dist counts the edges back to the start. */
  ghost predicate ParentsOk(g: Graph, start: NodeId, cameFrom: map<NodeId, Option<NodeId>>,
                            dist: map<NodeId, nat>)
  {
    start in cameFrom && cameFrom[start] == None && dist.Keys == cameFrom.Keys && dist[start] == 0 &&
    forall v :: v in cameFrom && v != start ==>
      cameFrom[v].Some? && cameFrom[v].value in cameFrom && v in Succ(g, cameFrom[v].value) &&
      dist[v] == dist[cameFrom[v].value] + 1
  }

  /** The frontier holds discovered nodes in nondecreasing distance, spanning at most
      two consecutive distances. */
  ghost predicate FrontierOk(cameFrom: map<NodeId, Option<NodeId>>, dist: map<NodeId, nat>, F: seq<NodeId>)
  {
    dist.Keys == cameFrom.Keys &&
    (forall i :: 0 <= i < |F| ==> F[i] in cameFrom) &&
    (forall i, j :: 0 <= i <= j < |F| ==> dist[F[i]] <= dist[F[j]]) &&
    (forall i :: 0 <= i < |F| ==> dist[F[i]] <= dist[F[0]] + 1)
  }

  /** Every discovered node that has left the frontier has all its successors
      discovered and lies no farther than any frontier node. */
  ghost predicate ClosedBehind(g: Graph, cameFrom: map<NodeId, Option<NodeId>>, dist: map<NodeId, nat>,
                               F: seq<NodeId>)
    requires dist.Keys == cameFrom.Keys && forall i :: 0 <= i < |F| ==> F[i] in cameFrom
  {
    forall v :: v in cameFrom && v !in F ==>
      (forall k :: 0 <= k < |Succ(g, v)| ==> Succ(g, v)[k] in cameFrom) &&
      (forall i :: 0 <= i < |F| ==> dist[v] <= dist[F[i]])
  }

  /** No path from the start is shorter than a recorded distance. */
  ghost predicate NoShortcut(g: Graph, start: NodeId, cameFrom: map<NodeId, Option<NodeId>>,
                             dist: map<NodeId, nat>)
    requires dist.Keys == cameFrom.Keys
  {
    forall v, p :: v in cameFrom && IsPath(g, p, start, v) ==> dist[v] <= |p| - 1
  }

  /** The state of the search with frontier F. */
  ghost predicate BfsState(g: Graph, start: NodeId, cameFrom: map<NodeId, Option<NodeId>>,
                           dist: map<NodeId, nat>, F: seq<NodeId>)
  {
    ParentsOk(g, start, cameFrom, dist) && FrontierOk(cameFrom, dist, F) &&
    ClosedBehind(g, cameFrom, dist, F) && NoShortcut(g, start, cameFrom, dist)
  }

  lemma BfsInit(g: Graph, start: NodeId)
    ensures BfsState(g, start, map[start := None], map[start := 0], [start])
  {
  }

  /** An undiscovered node is at least one edge farther than the head of the frontier. */
  lemma NewNodeDistance(g: Graph, start: NodeId, cameFrom: map<NodeId, Option<NodeId>>,
                        dist: map<NodeId, nat>, F: seq<NodeId>, w: NodeId, p: Path)
    requires BfsState(g, start, cameFrom, dist, F) && |F| > 0
    requires w !in cameFrom && IsPath(g, p, start, w)
    ensures dist[F[0]] + 1 <= |p| - 1
  {
    var i := ExitEdge(p, cameFrom.Keys);
    PathPrefix(g, p, start, i);
    assert p[i] in F;
    var k :| 0 <= k < |F| && F[k] == p[i];
    assert dist[F[0]] <= dist[F[k]];
  }

  /** Discovering a successor of the frontier head keeps the search state. */
  lemma BfsDiscover(g: Graph, start: NodeId, cameFrom: map<NodeId, Option<NodeId>>,
                    dist: map<NodeId, nat>, F: seq<NodeId>, w: NodeId)
    requires BfsState(g, start, cameFrom, dist, F) && |F| > 0
    requires w !in cameFrom && w in Succ(g, F[0])
    ensures BfsState(g, start, cameFrom[w := Some(F[0])], dist[w := dist[F[0]] + 1], F + [w])
  {
    DiscoverParents(g, start, cameFrom, dist, F, w);
    DiscoverFrontier(cameFrom, dist, F, w);
    DiscoverClosed(g, cameFrom, dist, F, w);
    DiscoverNoShortcut(g, start, cameFrom, dist, F, w);
  }

  lemma DiscoverParents(g: Graph, start: NodeId, cameFrom: map<NodeId, Option<NodeId>>,
                        dist: map<NodeId, nat>, F: seq<NodeId>, w: NodeId)
    requires ParentsOk(g, start, cameFrom, dist) && |F| > 0 && F[0] in cameFrom
    requires w !in cameFrom && w in Succ(g, F[0])
    ensures ParentsOk(g, start, cameFrom[w := Some(F[0])], dist[w := dist[F[0]] + 1])
  {
  }

  lemma DiscoverFrontier(cameFrom: map<NodeId, Option<NodeId>>, dist: map<NodeId, nat>, F: seq<NodeId>, w: NodeId)
    requires FrontierOk(cameFrom, dist, F) && |F| > 0 && w !in cameFrom
    ensures FrontierOk(cameFrom[w := Some(F[0])], dist[w := dist[F[0]] + 1], F + [w])
  {
    var F' := F + [w];
    assert forall i :: 0 <= i < |F| ==> F'[i] == F[i];
    assert F'[|F|] == w;
  }

  lemma DiscoverClosed(g: Graph, cameFrom: map<NodeId, Option<NodeId>>, dist: map<NodeId, nat>,
                       F: seq<NodeId>, w: NodeId)
    requires FrontierOk(cameFrom, dist, F) && |F| > 0 && ClosedBehind(g, cameFrom, dist, F)
    requires w !in cameFrom
    ensures FrontierOk(cameFrom[w := Some(F[0])], dist[w := dist[F[0]] + 1], F + [w])
    ensures ClosedBehind(g, cameFrom[w := Some(F[0])], dist[w := dist[F[0]] + 1], F + [w])
  {
    DiscoverFrontier(cameFrom, dist, F, w);
    var cf, d, F' := cameFrom[w := Some(F[0])], dist[w := dist[F[0]] + 1], F + [w];
    forall v | v in cf && v !in F'
      ensures (forall k :: 0 <= k < |Succ(g, v)| ==> Succ(g, v)[k] in cf) &&
              (forall i :: 0 <= i < |F'| ==> d[v] <= d[F'[i]])
    {
      assert v in cameFrom && v !in F;
      forall i | 0 <= i < |F'|
        ensures d[v] <= d[F'[i]]
      {
        if i < |F| {
          assert F'[i] == F[i];
        } else {
          assert F'[i] == w;
          assert dist[v] <= dist[F[0]];
        }
      }
    }
  }

  lemma DiscoverNoShortcut(g: Graph, start: NodeId, cameFrom: map<NodeId, Option<NodeId>>,
                           dist: map<NodeId, nat>, F: seq<NodeId>, w: NodeId)
    requires BfsState(g, start, cameFrom, dist, F) && |F| > 0 && w !in cameFrom
    ensures NoShortcut(g, start, cameFrom[w := Some(F[0])], dist[w := dist[F[0]] + 1])
  {
    var cf, d := cameFrom[w := Some(F[0])], dist[w := dist[F[0]] + 1];
    forall v, p | v in cf && IsPath(g, p, start, v)
      ensures d[v] <= |p| - 1
    {
      if v == w {
        NewNodeDistance(g, start, cameFrom, dist, F, w, p);
      }
    }
  }

  /** Once every successor of the head is discovered, the head leaves the frontier. */
  lemma BfsFinishHead(g: Graph, start: NodeId, cameFrom: map<NodeId, Option<NodeId>>,
                      dist: map<NodeId, nat>, F: seq<NodeId>)
    requires BfsState(g, start, cameFrom, dist, F) && |F| > 0
    requires forall k :: 0 <= k < |Succ(g, F[0])| ==> Succ(g, F[0])[k] in cameFrom
    ensures BfsState(g, start, cameFrom, dist, F[1..])
  {
    var F' := F[1..];
    forall v | v in cameFrom && v !in F'
      ensures forall i :: 0 <= i < |F'| ==> dist[v] <= dist[F'[i]]
    {
      if v != F[0] {
        assert v !in F;
      }
    }
  }

  /** With an empty frontier every node reachable from the start has been discovered. */
  lemma BfsComplete(g: Graph, start: NodeId, cameFrom: map<NodeId, Option<NodeId>>,
                    dist: map<NodeId, nat>, t: NodeId)
    requires BfsState(g, start, cameFrom, dist, [])
    ensures Reachable(g, start, t) ==> t in cameFrom
  {
    if p :| IsPath(g, p, start, t) {
      if t !in cameFrom {
        var i := ExitEdge(p, cameFrom.Keys);
        assert p[i + 1] in Succ(g, p[i]);
      }
    }
  }

  /** One step of breadth_first_search: the head of the frontier is dequeued and each
      successor in nbrs not yet in came_from is queued with the head as its parent. */
  method VisitSuccessors(ghost g: Graph, start: NodeId, cameFrom: map<NodeId, Option<NodeId>>,
                         ghost dist: map<NodeId, nat>, frontier: seq<NodeId>, nbrs: seq<NodeId>)
    returns (cameFrom': map<NodeId, Option<NodeId>>, ghost dist': map<NodeId, nat>, frontier': seq<NodeId>)
    requires BfsState(g, start, cameFrom, dist, frontier) && frontier != []
    requires nbrs == Succ(g, frontier[0])
    ensures BfsState(g, start, cameFrom', dist', frontier')
    ensures cameFrom' == Discover(cameFrom, nbrs, frontier[0])
    ensures frontier' == frontier[1..] + Queued(cameFrom, nbrs, frontier[0])
    ensures cameFrom.Keys <= cameFrom'.Keys
    ensures forall n :: n in cameFrom' && n !in cameFrom ==> n in nbrs && n in frontier'
    ensures |frontier| - 1 <= |frontier'| && frontier'[..|frontier| - 1] == frontier[1..]
    ensures |frontier'| + |cameFrom.Keys| == |frontier| - 1 + |cameFrom'.Keys|
  {
    var queue := frontier;
    cameFrom', dist' := cameFrom, dist;
    for i := 0 to |nbrs|
      invariant Visiting(g, frontier, cameFrom.Keys, nbrs, i, queue, cameFrom')
      invariant BfsState(g, start, cameFrom', dist', queue)
      invariant cameFrom' == Discover(cameFrom, nbrs[..i], frontier[0])
      invariant queue == frontier + Queued(cameFrom, nbrs[..i], frontier[0])
    {
      ghost var q, cf := queue, cameFrom';
      queue, cameFrom', dist' := VisitOne(g, start, frontier, cameFrom.Keys, nbrs, i, queue, cameFrom', dist');
      DiscoverStep(cameFrom, nbrs, i, frontier[0], frontier, cf, q, cameFrom', queue);
    }
    TakeAll(nbrs);
    BfsFinishHead(g, start, cameFrom', dist', queue);
    frontier' := queue[1..];
    DropFirstAppend(frontier, Queued(cameFrom, nbrs, frontier[0]));
    QueueExtendsDequeue(frontier, cameFrom.Keys, nbrs, queue, cameFrom'.Keys);
  }

  /** One visited candidate extends Discover and Queued by that candidate. */
  lemma DiscoverStep(cameFrom: map<NodeId, Option<NodeId>>, ns: seq<NodeId>, i: nat, head: NodeId,
                     frontier: seq<NodeId>, cf: map<NodeId, Option<NodeId>>, q: seq<NodeId>,
                     cf': map<NodeId, Option<NodeId>>, q': seq<NodeId>)
    requires i < |ns|
    requires cf == Discover(cameFrom, ns[..i], head) && q == frontier + Queued(cameFrom, ns[..i], head)
    requires ns[i] in cf ==> q' == q && cf' == cf
    requires ns[i] !in cf ==> q' == q + [ns[i]] && cf' == cf[ns[i] := Some(head)]
    ensures cf' == Discover(cameFrom, ns[..i + 1], head)
    ensures q' == frontier + Queued(cameFrom, ns[..i + 1], head)
  {
    assert ns[..i + 1][..i] == ns[..i];
    if ns[i] !in cf {
      AppendAssoc(frontier, Queued(cameFrom, ns[..i], head), [ns[i]]);
    }
  }

  /** Discover and Queued over one more candidate. */
  lemma DiscoverSnoc(cameFrom: map<NodeId, Option<NodeId>>, ns: seq<NodeId>, i: nat, head: NodeId)
    requires i < |ns|
    ensures var before := Discover(cameFrom, ns[..i], head);
            Discover(cameFrom, ns[..i + 1], head) == (if ns[i] in before then before else before[ns[i] := Some(head)]) &&
            Queued(cameFrom, ns[..i + 1], head) == Queued(cameFrom, ns[..i], head) + (if ns[i] in before then [] else [ns[i]])
  {
    assert ns[..i + 1][..i] == ns[..i];
  }

  lemma QueuedNone(cameFrom: map<NodeId, Option<NodeId>>, ns: seq<NodeId>, head: NodeId, order: seq<NodeId>)
    ensures Discover(cameFrom, ns[..0], head) == cameFrom
    ensures order + Queued(cameFrom, ns[..0], head) == order
  {
    assert ns[..0] == [];
  }

  /** Queued, appended to an order, over one more candidate. */
  lemma QueuedSnoc(cameFrom: map<NodeId, Option<NodeId>>, ns: seq<NodeId>, i: nat, head: NodeId, order: seq<NodeId>)
    requires i < |ns|
    ensures order + Queued(cameFrom, ns[..i + 1], head) ==
            if ns[i] in Discover(cameFrom, ns[..i], head) then order + Queued(cameFrom, ns[..i], head)
            else (order + Queued(cameFrom, ns[..i], head)) + [ns[i]]
  {
    DiscoverSnoc(cameFrom, ns, i, head);
    AppendAssoc(order, Queued(cameFrom, ns[..i], head), [ns[i]]);
  }

  /** came_from after the candidates ns of the head are visited: each one not yet
      discovered gets the head as its parent. */
  function Discover(cameFrom: map<NodeId, Option<NodeId>>, ns: seq<NodeId>, head: NodeId): map<NodeId, Option<NodeId>>
  {
    if ns == [] then cameFrom
    else
      var before := Discover(cameFrom, ns[..|ns| - 1], head);
      if ns[|ns| - 1] in before then before else before[ns[|ns| - 1] := Some(head)]
  }

  /** The candidates of ns queued while they are visited, in order. */
  function Queued(cameFrom: map<NodeId, Option<NodeId>>, ns: seq<NodeId>, head: NodeId): seq<NodeId>
  {
    if ns == [] then []
    else
      var before := Discover(cameFrom, ns[..|ns| - 1], head);
      Queued(cameFrom, ns[..|ns| - 1], head) + (if ns[|ns| - 1] in before then [] else [ns[|ns| - 1]])
  }

  /** The state of the inner loop of a step after the first i candidates: the queue
      extends the frontier, the search state holds with its head still first, and
      every candidate so far is discovered. */
  ghost predicate Visiting(g: Graph, frontier: seq<NodeId>, K: set<NodeId>, nbrs: seq<NodeId>,
                           i: nat, queue: seq<NodeId>, cameFrom: map<NodeId, Option<NodeId>>)
  {
    frontier != [] && i <= |nbrs| && nbrs == Succ(g, frontier[0]) &&
    QueueExtends(frontier, K, nbrs, queue, cameFrom.Keys) && queue[0] == frontier[0] &&
    forall k :: 0 <= k < i ==> nbrs[k] in cameFrom
  }

  /** One turn of the inner loop: candidate i, if undiscovered, is queued with the
      head as its parent. */
  method VisitOne(ghost g: Graph, start: NodeId, frontier: seq<NodeId>, ghost K: set<NodeId>, nbrs: seq<NodeId>,
                  i: nat, queue: seq<NodeId>, cameFrom: map<NodeId, Option<NodeId>>, ghost dist: map<NodeId, nat>)
    returns (queue': seq<NodeId>, cameFrom': map<NodeId, Option<NodeId>>, ghost dist': map<NodeId, nat>)
    requires Visiting(g, frontier, K, nbrs, i, queue, cameFrom) && i < |nbrs|
    requires BfsState(g, start, cameFrom, dist, queue)
    ensures Visiting(g, frontier, K, nbrs, i + 1, queue', cameFrom')
    ensures BfsState(g, start, cameFrom', dist', queue')
    ensures nbrs[i] in cameFrom ==> queue' == queue && cameFrom' == cameFrom
    ensures nbrs[i] !in cameFrom ==> queue' == queue + [nbrs[i]] && cameFrom' == cameFrom[nbrs[i] := Some(queue[0])]
  {
    var next := nbrs[i];
    if next !in cameFrom {
      BfsDiscover(g, start, cameFrom, dist, queue, next);
      VisitNew(g, frontier, K, nbrs, i, queue, cameFrom);
      queue' := queue + [next];
      cameFrom' := cameFrom[next := Some(queue[0])];
      dist' := dist[next := dist[queue[0]] + 1];
    } else {
      VisitKnown(g, frontier, K, nbrs, i, queue, cameFrom);
      queue', cameFrom', dist' := queue, cameFrom, dist;
    }
  }

  lemma VisitNew(g: Graph, frontier: seq<NodeId>, K: set<NodeId>, nbrs: seq<NodeId>,
                 i: nat, queue: seq<NodeId>, cameFrom: map<NodeId, Option<NodeId>>)
    requires Visiting(g, frontier, K, nbrs, i, queue, cameFrom) && i < |nbrs|
    requires nbrs[i] !in cameFrom
    ensures Visiting(g, frontier, K, nbrs, i + 1, queue + [nbrs[i]], cameFrom[nbrs[i] := Some(queue[0])])
  {
    QueueExtendsSnoc(frontier, K, nbrs, queue, cameFrom.Keys, nbrs[i]);
    PrefixCovered(nbrs, i, cameFrom, cameFrom[nbrs[i] := Some(queue[0])]);
  }

  lemma VisitKnown(g: Graph, frontier: seq<NodeId>, K: set<NodeId>, nbrs: seq<NodeId>,
                   i: nat, queue: seq<NodeId>, cameFrom: map<NodeId, Option<NodeId>>)
    requires Visiting(g, frontier, K, nbrs, i, queue, cameFrom) && i < |nbrs|
    requires nbrs[i] in cameFrom
    ensures Visiting(g, frontier, K, nbrs, i + 1, queue, cameFrom)
  {
    PrefixCovered(nbrs, i, cameFrom, cameFrom);
  }

  /** The bookkeeping of the inner loop: the queue is the old frontier followed by the
      newly discovered nodes, each a candidate, one per new key. */
  ghost predicate QueueExtends(frontier: seq<NodeId>, K: set<NodeId>, nbrs: seq<NodeId>,
                               queue: seq<NodeId>, K': set<NodeId>)
  {
    |frontier| <= |queue| && queue[..|frontier|] == frontier &&
    K <= K' && (forall n :: n in K' && n !in K ==> n in nbrs && n in queue[|frontier|..]) &&
    |queue| + |K| == |frontier| + |K'|
  }

  lemma QueueExtendsSnoc(frontier: seq<NodeId>, K: set<NodeId>, nbrs: seq<NodeId>,
                         queue: seq<NodeId>, K': set<NodeId>, next: NodeId)
    requires QueueExtends(frontier, K, nbrs, queue, K') && next !in K' && next in nbrs
    ensures QueueExtends(frontier, K, nbrs, queue + [next], K' + {next})
  {
    var q := queue + [next];
    assert q[..|frontier|] == frontier;
    assert q[|frontier|..] == queue[|frontier|..] + [next];
  }

  lemma QueueExtendsDequeue(frontier: seq<NodeId>, K: set<NodeId>, nbrs: seq<NodeId>,
                            queue: seq<NodeId>, K': set<NodeId>)
    requires QueueExtends(frontier, K, nbrs, queue, K') && frontier != []
    ensures K <= K'
    ensures forall n :: n in K' && n !in K ==> n in nbrs && n in queue[1..]
    ensures |frontier| - 1 <= |queue[1..]| && queue[1..][..|frontier| - 1] == frontier[1..]
    ensures |queue[1..]| + |K| == |frontier| - 1 + |K'|
  {
    forall n | n in K' && n !in K
      ensures n in queue[1..]
    {
      var j :| |frontier| <= j < |queue| && queue[j] == n;
      assert queue[1..][j - 1] == n;
    }
  }

  lemma PrefixCovered(ns: seq<NodeId>, i: nat, m: map<NodeId, Option<NodeId>>, m': map<NodeId, Option<NodeId>>)
    requires i < |ns| && (forall k :: 0 <= k < i ==> ns[k] in m) && m.Keys <= m'.Keys && ns[i] in m'
    ensures forall k :: 0 <= k < i + 1 ==> ns[k] in m'
  {
  }

  /** Discovering nodes of U leaves fewer of U undiscovered. */
  lemma FewerUndiscovered(U: set<NodeId>, K: set<NodeId>, K': set<NodeId>)
    requires K <= K' <= U
    ensures |U - K'| <= |U - K| && (K' != K ==> |U - K'| < |U - K|)
  {
    var A, B := U - K', U - K;
    assert B == A + (B - A) && A * (B - A) == {};
    if K' != K {
      var x :| x in K' && x !in K;
      assert x in B - A;
    }
  }

  /** Following came_from back from a discovered node reaches the start: the chain of
      parents, read forwards, is a path. */
  lemma {:induction false} PathToDiscovered(g: Graph, start: NodeId, cameFrom: map<NodeId, Option<NodeId>>,
                                            dist: map<NodeId, nat>, v: NodeId) returns (p: Path)
    requires ParentsOk(g, start, cameFrom, dist) && v in cameFrom
    ensures IsPath(g, p, start, v) && |p| == dist[v] + 1
    decreases dist[v]
  {
    if v == start {
      p := [start];
    } else {
      var u := cameFrom[v].value;
      assert u in cameFrom && v in Succ(g, u) && dist[v] == dist[u] + 1;
      var q := PathToDiscovered(g, start, cameFrom, dist, u);
      WalkSnoc(g, q, v);
      p := q + [v];
    }
  }

  lemma WalkSnoc(g: Graph, q: Path, v: NodeId)
    requires |q| > 0 && IsWalk(g, q) && v in Succ(g, q[|q| - 1])
    ensures IsWalk(g, q + [v])
  {
    var p := q + [v];
    forall i | 0 <= i < |p| - 1
      ensures p[i + 1] in Succ(g, p[i])
    {
      if i < |q| - 1 {
        assert p[i] == q[i] && p[i + 1] == q[i + 1];
      }
    }
  }

  /** A finished search discovers exactly the nodes reachable from the start. */
  lemma DiscoveredIsReachable(g: Graph, start: NodeId, cameFrom: map<NodeId, Option<NodeId>>,
                              dist: map<NodeId, nat>)
    requires BfsState(g, start, cameFrom, dist, [])
    ensures forall t :: t in cameFrom <==> Reachable(g, start, t)
  {
    forall t
      ensures t in cameFrom <==> Reachable(g, start, t)
    {
      if t in cameFrom {
        var _ := PathToDiscovered(g, start, cameFrom, dist, t);
      }
      BfsComplete(g, start, cameFrom, dist, t);
    }
  }

  // ---------------------------------------------------------------------------
  // The order of a breadth-first search

  /** The index of the first node of order whose successor list holds v, or |order|
      when none does. */
  function FirstLister(g: Graph, order: seq<NodeId>, v: NodeId): (p: nat)
    ensures p <= |order|
    ensures p < |order| ==> v in Succ(g, order[p])
    ensures forall q :: 0 <= q < p ==> v !in Succ(g, order[q])
  {
    if order == [] then 0
    else if v in Succ(g, order[0]) then 0
    else 1 + FirstLister(g, order[1..], v)
  }

  /** The position of the first occurrence of v in s. */
  function IndexOf(s: seq<NodeId>, v: NodeId): (k: nat)
    requires v in s
    ensures k < |s| && s[k] == v
    ensures forall j :: 0 <= j < k ==> s[j] != v
  {
    if s[0] == v then 0 else 1 + IndexOf(s[1..], v)
  }

  /** Both u and v are listed by a node of order, and u is queued before v: its first
      lister comes earlier, or the two share a first lister that lists u earlier. */
  predicate ListedBefore(g: Graph, order: seq<NodeId>, u: NodeId, v: NodeId)
  {
    var pu, pv := FirstLister(g, order, u), FirstLister(g, order, v);
    pu < |order| && pv < |order| &&
    (pu < pv || (pu == pv && IndexOf(Succ(g, order[pu]), u) < IndexOf(Succ(g, order[pu]), v)))
  }

  /** order starts at start and holds each node once; every later node is first listed
      by an earlier one, and the later nodes come in the order they are queued. */
  ghost predicate ListerOrdered(g: Graph, start: NodeId, order: seq<NodeId>)
  {
    |order| > 0 && order[0] == start && NoDup(order) &&
    (forall j :: 0 < j < |order| ==> FirstLister(g, order, order[j]) < j) &&
    (forall i, j :: 0 < i < j < |order| ==> ListedBefore(g, order, order[i], order[j]))
  }

  /** Every successor of the first d nodes of order is in order. */
  ghost predicate ClosedUpTo(g: Graph, order: seq<NodeId>, d: nat)
    requires d <= |order|
  {
    forall p, k :: 0 <= p < d && 0 <= k < |Succ(g, order[p])| ==> Succ(g, order[p])[k] in order
  }

  /** order is the order in which a breadth-first search from start dequeues the
      nodes: a FIFO queue serves them in the order they were queued, and a node is
      queued when the first node listing it is dequeued. */
  ghost predicate IsBfsOrder(g: Graph, start: NodeId, order: seq<NodeId>)
  {
    ListerOrdered(g, start, order) && ClosedUpTo(g, order, |order|)
  }

  /** came_from holds the nodes of order, each other than start with its first lister
      as its parent. */
  ghost predicate ParentIsLister(g: Graph, start: NodeId, cameFrom: map<NodeId, Option<NodeId>>,
                                 order: seq<NodeId>)
  {
    (forall v :: v in cameFrom <==> v in order) &&
    (forall v :: v in cameFrom && v != start ==>
       FirstLister(g, order, v) < |order| && cameFrom[v] == Some(order[FirstLister(g, order, v)]))
  }

  /** Every node of p after the first has the node before it as its first lister:
      p runs along the tree of the search with dequeue order order. */
  ghost predicate InBfsTree(g: Graph, order: seq<NodeId>, p: Path)
  {
    forall i :: 0 < i < |p| ==>
      FirstLister(g, order, p[i]) < |order| && order[FirstLister(g, order, p[i])] == p[i - 1]
  }

  /** The discovery order after d nodes have been dequeued. */
  ghost predicate OrderState(g: Graph, start: NodeId, cameFrom: map<NodeId, Option<NodeId>>,
                             order: seq<NodeId>, d: nat)
  {
    ListerOrdered(g, start, order) && ParentIsLister(g, start, cameFrom, order) &&
    d <= |order| && ClosedUpTo(g, order, d) &&
    (forall j :: 0 < j < |order| ==> FirstLister(g, order, order[j]) < d)
  }

  /** The discovery order while the successors of the head order[d] are visited, the
      first i of them so far; the nodes queued from the head are among those i. */
  ghost predicate OrderVisiting(g: Graph, start: NodeId, cameFrom: map<NodeId, Option<NodeId>>,
                                order: seq<NodeId>, d: nat, i: nat)
  {
    OrderAtHead(g, start, cameFrom, order, d) && HeadVisited(g, order, d, i)
  }

  /** The part of OrderVisiting that does not depend on the candidate index. */
  ghost predicate OrderAtHead(g: Graph, start: NodeId, cameFrom: map<NodeId, Option<NodeId>>,
                              order: seq<NodeId>, d: nat)
  {
    ListerOrdered(g, start, order) && ParentIsLister(g, start, cameFrom, order) &&
    d < |order| && ClosedUpTo(g, order, d) &&
    (forall j :: 0 < j < |order| ==> FirstLister(g, order, order[j]) <= d)
  }

  /** The first i candidates of order[d] are in the order, and so is every node
      order[d] listed first, at a position before i. */
  ghost predicate HeadVisited(g: Graph, order: seq<NodeId>, d: nat, i: nat)
    requires d < |order|
  {
    i <= |Succ(g, order[d])| &&
    (forall k :: 0 <= k < i ==> Succ(g, order[d])[k] in order) &&
    (forall j :: 0 < j < |order| && FirstLister(g, order, order[j]) == d ==>
       IndexOf(Succ(g, order[d]), order[j]) < i)
  }

  /** A candidate already in the order adds nothing to it. */
  lemma HeadVisitedKnown(g: Graph, order: seq<NodeId>, d: nat, i: nat)
    requires d < |order| && HeadVisited(g, order, d, i) && i < |Succ(g, order[d])|
    requires Succ(g, order[d])[i] in order
    ensures HeadVisited(g, order, d, i + 1)
  {
  }

  lemma OrderInit(g: Graph, start: NodeId)
    ensures OrderState(g, start, map[start := None], [start], 0)
  {
  }

  lemma OrderBeginVisit(g: Graph, start: NodeId, cameFrom: map<NodeId, Option<NodeId>>,
                        order: seq<NodeId>, d: nat)
    requires OrderState(g, start, cameFrom, order, d) && d < |order|
    ensures OrderVisiting(g, start, cameFrom, order, d, 0)
  {
  }

  lemma OrderEndVisit(g: Graph, start: NodeId, cameFrom: map<NodeId, Option<NodeId>>,
                      order: seq<NodeId>, d: nat)
    requires d < |order| && OrderVisiting(g, start, cameFrom, order, d, |Succ(g, order[d])|)
    ensures OrderState(g, start, cameFrom, order, d + 1)
  {
  }

  /** A candidate already discovered changes nothing but the count. */
  lemma OrderVisitKnown(g: Graph, start: NodeId, cameFrom: map<NodeId, Option<NodeId>>,
                        order: seq<NodeId>, d: nat, i: nat)
    requires OrderVisiting(g, start, cameFrom, order, d, i) && i < |Succ(g, order[d])|
    requires Succ(g, order[d])[i] in cameFrom
    ensures OrderVisiting(g, start, cameFrom, order, d, i + 1)
  {
    HeadVisitedKnown(g, order, d, i);
  }

  /** The least index whose successor list holds v is its first lister. */
  lemma FirstListerIs(g: Graph, order: seq<NodeId>, v: NodeId, p: nat)
    requires p < |order| && v in Succ(g, order[p])
    requires forall q :: 0 <= q < p ==> v !in Succ(g, order[q])
    ensures FirstLister(g, order, v) == p
  {
  }

  /** The first occurrence of v at k. */
  lemma IndexOfIs(s: seq<NodeId>, v: NodeId, k: nat)
    requires k < |s| && s[k] == v && forall j :: 0 <= j < k ==> s[j] != v
    ensures IndexOf(s, v) == k
  {
  }

  /** Every node listed by order keeps its first lister when order grows. */
  lemma FirstListersSnoc(g: Graph, order: seq<NodeId>, w: NodeId)
    ensures forall v :: FirstLister(g, order, v) < |order| ==>
              FirstLister(g, order + [w], v) == FirstLister(g, order, v)
  {
    forall v | FirstLister(g, order, v) < |order|
      ensures FirstLister(g, order + [w], v) == FirstLister(g, order, v)
    {
      var p := FirstLister(g, order, v);
      assert (order + [w])[p] == order[p];
      forall q | 0 <= q < p
        ensures v !in Succ(g, (order + [w])[q])
      {
        assert (order + [w])[q] == order[q];
      }
      FirstListerIs(g, order + [w], v, p);
    }
  }

  /** A candidate of the head that is not yet discovered is first listed by the head:
      the nodes dequeued before it had all their successors discovered. */
  lemma NewFirstLister(g: Graph, order: seq<NodeId>, d: nat, i: nat)
    requires d < |order| && ClosedUpTo(g, order, d) && i < |Succ(g, order[d])|
    requires Succ(g, order[d])[i] !in order
    ensures FirstLister(g, order + [Succ(g, order[d])[i]], Succ(g, order[d])[i]) == d
  {
    var w := Succ(g, order[d])[i];
    var o' := order + [w];
    assert o'[d] == order[d];
    forall q | 0 <= q < d
      ensures w !in Succ(g, o'[q])
    {
      assert o'[q] == order[q];
    }
    FirstListerIs(g, o', w, d);
  }

  /** Queueing an undiscovered candidate of the head keeps the order's shape. */
  lemma VisitNewOrdered(g: Graph, start: NodeId, cameFrom: map<NodeId, Option<NodeId>>,
                        order: seq<NodeId>, d: nat, i: nat)
    requires OrderVisiting(g, start, cameFrom, order, d, i) && i < |Succ(g, order[d])|
    requires Succ(g, order[d])[i] !in cameFrom
    ensures ListerOrdered(g, start, order + [Succ(g, order[d])[i]])
  {
    var nbrs := Succ(g, order[d]);
    var w := nbrs[i];
    var o' := order + [w];
    NoDupSnoc(order, w);
    NewFirstLister(g, order, d, i);
    FirstListersSnoc(g, order, w);
    IndexOfIs(nbrs, w, i);
    assert o'[d] == order[d];
    forall j | 0 < j < |o'|
      ensures FirstLister(g, o', o'[j]) < j
    {
      if j < |order| {
        assert o'[j] == order[j];
      }
    }
    forall a, b | 0 < a < b < |o'|
      ensures ListedBefore(g, o', o'[a], o'[b])
    {
      assert o'[a] == order[a];
      if b < |order| {
        assert o'[b] == order[b];
        assert ListedBefore(g, order, order[a], order[b]);
      }
    }
  }

  /** Queueing an undiscovered candidate with the head as parent keeps the parents
      the first listers. */
  lemma VisitNewParents(g: Graph, start: NodeId, cameFrom: map<NodeId, Option<NodeId>>,
                        order: seq<NodeId>, d: nat, i: nat)
    requires OrderVisiting(g, start, cameFrom, order, d, i) && i < |Succ(g, order[d])|
    requires Succ(g, order[d])[i] !in cameFrom
    ensures ParentIsLister(g, start, cameFrom[Succ(g, order[d])[i] := Some(order[d])],
                           order + [Succ(g, order[d])[i]])
  {
    var w := Succ(g, order[d])[i];
    NewFirstLister(g, order, d, i);
    FirstListersSnoc(g, order, w);
    assert (order + [w])[d] == order[d];
  }

  /** An undiscovered candidate is queued with the head as its parent: the head is the
      first node listing it, and it comes after everything queued before it. */
  lemma OrderVisitNew(g: Graph, start: NodeId, cameFrom: map<NodeId, Option<NodeId>>,
                      order: seq<NodeId>, d: nat, i: nat)
    requires OrderVisiting(g, start, cameFrom, order, d, i) && i < |Succ(g, order[d])|
    requires Succ(g, order[d])[i] !in cameFrom
    ensures OrderVisiting(g, start, cameFrom[Succ(g, order[d])[i] := Some(order[d])],
                          order + [Succ(g, order[d])[i]], d, i + 1)
  {
    var nbrs := Succ(g, order[d]);
    var w := nbrs[i];
    var o' := order + [w];
    VisitNewOrdered(g, start, cameFrom, order, d, i);
    VisitNewParents(g, start, cameFrom, order, d, i);
    NewFirstLister(g, order, d, i);
    FirstListersSnoc(g, order, w);
    IndexOfIs(nbrs, w, i);
    assert o'[d] == order[d];
    forall j | 0 < j < |o'|
      ensures FirstLister(g, o', o'[j]) <= d
      ensures FirstLister(g, o', o'[j]) == d ==> IndexOf(nbrs, o'[j]) < i + 1
    {
      if j < |order| {
        assert o'[j] == order[j];
      }
    }
  }

  /** One candidate w of the head: queued with the head as parent if undiscovered. */
  lemma OrderVisitOne(g: Graph, start: NodeId, cameFrom: map<NodeId, Option<NodeId>>,
                      cameFrom': map<NodeId, Option<NodeId>>, order: seq<NodeId>, d: nat, i: nat, w: NodeId)
    returns (order': seq<NodeId>)
    requires OrderVisiting(g, start, cameFrom, order, d, i) && i < |Succ(g, order[d])|
    requires w == Succ(g, order[d])[i]
    requires cameFrom' == if w in cameFrom then cameFrom else cameFrom[w := Some(order[d])]
    ensures order' == if w in cameFrom then order else order + [w]
    ensures OrderVisiting(g, start, cameFrom', order', d, i + 1)
  {
    if w in cameFrom {
      OrderVisitKnown(g, start, cameFrom, order, d, i);
      order' := order;
    } else {
      OrderVisitNew(g, start, cameFrom, order, d, i);
      order' := order + [w];
    }
  }

  /** The order after the first i successors of order[d] are visited: the nodes that
      Queued lists are appended, with the parents that Discover gives them. */
  lemma {:induction false} OrderVisitPrefix(g: Graph, start: NodeId, cameFrom: map<NodeId, Option<NodeId>>,
                                            order: seq<NodeId>, d: nat, i: nat)
    returns (order': seq<NodeId>)
    requires OrderState(g, start, cameFrom, order, d) && d < |order| && i <= |Succ(g, order[d])|
    ensures order' == order + Queued(cameFrom, Succ(g, order[d])[..i], order[d])
    ensures OrderVisiting(g, start, Discover(cameFrom, Succ(g, order[d])[..i], order[d]), order', d, i)
    decreases i
  {
    var S := Succ(g, order[d]);
    if i == 0 {
      OrderBeginVisit(g, start, cameFrom, order, d);
      QueuedNone(cameFrom, S, order[d], order);
      order' := order;
    } else {
      var o := OrderVisitPrefix(g, start, cameFrom, order, d, i - 1);
      DiscoverSnoc(cameFrom, S, i - 1, order[d]);
      QueuedSnoc(cameFrom, S, i - 1, order[d], order);
      var cf := Discover(cameFrom, S[..i - 1], order[d]);
      order' := OrderVisitOne(g, start, cf, Discover(cameFrom, S[..i], order[d]), o, d, i - 1, S[i - 1]);
    }
  }

  /** One step of the outer loop keeps the order state: order[d] is dequeued and the
      successors it discovers are appended to the order. */
  lemma OrderStep(g: Graph, start: NodeId, cameFrom: map<NodeId, Option<NodeId>>, order: seq<NodeId>, d: nat)
    requires OrderState(g, start, cameFrom, order, d) && d < |order|
    ensures OrderState(g, start, Discover(cameFrom, Succ(g, order[d]), order[d]),
                       order + Queued(cameFrom, Succ(g, order[d]), order[d]), d + 1)
  {
    var S := Succ(g, order[d]);
    TakeAll(S);
    var order' := OrderVisitPrefix(g, start, cameFrom, order, d, |S|);
    OrderEndVisit(g, start, Discover(cameFrom, S, order[d]), order + Queued(cameFrom, S, order[d]), d);
  }

  /** A search state whose frontier is the tail of its dequeue order past the d nodes
      dequeued so far. */
  ghost predicate OrderedSearch(g: Graph, start: NodeId, cameFrom: map<NodeId, Option<NodeId>>,
                                dist: map<NodeId, nat>, frontier: seq<NodeId>, order: seq<NodeId>, d: nat)
  {
    BfsState(g, start, cameFrom, dist, frontier) && OrderState(g, start, cameFrom, order, d) &&
    frontier == order[d..]
  }

  /** The order kept beside the frontier of the outer loop: VisitSuccessors' result,
      which Discover and Queued describe, keeps the frontier the tail of the order. */
  lemma OrderAfterVisit(g: Graph, start: NodeId, cameFrom: map<NodeId, Option<NodeId>>, order: seq<NodeId>,
                        d: nat, frontier: seq<NodeId>, cameFrom': map<NodeId, Option<NodeId>>,
                        frontier': seq<NodeId>)
    returns (order': seq<NodeId>)
    requires OrderState(g, start, cameFrom, order, d) && frontier == order[d..] && frontier != []
    requires cameFrom' == Discover(cameFrom, Succ(g, frontier[0]), frontier[0])
    requires frontier' == frontier[1..] + Queued(cameFrom, Succ(g, frontier[0]), frontier[0])
    ensures OrderState(g, start, cameFrom', order', d + 1) && frontier' == order'[d + 1..]
  {
    OrderStep(g, start, cameFrom, order, d);
    order' := order + Queued(cameFrom, Succ(g, order[d]), order[d]);
    DequeueAppend(order, d, frontier, Queued(cameFrom, Succ(g, order[d]), order[d]));
  }

  /** p follows came_from: each node after the first has its predecessor as parent. */
  ghost predicate FollowsParents(cameFrom: map<NodeId, Option<NodeId>>, p: Path)
  {
    forall i :: 0 < i < |p| ==> p[i] in cameFrom && cameFrom[p[i]] == Some(p[i - 1])
  }

  /** A path that follows the parents of a search whose parents are first listers lies
      in the tree of that order. */
  lemma TreePath(g: Graph, start: NodeId, cameFrom: map<NodeId, Option<NodeId>>, order: seq<NodeId>, p: Path)
    requires ParentIsLister(g, start, cameFrom, order) && start in cameFrom && cameFrom[start] == None
    requires FollowsParents(cameFrom, p)
    ensures InBfsTree(g, order, p)
  {
    forall i | 0 < i < |p|
      ensures FirstLister(g, order, p[i]) < |order| && order[FirstLister(g, order, p[i])] == p[i - 1]
    {
      assert cameFrom[p[i]] == Some(p[i - 1]);
    }
  }

  /** A finished search: the order is a breadth-first order and came_from its tree. */
  lemma OrderDone(g: Graph, start: NodeId, cameFrom: map<NodeId, Option<NodeId>>,
                  order: seq<NodeId>)
    requires OrderState(g, start, cameFrom, order, |order|)
    ensures IsBfsOrder(g, start, order) && ParentIsLister(g, start, cameFrom, order)
  {
  }

  /** Two orders that agree up to k give every node first listed before k the same
      first lister. */
  lemma FirstListerAgree(g: Graph, o1: seq<NodeId>, o2: seq<NodeId>, k: nat, v: NodeId)
    requires k <= |o1| && k <= |o2| && o1[..k] == o2[..k] && FirstLister(g, o1, v) < k
    ensures FirstLister(g, o2, v) == FirstLister(g, o1, v)
  {
    var p := FirstLister(g, o1, v);
    assert o2[p] == o1[..k][p];
    forall q | 0 <= q < p
      ensures v !in Succ(g, o2[q])
    {
      assert o2[q] == o1[..k][q];
    }
    FirstListerIs(g, o2, v, p);
  }

  /** Two orders that agree up to k agree on which of two nodes first listed before k
      is queued first. */
  lemma ListedBeforeAgree(g: Graph, o1: seq<NodeId>, o2: seq<NodeId>, k: nat, u: NodeId, v: NodeId)
    requires k <= |o1| && k <= |o2| && o1[..k] == o2[..k]
    requires FirstLister(g, o1, u) < k && FirstLister(g, o1, v) < k
    ensures ListedBefore(g, o1, u, v) == ListedBefore(g, o2, u, v)
  {
    FirstListerAgree(g, o1, o2, k, u);
    FirstListerAgree(g, o1, o2, k, v);
    assert o2[FirstLister(g, o1, u)] == o1[..k][FirstLister(g, o1, u)];
  }

  /** A closed order holds every successor of its nodes. */
  lemma ClosedMember(g: Graph, order: seq<NodeId>, p: nat, v: NodeId)
    requires ClosedUpTo(g, order, |order|) && p < |order| && v in Succ(g, order[p])
    ensures v in order
  {
    var m := IndexOf(Succ(g, order[p]), v);
  }

  /** A breadth-first order has nothing beyond another one it begins with: the next
      node would be listed by a node of the shorter order, which is closed. */
  lemma BfsOrderNotLonger(g: Graph, start: NodeId, o1: seq<NodeId>, o2: seq<NodeId>)
    requires IsBfsOrder(g, start, o1) && IsBfsOrder(g, start, o2)
    requires |o1| <= |o2| && o2[..|o1|] == o1
    ensures |o2| == |o1|
  {
    if |o1| < |o2| {
      var k := |o1|;
      var p := FirstLister(g, o2, o2[k]);
      assert o2[p] == o1[p];
      ClosedMember(g, o1, p, o2[k]);
    }
  }

  /** Where two breadth-first orders first differ, the node of the one comes later in
      the other. */
  lemma LaterInOther(g: Graph, o1: seq<NodeId>, o2: seq<NodeId>, k: nat) returns (m: nat)
    requires NoDup(o1) && ClosedUpTo(g, o2, |o2|)
    requires 0 < k < |o1| && k < |o2| && o1[..k] == o2[..k] && o1[k] != o2[k]
    ensures k < m < |o2| && o2[m] == o1[k]
    requires FirstLister(g, o1, o1[k]) < k
    ensures FirstLister(g, o2, o1[k]) == FirstLister(g, o1, o1[k])
  {
    var a := o1[k];
    var p := FirstLister(g, o1, a);
    FirstListerAgree(g, o1, o2, k, a);
    assert o2[p] == o1[..k][p];
    ClosedMember(g, o2, p, a);
    NotInSharedPrefix(o1, o2, k);
    m :| 0 <= m < |o2| && o2[m] == a;
  }

  /** The k-th node of an order without repeats is not among the first k of an order
      that begins the same way. */
  lemma NotInSharedPrefix(o1: seq<NodeId>, o2: seq<NodeId>, k: nat)
    requires NoDup(o1) && k < |o1| && k <= |o2| && o1[..k] == o2[..k]
    ensures forall j :: 0 <= j < k ==> o2[j] != o1[k]
  {
    forall j | 0 <= j < k
      ensures o2[j] != o1[k]
    {
      assert o2[j] == o2[..k][j] == o1[..k][j];
    }
  }

  /** Two breadth-first orders that agree before k agree at k: otherwise each would
      queue its own k-th node before the other's. */
  lemma BfsOrderStep(g: Graph, start: NodeId, o1: seq<NodeId>, o2: seq<NodeId>, k: nat)
    requires IsBfsOrder(g, start, o1) && IsBfsOrder(g, start, o2)
    requires k < |o1| && k < |o2| && o1[..k] == o2[..k]
    ensures o1[k] == o2[k]
  {
    if k > 0 && o1[k] != o2[k] {
      var ma := LaterInOther(g, o1, o2, k);
      var mb := LaterInOther(g, o2, o1, k);
      assert ListedBefore(g, o1, o1[k], o1[mb]);
      assert ListedBefore(g, o2, o2[k], o2[ma]);
      ListedBeforeAgree(g, o2, o1, k, o2[k], o1[k]);
    }
  }

  lemma {:induction false} BfsOrderAgree(g: Graph, start: NodeId, o1: seq<NodeId>, o2: seq<NodeId>, k: nat)
    requires IsBfsOrder(g, start, o1) && IsBfsOrder(g, start, o2)
    requires k <= |o1| && k <= |o2| && o1[..k] == o2[..k]
    ensures o1 == o2
    decreases |o1| - k
  {
    if k == |o1| || k == |o2| {
      if k == |o1| {
        assert o2[..|o1|] == o1;
        BfsOrderNotLonger(g, start, o1, o2);
      } else {
        assert o1[..|o2|] == o2;
        BfsOrderNotLonger(g, start, o2, o1);
      }
      assert o1 == o1[..k] && o2 == o2[..k];
    } else {
      BfsOrderStep(g, start, o1, o2, k);
      assert o1[..k + 1] == o1[..k] + [o1[k]] && o2[..k + 1] == o2[..k] + [o2[k]];
      BfsOrderAgree(g, start, o1, o2, k + 1);
    }
  }

  /** The dequeue order of a breadth-first search is determined by the graph and the
      start, and with the first-lister parents so is its tree. */
  lemma BfsOrderUnique(g: Graph, start: NodeId, o1: seq<NodeId>, o2: seq<NodeId>)
    requires IsBfsOrder(g, start, o1) && IsBfsOrder(g, start, o2)
    ensures o1 == o2
  {
    BfsOrderAgree(g, start, o1, o2, 0);
  }

  // ---------------------------------------------------------------------------
  // Enumeration of simple paths

  /** The extensions of p by each candidate not already on p, in candidate order. */
  function ChildrenWith(p: Path, cands: seq<NodeId>): (r: seq<Path>)
    ensures |r| <= |cands|
  {
    if cands == [] then []
    else (if cands[0] in p then [] else [p + [cands[0]]]) + ChildrenWith(p, cands[1..])
  }

  /** The one-edge extensions of p that stay simple, in the order of p's last node's
      successor list. */
  function Children(g: Graph, p: Path): seq<Path>
  {
    if p == [] then [] else ChildrenWith(p, Succ(g, p[|p| - 1]))
  }

  /** The children of every path of X, in the order of X. */
  function ChildrenAll(g: Graph, X: seq<Path>): seq<Path>
  {
    if X == [] then [] else Children(g, X[0]) + ChildrenAll(g, X[1..])
  }

  /** The simple paths from start with k edges, in the order a FIFO queue meets them. */
  function Level(g: Graph, start: NodeId, k: nat): seq<Path>
  {
    if k == 0 then [[start]] else ChildrenAll(g, Level(g, start, k - 1))
  }

  /** Levels 0 to k, one after the other. */
  function UpTo(g: Graph, start: NodeId, k: nat): seq<Path>
  {
    if k == 0 then Level(g, start, 0) else UpTo(g, start, k - 1) + Level(g, start, k)
  }

  /** Every node a path from start can visit. */
  function NodesOf(g: Graph, start: NodeId): set<NodeId>
  {
    {start} + set n, i | n in g && 0 <= i < |g[n]| :: g[n][i]
  }

  /** The order in which the queue of find_paths dequeues paths: every level up to the
      first that must be empty. */
  function Order(g: Graph, start: NodeId): seq<Path>
  {
    UpTo(g, start, |NodesOf(g, start)|)
  }

  /** The dequeued paths that end at goal, in dequeue order. */
  function EndingAt(X: seq<Path>, goal: NodeId): (r: seq<Path>)
  {
    if X == [] then []
    else (if |X[0]| > 0 && X[0][|X[0]| - 1] == goal then [X[0]] else []) + EndingAt(X[1..], goal)
  }

  /** The paths kept are exactly the dequeued paths whose last node is goal. */
  lemma {:induction false} EndingAtMembers(X: seq<Path>, goal: NodeId, p: Path)
    ensures p in EndingAt(X, goal) <==> p in X && |p| > 0 && p[|p| - 1] == goal
  {
    if X != [] {
      EndingAtMembers(X[1..], goal, p);
      assert X == [X[0]] + X[1..];
    }
  }

  predicate SortedByLength(X: seq<Path>)
  {
    forall i, j :: 0 <= i < j < |X| ==> |X[i]| <= |X[j]|
  }

  /** Python's sorted(paths, key=len): a stable insertion sort on length. */
  function SortByLength(X: seq<Path>): (r: seq<Path>)
    ensures SortedByLength(r) && multiset(r) == multiset(X)
  {
    if X == [] then []
    else
      assert X == [X[0]] + X[1..];
      InsertByLength(X[0], SortByLength(X[1..]))
  }

  /** Puts p before the first path at least as long as it. */
  function InsertByLength(p: Path, X: seq<Path>): (r: seq<Path>)
    requires SortedByLength(X)
    ensures SortedByLength(r) && multiset(r) == multiset(X) + multiset{p}
    ensures |r| == |X| + 1 && (r[0] == p || (X != [] && r[0] == X[0]))
  {
    if X == [] || |p| <= |X[0]| then
      SortedCons(p, X);
      [p] + X
    else
      SortedTail(X);
      var rest := InsertByLength(p, X[1..]);
      InsertBehind(p, X, rest);
      [X[0]] + rest
  }

  lemma SortedTail(X: seq<Path>)
    requires SortedByLength(X) && X != []
    ensures SortedByLength(X[1..])
  {
    SortedSuffix(X, 1);
  }

  /** p goes behind the head of X when it is strictly longer. */
  lemma InsertBehind(p: Path, X: seq<Path>, rest: seq<Path>)
    requires SortedByLength(X) && X != [] && |X[0]| < |p|
    requires SortedByLength(rest) && multiset(rest) == multiset(X[1..]) + multiset{p}
    requires |rest| == |X| && (rest[0] == p || (|X| > 1 && rest[0] == X[1]))
    ensures SortedByLength([X[0]] + rest) && multiset([X[0]] + rest) == multiset(X) + multiset{p}
  {
    assert X == [X[0]] + X[1..];
    assert |X[0]| <= |rest[0]|;
    SortedCons(X[0], rest);
  }

  lemma SortedCons(x: Path, X: seq<Path>)
    requires SortedByLength(X) && (X != [] ==> |x| <= |X[0]|)
    ensures SortedByLength([x] + X)
  {
    var Y := [x] + X;
    forall i, j | 0 <= i < j < |Y|
      ensures |Y[i]| <= |Y[j]|
    {
      if i == 0 {
        assert |X[0]| <= |X[j - 1]| || j == 1;
      } else {
        assert |Y[i]| == |X[i - 1]| && |Y[j]| == |X[j - 1]|;
      }
    }
  }

  lemma {:induction false} ChildrenWithSound(p: Path, cands: seq<NodeId>, q: Path)
    requires q in ChildrenWith(p, cands)
    ensures |q| == |p| + 1 && q[..|p|] == p && q[|p|] in cands && q[|p|] !in p
  {
    if q !in ChildrenWith(p, cands[1..]) {
      assert q == p + [cands[0]];
    } else {
      ChildrenWithSound(p, cands[1..], q);
    }
  }

  lemma {:induction false} ChildrenWithComplete(p: Path, cands: seq<NodeId>, n: NodeId)
    requires n in cands && n !in p
    ensures p + [n] in ChildrenWith(p, cands)
  {
    if cands[0] != n {
      ChildrenWithComplete(p, cands[1..], n);
    }
  }

  lemma {:induction false} ChildrenAllConcat(g: Graph, A: seq<Path>, B: seq<Path>)
    ensures ChildrenAll(g, A + B) == ChildrenAll(g, A) + ChildrenAll(g, B)
  {
    if A != [] {
      assert (A + B)[0] == A[0] && (A + B)[1..] == A[1..] + B;
      ChildrenAllConcat(g, A[1..], B);
    } else {
      assert A + B == B;
    }
  }

  lemma {:induction false} ChildrenAllParent(g: Graph, X: seq<Path>, q: Path) returns (j: nat)
    requires q in ChildrenAll(g, X)
    ensures j < |X| && X[j] in X && q in Children(g, X[j])
  {
    assert X != [];
    var C, R := Children(g, X[0]), ChildrenAll(g, X[1..]);
    assert ChildrenAll(g, X) == C + R;
    if q in C {
      j := 0;
    } else {
      assert q in R;
      var k := ChildrenAllParent(g, X[1..], q);
      assert X[1..][k] == X[k + 1];
      j := k + 1;
    }
  }

  lemma {:induction false} ChildrenAllComplete(g: Graph, X: seq<Path>, j: nat, q: Path)
    requires j < |X| && q in Children(g, X[j])
    ensures q in ChildrenAll(g, X)
  {
    if j > 0 {
      ChildrenAllComplete(g, X[1..], j - 1, q);
    }
  }

  /** What a FIFO queue of paths produces: the start path, then the children of every
      path so far, in order. */
  lemma {:induction false} UpToUnfolds(g: Graph, start: NodeId, k: nat)
    ensures [[start]] + ChildrenAll(g, UpTo(g, start, k)) == UpTo(g, start, k + 1)
  {
    if k > 0 {
      var U, L := UpTo(g, start, k - 1), Level(g, start, k);
      UpToUnfolds(g, start, k - 1);
      assert UpTo(g, start, k) == U + L;
      ChildrenAllConcat(g, U, L);
      assert Level(g, start, k + 1) == ChildrenAll(g, L);
      AppendAssoc([[start]], ChildrenAll(g, U), ChildrenAll(g, L));
    }
  }

  /** The walk nodes of every path from start lie in NodesOf. */
  lemma WalkInNodesOf(g: Graph, start: NodeId, p: Path)
    requires |p| > 0 && p[0] == start && IsWalk(g, p)
    ensures forall i :: 0 <= i < |p| ==> p[i] in NodesOf(g, start)
  {
    forall i | 0 <= i < |p|
      ensures p[i] in NodesOf(g, start)
    {
      if i > 0 {
        var n := p[i - 1];
        assert p[i] in Succ(g, n);
        var j :| 0 <= j < |g[n]| && g[n][j] == p[i];
      }
    }
  }

  /** Every member of level k is a simple path from start with k edges. */
  lemma {:induction false} LevelSound(g: Graph, start: NodeId, k: nat, p: Path)
    requires p in Level(g, start, k)
    ensures |p| == k + 1 && p[0] == start && IsWalk(g, p) && NoDup(p)
  {
    if k > 0 {
      var q := LevelParent(g, start, k, p);
      LevelSound(g, start, k - 1, q);
      LevelSoundStep(g, start, k, q, p);
    } else {
      assert p == [start];
    }
  }

  /** A child of a simple path from start with k - 1 edges is one with k edges. */
  lemma LevelSoundStep(g: Graph, start: NodeId, k: nat, q: Path, p: Path)
    requires k > 0 && |q| == k && q[0] == start && IsWalk(g, q) && NoDup(q) && p in Children(g, q)
    ensures |p| == k + 1 && p[0] == start && IsWalk(g, p) && NoDup(p)
  {
    ChildSimple(g, q, p);
  }

  /** Every member of a level past the first is a child of a member of the level before. */
  lemma LevelParent(g: Graph, start: NodeId, k: nat, p: Path) returns (q: Path)
    requires k > 0 && p in Level(g, start, k)
    ensures q in Level(g, start, k - 1) && p in Children(g, q)
  {
    var L := Level(g, start, k - 1);
    var j := ChildrenAllParent(g, L, p);
    q := L[j];
  }

  /** A child of a simple walk is a simple walk one node longer, from the same node. */
  lemma ChildSimple(g: Graph, q: Path, p: Path)
    requires IsWalk(g, q) && NoDup(q) && p in Children(g, q)
    ensures q != [] && |p| == |q| + 1 && p[0] == q[0] && IsWalk(g, p) && NoDup(p)
  {
    ParentOfChild(g, q, p);
    ExtendSimple(g, q, p[|q|]);
  }

  /** Every simple path from start with k edges is a member of level k. */
  lemma {:induction false} LevelComplete(g: Graph, start: NodeId, k: nat, p: Path)
    requires |p| == k + 1 && p[0] == start && IsWalk(g, p) && NoDup(p)
    ensures p in Level(g, start, k)
  {
    if k > 0 {
      var q := p[..k];
      SimplePrefix(g, p, k);
      LevelComplete(g, start, k - 1, q);
      var L := Level(g, start, k - 1);
      assert Level(g, start, k) == ChildrenAll(g, L);
      var j :| 0 <= j < |L| && L[j] == q;
      ChildrenWithComplete(q, Succ(g, q[k - 1]), p[k]);
      assert p in Children(g, L[j]);
      ChildrenAllComplete(g, L, j, p);
    } else {
      assert p == [start];
    }
  }

  /** Dropping the last node of a simple walk leaves a simple walk that the last node
      extends. */
  lemma SimplePrefix(g: Graph, p: Path, k: nat)
    requires 0 < k && |p| == k + 1 && IsWalk(g, p) && NoDup(p)
    ensures IsWalk(g, p[..k]) && NoDup(p[..k]) && p[..k][0] == p[0]
    ensures p == p[..k] + [p[k]] && p[k] in Succ(g, p[..k][k - 1]) && p[k] !in p[..k]
  {
    assert p == p[..k] + [p[k]];
    assert p[k] in Succ(g, p[k - 1]);
  }

  /** Appending a successor of the last node that is not yet on a simple walk keeps it one. */
  lemma ExtendSimple(g: Graph, q: Path, n: NodeId)
    requires |q| > 0 && IsWalk(g, q) && NoDup(q)
    requires n in Succ(g, q[|q| - 1]) && n !in q
    ensures IsWalk(g, q + [n]) && NoDup(q + [n])
  {
    var p := q + [n];
    assert forall i :: 0 <= i < |q| ==> p[i] == q[i];
  }

  /** A repetition-free sequence drawn from S is no longer than S is large. */
  lemma {:induction false} NoDupWithin(s: seq<NodeId>, S: set<NodeId>)
    requires NoDup(s) && forall i :: 0 <= i < |s| ==> s[i] in S
    ensures |s| <= |S|
  {
    if s != [] {
      NoDupWithin(s[1..], S - {s[0]});
    }
  }

  /** No simple path has more nodes than NodesOf, so that level is empty. */
  lemma LastLevelEmpty(g: Graph, start: NodeId)
    ensures Level(g, start, |NodesOf(g, start)|) == []
  {
    var m := |NodesOf(g, start)|;
    if Level(g, start, m) != [] {
      var p := Level(g, start, m)[0];
      LevelSound(g, start, m, p);
      WalkInNodesOf(g, start, p);
      NoDupWithin(p, NodesOf(g, start));
      assert false;
    }
  }

  /** The order is a fixpoint of "start path, then the children of everything". */
  lemma OrderIsFixpoint(g: Graph, start: NodeId)
    ensures Order(g, start) == [[start]] + ChildrenAll(g, Order(g, start))
  {
    var m := |NodesOf(g, start)|;
    UpToUnfolds(g, start, m);
    LastLevelEmpty(g, start);
    assert Level(g, start, m + 1) == [];
  }

  lemma {:induction false} UpToLengths(g: Graph, start: NodeId, k: nat)
    ensures forall i :: 0 <= i < |UpTo(g, start, k)| ==> 1 <= |UpTo(g, start, k)[i]| <= k + 1
    ensures SortedByLength(UpTo(g, start, k))
  {
    var B := Level(g, start, k);
    forall i | 0 <= i < |B|
      ensures |B[i]| == k + 1
    {
      LevelSound(g, start, k, B[i]);
    }
    if k > 0 {
      UpToLengths(g, start, k - 1);
      var A := UpTo(g, start, k - 1);
      assert UpTo(g, start, k) == A + B;
    }
  }

  /** Dequeue order visits paths by nondecreasing length. */
  lemma OrderSorted(g: Graph, start: NodeId)
    ensures SortedByLength(Order(g, start))
    ensures forall i :: 0 <= i < |Order(g, start)| ==> |Order(g, start)[i]| > 0
  {
    UpToLengths(g, start, |NodesOf(g, start)|);
  }

  lemma {:induction false} UpToMembers(g: Graph, start: NodeId, k: nat, p: Path)
    ensures p in UpTo(g, start, k) <==>
            1 <= |p| <= k + 1 && p[0] == start && IsWalk(g, p) && NoDup(p)
  {
    if p in Level(g, start, k) {
      LevelSound(g, start, k, p);
    }
    if |p| == k + 1 && p[0] == start && IsWalk(g, p) && NoDup(p) {
      LevelComplete(g, start, k, p);
    }
    if k > 0 {
      UpToMembers(g, start, k - 1, p);
    }
  }

  /** The paths in the order are exactly the simple paths from start. */
  lemma OrderMembers(g: Graph, start: NodeId, p: Path)
    ensures p in Order(g, start) <==> |p| > 0 && p[0] == start && IsWalk(g, p) && NoDup(p)
  {
    UpToMembers(g, start, |NodesOf(g, start)|, p);
    if |p| > 0 && p[0] == start && IsWalk(g, p) && NoDup(p) {
      WalkInNodesOf(g, start, p);
      NoDupWithin(p, NodesOf(g, start));
    }
  }

  // ---------------------------------------------------------------------------
  // The queue of find_paths

  /** The children of a single path. */
  lemma ChildrenAllSingle(g: Graph, x: Path)
    ensures ChildrenAll(g, [x]) == Children(g, x)
  {
    assert [x][1..] == [];
  }

  /** Filtering candidates one at a time from the front of the list, as the loop over
      the neighbour list does. */
  lemma {:induction false} ChildrenWithSnoc(p: Path, cands: seq<NodeId>, n: NodeId)
    ensures ChildrenWith(p, cands + [n]) == ChildrenWith(p, cands) + (if n in p then [] else [p + [n]])
  {
    if cands == [] {
      assert ([] + [n])[1..] == [];
    } else {
      assert (cands + [n])[0] == cands[0] && (cands + [n])[1..] == cands[1..] + [n];
      ChildrenWithSnoc(p, cands[1..], n);
    }
  }

  lemma {:induction false} EndingAtSnoc(X: seq<Path>, x: Path, goal: NodeId)
    ensures EndingAt(X + [x], goal) ==
            EndingAt(X, goal) + (if |x| > 0 && x[|x| - 1] == goal then [x] else [])
  {
    var tail := if |x| > 0 && x[|x| - 1] == goal then [x] else [];
    if X == [] {
      assert ([] + [x])[1..] == [];
    } else {
      var head := if |X[0]| > 0 && X[0][|X[0]| - 1] == goal then [X[0]] else [];
      ConsSnoc(X, x);
      EndingAtSnoc(X[1..], x, goal);
      assert EndingAt(X + [x], goal) == head + (EndingAt(X[1..], goal) + tail);
      AppendAssoc(head, EndingAt(X[1..], goal), tail);
    }
  }

  /** The start path followed by the children of the first c dequeued paths is a
      prefix of the order: the queue never runs ahead of it. */
  lemma QueueIsPrefix(g: Graph, start: NodeId, c: nat)
    requires c <= |Order(g, start)|
    ensures var X := [[start]] + ChildrenAll(g, Order(g, start)[..c]);
            |X| <= |Order(g, start)| && X == Order(g, start)[..|X|]
  {
    var O := Order(g, start);
    OrderIsFixpoint(g, start);
    assert O == O[..c] + O[c..];
    ChildrenAllConcat(g, O[..c], O[c..]);
  }

  /** A sequence of nonempty paths, sorted by length, that is its own set of children
      is empty: each child is one node longer than its parent. */
  lemma OwnChildrenEmpty(g: Graph, Y: seq<Path>)
    requires SortedByLength(Y) && Y == ChildrenAll(g, Y)
    ensures Y == []
  {
    if Y != [] {
      var j := ChildrenAllParent(g, Y, Y[0]);
      assert Y[j] != [];
      ChildrenWithSound(Y[j], Succ(g, Y[j][|Y[j]| - 1]), Y[0]);
      assert false;
    }
  }

  /** When the queue runs dry after c paths, those are the whole order. */
  lemma QueueDrained(g: Graph, start: NodeId, c: nat)
    requires c <= |Order(g, start)|
    requires Order(g, start)[..c] == [[start]] + ChildrenAll(g, Order(g, start)[..c])
    ensures c == |Order(g, start)|
  {
    var O := Order(g, start);
    var P, Y := O[..c], O[c..];
    OrderIsFixpoint(g, start);
    SplitAt(O, c);
    ChildrenAllConcat(g, P, Y);
    AppendAssoc([[start]], ChildrenAll(g, P), ChildrenAll(g, Y));
    assert P + Y == P + ChildrenAll(g, Y);
    AppendCancel(P, Y, ChildrenAll(g, Y));
    OrderSorted(g, start);
    SortedSuffix(O, c);
    OwnChildrenEmpty(g, Y);
  }

  lemma SortedSuffix(X: seq<Path>, c: nat)
    requires c <= |X| && SortedByLength(X)
    ensures SortedByLength(X[c..])
  {
    var Y := X[c..];
    forall i, j | 0 <= i < j < |Y|
      ensures |Y[i]| <= |Y[j]|
    {
      assert |Y[i]| == |X[c + i]| && |Y[j]| == |X[c + j]|;
    }
  }

  // ---------------------------------------------------------------------------
  // Properties of the result of find_paths

  /** What find_paths returns: the dequeued paths ending at goal, stably sorted by length. */
  function AllPaths(g: Graph, start: NodeId, goal: NodeId): seq<Path>
  {
    SortByLength(EndingAt(Order(g, start), goal))
  }

  /** A stable sort changes nothing on a sequence that is already sorted. */
  lemma {:induction false} SortSortedIsIdentity(X: seq<Path>)
    requires SortedByLength(X)
    ensures SortByLength(X) == X
  {
    if X != [] {
      SortSortedIsIdentity(X[1..]);
      assert X == [X[0]] + X[1..];
    }
  }

  lemma {:induction false} EndingAtSorted(X: seq<Path>, goal: NodeId)
    requires SortedByLength(X)
    ensures SortedByLength(EndingAt(X, goal))
  {
    if X != [] {
      EndingAtSorted(X[1..], goal);
      var R := EndingAt(X[1..], goal);
      forall k | 0 <= k < |R|
        ensures |X[0]| <= |R[k]|
      {
        EndingAtMembers(X[1..], goal, R[k]);
      }
    }
  }

  lemma {:induction false} EndingAtNoDup(X: seq<Path>, goal: NodeId)
    requires NoDup(X)
    ensures NoDup(EndingAt(X, goal))
  {
    if X != [] {
      EndingAtNoDup(X[1..], goal);
      var R := EndingAt(X[1..], goal);
      assert X[0] !in X[1..];
      EndingAtMembers(X[1..], goal, X[0]);
      NoDupAppend([X[0]], R);
    }
  }

  lemma NoDupAppend(A: seq<Path>, B: seq<Path>)
    requires NoDup(A) && NoDup(B) && forall x :: x in A ==> x !in B
    ensures NoDup(A + B)
  {
    var C := A + B;
    forall i, j | 0 <= i < j < |C|
      ensures C[i] != C[j]
    {
      if j >= |A| && i < |A| {
        assert C[i] in A && C[j] == B[j - |A|];
      }
    }
  }

  lemma {:induction false} ChildrenWithNoDup(p: Path, cands: seq<NodeId>)
    requires NoDup(cands)
    ensures NoDup(ChildrenWith(p, cands))
  {
    if cands != [] {
      ChildrenWithNoDup(p, cands[1..]);
      var R := ChildrenWith(p, cands[1..]);
      forall q | q in R
        ensures q != p + [cands[0]]
      {
        ChildrenWithSound(p, cands[1..], q);
        assert q[|p|] in cands[1..];
        assert (p + [cands[0]])[|p|] == cands[0];
      }
      NoDupAppend(if cands[0] in p then [] else [p + [cands[0]]], R);
    }
  }

  predicate SuccNoDup(g: Graph)
  {
    forall n :: n in g ==> NoDup(g[n])
  }

  lemma SuccNoDupUpdate(g: Graph, n: NodeId, l: seq<NodeId>)
    requires SuccNoDup(g) && NoDup(l)
    ensures SuccNoDup(g[n := l])
  {
  }

  lemma {:induction false} ChildrenAllNoDup(g: Graph, X: seq<Path>)
    requires SuccNoDup(g) && NoDup(X)
    ensures NoDup(ChildrenAll(g, X))
  {
    if X != [] {
      var A, B := Children(g, X[0]), ChildrenAll(g, X[1..]);
      assert ChildrenAll(g, X) == A + B;
      ChildrenAllNoDup(g, X[1..]);
      ChildrenNoDup(g, X[0]);
      forall q | q in A
        ensures q !in B
      {
        if q in B {
          var j := ChildrenAllParent(g, X[1..], q);
          ParentOfChild(g, X[0], q);
          ParentOfChild(g, X[j + 1], q);
        }
      }
      NoDupAppend(A, B);
    }
  }

  /** A child is its parent with one more node. */
  lemma ParentOfChild(g: Graph, x: Path, q: Path)
    requires q in Children(g, x)
    ensures x != [] && |q| == |x| + 1 && q[..|x|] == x
    ensures q == x + [q[|x|]] && q[|x|] in Succ(g, x[|x| - 1]) && q[|x|] !in x
  {
    ChildrenWithSound(x, Succ(g, x[|x| - 1]), q);
    SplitLast(q);
  }

  lemma ChildrenNoDup(g: Graph, x: Path)
    requires SuccNoDup(g)
    ensures NoDup(Children(g, x))
  {
    if x != [] {
      ChildrenWithNoDup(x, Succ(g, x[|x| - 1]));
    }
  }

  lemma {:induction false} UpToNoDup(g: Graph, start: NodeId, k: nat)
    requires SuccNoDup(g)
    ensures NoDup(UpTo(g, start, k)) && NoDup(Level(g, start, k))
  {
    if k > 0 {
      UpToNoDup(g, start, k - 1);
      ChildrenAllNoDup(g, Level(g, start, k - 1));
      forall q | q in UpTo(g, start, k - 1)
        ensures q !in Level(g, start, k)
      {
        UpToMembers(g, start, k - 1, q);
        if q in Level(g, start, k) {
          LevelSound(g, start, k, q);
        }
      }
      NoDupAppend(UpTo(g, start, k - 1), Level(g, start, k));
    }
  }

  /** find_paths returns every simple path from start to goal, each exactly once when no
      successor list repeats a node, ordered by length; nothing when goal is unreachable. */
  lemma AllPathsCorrect(g: Graph, start: NodeId, goal: NodeId)
    ensures forall p :: p in AllPaths(g, start, goal) <==> IsSimplePath(g, p, start, goal)
    ensures SortedByLength(AllPaths(g, start, goal))
    ensures AllPaths(g, start, goal) == EndingAt(Order(g, start), goal)
    ensures SuccNoDup(g) ==> NoDup(AllPaths(g, start, goal))
    ensures !Reachable(g, start, goal) ==> AllPaths(g, start, goal) == []
  {
    AllPathsUnsorted(g, start, goal);
    AllPathsMembers(g, start, goal);
    if SuccNoDup(g) {
      UpToNoDup(g, start, |NodesOf(g, start)|);
      EndingAtNoDup(Order(g, start), goal);
    }
    if AllPaths(g, start, goal) != [] {
      assert IsSimplePath(g, AllPaths(g, start, goal)[0], start, goal);
    }
  }

  /** The order is sorted by length already, so sorting the kept paths changes nothing. */
  lemma AllPathsUnsorted(g: Graph, start: NodeId, goal: NodeId)
    ensures SortedByLength(EndingAt(Order(g, start), goal))
    ensures AllPaths(g, start, goal) == EndingAt(Order(g, start), goal)
  {
    OrderSorted(g, start);
    EndingAtSorted(Order(g, start), goal);
    SortSortedIsIdentity(EndingAt(Order(g, start), goal));
  }

  lemma AllPathsMembers(g: Graph, start: NodeId, goal: NodeId)
    ensures forall p :: p in EndingAt(Order(g, start), goal) <==> IsSimplePath(g, p, start, goal)
  {
    forall p
      ensures p in EndingAt(Order(g, start), goal) <==> IsSimplePath(g, p, start, goal)
    {
      OrderMembers(g, start, p);
      EndingAtMembers(Order(g, start), goal, p);
    }
  }
}
