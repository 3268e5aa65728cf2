/** The divergence checker: explore, collect the internal edges, and look for the
    first state on a cycle of them. */
module DivergenceCheck {
  import opened Options
  import opened Lts
  import opened ReachSearch
  import opened Graphs
  import Closures
  import ClosureCycle
  import TauCycles
  import Tarjan

  function TauTargets<S>(next: seq<(Label, S)>): seq<S> {
    if next == [] then []
    else (if next[0].0 == TAU then [next[0].1] else []) + TauTargets(next[1..])
  }

  function Positions<S(==)>(targets: seq<S>, index: map<S, nat>): seq<nat> {
    if targets == [] then []
    else (if targets[0] in index then [index[targets[0]]] else []) + Positions(targets[1..], index)
  }

  lemma {:induction false} PositionsAreNeighbors<S>(next: seq<(Label, S)>, index: map<S, nat>)
    ensures Positions(TauTargets(next), index) == ClosureCycle.Neighbors(next, index)
  {
    if next != [] {
      PositionsAreNeighbors(next[1..], index);
      if next[0].0 == TAU {
        assert TauTargets(next)[1..] == TauTargets(next[1..]);
      } else {
        assert TauTargets(next) == TauTargets(next[1..]);
      }
    }
  }

  method BuildAdjacency<S(==,!new)>(l: Lts<S>, order: seq<S>, tauEdges: map<S, seq<S>>, index: map<S, nat>) returns (adj: Graph)
    requires forall s | s in tauEdges :: tauEdges[s] == TauTargets(l.next(s))
    requires forall s | s in order && s !in tauEdges :: TauTargets(l.next(s)) == []
    ensures adj == ClosureCycle.TauGraph(l, order, index)
  {
    adj := [];
    for i := 0 to |order|
      invariant |adj| == i && forall k | 0 <= k < i :: adj[k] == ClosureCycle.Neighbors(l.next(order[k]), index)
    {
      PositionsAreNeighbors(l.next(order[i]), index);
      assert order[i] in order;
      adj := adj + [if order[i] in tauEdges then Positions(tauEdges[order[i]], index) else []];
    }
  }

  ghost predicate ReachableDivergence<S(!new)>(l: Lts<S>) {
    exists s :: Reachable(l, s) && DivergesFrom(l, s)
  }

  lemma ReachableIsTauClosed<S(!new)>(l: Lts<S>, u: set<S>, x: iset<S>)
    requires Bounded(l, u) && forall s :: s in x <==> Reachable(l, s)
    ensures TauClosed(l, x) && forall s | s in x :: s in u
  {
    forall s, t | s in x && Edge(l, s, TAU, t) ensures t in x {
      var w :| IsWalk(l, w, s);
      WalkThen(l, w, s, TAU, t);
    }
    forall s | s in x ensures s in u {
      var w :| IsWalk(l, w, s);
      RunInUniverse(l, u, w.states, w.labels);
    }
  }

  /** On the reachable states the index graph is cyclic exactly when an infinite
      internal run is reachable. */
  lemma CyclicIffDivergence<S(!new)>(l: Lts<S>, u: set<S>, order: seq<S>, index: map<S, nat>)
    requires Bounded(l, u) && ClosureCycle.Indexes(order, index) && forall s :: s in order <==> Reachable(l, s)
    ensures Cyclic(ClosureCycle.TauGraph(l, order, index)) <==> ReachableDivergence(l)
  {
    hide Reachable, ClosureCycle.TauGraph, Cyclic, DivergesFrom, HasTauCycle;
    var x := Closures.MembersOf(order);
    assert forall s :: s in x <==> s in order;
    ReachableIsTauClosed(l, u, x);
    ClosureCycle.CycleCorrespondence(l, order, index);
    TauCycles.TauCycleIffDiverges(l, u, x);
  }

  /** The state lies on a cycle of internal actions. */
  ghost predicate Loops<S(!new)>(l: Lts<S>, s: S) {
    exists q :: |q| >= 2 && TauRun(l, q) && q[0] == s && q[|q| - 1] == s
  }

  /** The erasure of a run to such a state, with no such state in fewer raw steps, and
      a final "tau". */
  ghost predicate ShortestLoop<S(!new)>(l: Lts<S>, events: Trace) {
    exists w, s :: IsWalk(l, w, s) && Loops(l, s) && events == Erase(w.labels) + [TAU]
              && forall w', s' | IsWalk(l, w', s') && Loops(l, s') :: |w.labels| <= |w'.labels|
  }

  lemma {:induction false} LoopStays<S(!new)>(l: Lts<S>, x: iset<S>, q: seq<S>, i: nat)
    requires TauClosed(l, x) && TauRun(l, q) && |q| > 0 && q[0] in x && i < |q|
    ensures q[i] in x
  {
    if i > 0 { LoopStays(l, x, q, i - 1); }
  }

  lemma CycleNodeLoops<S(!new)>(l: Lts<S>, order: seq<S>, index: map<S, nat>, v: nat)
    requires ClosureCycle.Indexes(order, index) && v < |order| && OnCycle(ClosureCycle.TauGraph(l, order, index), v)
    ensures Loops(l, order[v])
  {
    hide ClosureCycle.TauGraph;
    var p :| IsCycle(ClosureCycle.TauGraph(l, order, index), p) && p[0] == v;
    ClosureCycle.IndexCycle(l, order, index, p);
    var q :| TauCycleIn(l, Closures.MembersOf(order), q) && q[0] == order[v];
  }

  /** A listed state on a cycle of internal actions has its position on a cycle. */
  lemma LoopIsIndexed<S(!new)>(l: Lts<S>, order: seq<S>, index: map<S, nat>, s: S)
    requires ClosureCycle.Indexes(order, index) && TauClosed(l, Closures.MembersOf(order)) && s in order && Loops(l, s)
    ensures s in index && OnCycle(ClosureCycle.TauGraph(l, order, index), index[s])
  {
    hide ClosureCycle.TauGraph;
    var x := Closures.MembersOf(order);
    var q :| |q| >= 2 && TauRun(l, q) && q[0] == s && q[|q| - 1] == s;
    forall t | t in q ensures t in x {
      var i :| 0 <= i < |q| && q[i] == t;
      LoopStays(l, x, q, i);
    }
    ClosureCycle.StateCycle(l, order, index, q);
  }

  /** Every run ends in a state met at no greater depth. */
  ghost predicate Shallow<S(!new)>(l: Lts<S>, walks: map<S, Walk<S>>) {
    forall w, s | IsWalk(l, w, s) :: s in walks && Depth(walks, s) <= |w.labels|
  }

  /** The states are listed from the shallow to the deep. */
  ghost predicate ByDepth<S>(walks: map<S, Walk<S>>, order: seq<S>) {
    forall i, j | 0 <= i < j < |order| :: Depth(walks, order[i]) <= Depth(walks, order[j])
  }

  lemma ByDepthGrows<S(!new)>(l: Lts<S>, walks: map<S, Walk<S>>, queue: seq<S>, d: nat, order: seq<S>, walks': map<S, Walk<S>>, news: seq<S>)
    requires queue != [] && Levels(walks, queue, d) && Grown(l, walks, queue[0], walks', news)
    requires ByDepth(walks, order) && forall s | s in order :: s in walks
    ensures ByDepth(walks', order + news)
  {
    var all := order + news;
    forall i | 0 <= i < |all|
      ensures if i < |order| then all[i] == order[i] && Depth(walks', all[i]) == Depth(walks, order[i]) <= d + 1
              else Depth(walks', all[i]) == Depth(walks, queue[0]) + 1
    {
      if i >= |order| { assert all[i] in news; } else { assert order[i] in order; }
    }
    assert d <= Depth(walks, queue[0]);
  }

  lemma SearchIsShallow<S(!new)>(l: Lts<S>, u: set<S>, visited: map<S, Option<(S, Label)>>, walks: map<S, Walk<S>>, d: nat)
    requires Searching(l, u, visited, walks, [], d) && visited[l.init].None?
    ensures Shallow(l, walks)
  {
    RootDepth(l, visited, walks);
    forall w, s | IsWalk(l, w, s) ensures s in walks && Depth(walks, s) <= |w.labels| {
      WalkIsMet(l, walks, |w.labels|, w, s);
    }
  }

  ghost predicate ListedFrom<S>(order: seq<S>, v: nat, s: S) {
    exists k: nat :: v <= k < |order| && order[k] == s
  }

  /** The first listed state on a cycle is a shallowest one. */
  lemma FirstLoopIsShortest<S(!new)>(l: Lts<S>, visited: map<S, Option<(S, Label)>>, walks: map<S, Walk<S>>, order: seq<S>, v: nat)
    requires Rooted(l, visited, walks) && Shallow(l, walks) && ByDepth(walks, order) && v < |order| && order[v] in walks
    requires Loops(l, order[v]) && forall s | s in walks && Loops(l, s) :: ListedFrom(order, v, s)
    ensures ShortestLoop(l, Erase(walks[order[v]].labels) + [TAU])
  {
    hide Loops;
    var w := walks[order[v]];
    assert IsWalk(l, w, order[v]);
    forall w', s' | IsWalk(l, w', s') && Loops(l, s') ensures |w.labels| <= |w'.labels| {
      assert ListedFrom(order, v, s');
      var k: nat :| v <= k < |order| && order[k] == s';
      assert Depth(walks, order[v]) <= Depth(walks, order[k]);
    }
  }

  /** A state on a cycle of the index graph diverges. */
  lemma CycleNodeDiverges<S(!new)>(l: Lts<S>, order: seq<S>, index: map<S, nat>, v: nat)
    requires ClosureCycle.Indexes(order, index) && v < |order| && OnCycle(ClosureCycle.TauGraph(l, order, index), v)
    ensures DivergesFrom(l, order[v])
  {
    var g := ClosureCycle.TauGraph(l, order, index);
    var p :| IsCycle(g, p) && p[0] == v;
    ClosureCycle.IndexCycle(l, order, index, p);
    var q :| TauCycleIn(l, Closures.MembersOf(order), q) && q[0] == order[v];
    TauCycles.CycleDiverges(l, Closures.MembersOf(order), q);
  }

  lemma WalkAfter<S(!new)>(l: Lts<S>, w: Walk<S>, s: S)
    requires IsWalk(l, w, s)
    ensures s in After(l, Erase(w.labels))
  {}

  /** The states met so far, in order, and the internal edges of the expanded ones. */
  ghost predicate Collected<S(!new)>(l: Lts<S>, walks: map<S, Walk<S>>, queue: seq<S>, order: seq<S>, tauEdges: map<S, seq<S>>) {
    && (forall s :: s in order <==> s in walks)
    && (forall s | s in tauEdges :: tauEdges[s] == TauTargets(l.next(s)))
    && (forall s | s in walks && s !in queue && s !in tauEdges :: TauTargets(l.next(s)) == [])
  }

  lemma Collect<S(!new)>(l: Lts<S>, walks: map<S, Walk<S>>, queue: seq<S>, order: seq<S>, tauEdges: map<S, seq<S>>,
                         walks': map<S, Walk<S>>, news: seq<S>, tauEdges': map<S, seq<S>>)
    requires queue != [] && Collected(l, walks, queue, order, tauEdges) && Grown(l, walks, queue[0], walks', news)
    requires tauEdges' == if TauTargets(l.next(queue[0])) == [] then tauEdges else tauEdges[queue[0] := TauTargets(l.next(queue[0]))]
    ensures Collected(l, walks', queue[1..] + news, order + news, tauEdges')
  {
    assert forall s | s in queue :: s == queue[0] || s in queue[1..];
    assert forall s | s in queue[1..] || s in news :: s in queue[1..] + news;
    assert forall s :: s in order + news <==> s in order || s in news;
  }

  lemma StartCollected<S(!new)>(l: Lts<S>)
    ensures Collected(l, map[l.init := Walk([l.init], [])], [l.init], [l.init], map[])
  {}

  lemma StartByDepth<S(!new)>(l: Lts<S>)
    ensures ByDepth(map[l.init := Walk([l.init], [])], [l.init])
  {}

  lemma AllCollected<S(!new)>(l: Lts<S>, u: set<S>, visited: map<S, Option<(S, Label)>>, walks: map<S, Walk<S>>, d: nat,
                              order: seq<S>, tauEdges: map<S, seq<S>>)
    requires Searching(l, u, visited, walks, [], d) && visited[l.init].None? && Collected(l, walks, [], order, tauEdges)
    ensures forall s :: s in order <==> Reachable(l, s)
    ensures forall s | s in order :: s in walks
    ensures forall s | s in tauEdges :: tauEdges[s] == TauTargets(l.next(s))
    ensures forall s | s in order && s !in tauEdges :: TauTargets(l.next(s)) == []
  {
    hide Reachable;
    forall s ensures s in walks <==> Reachable(l, s) { AllMet(l, u, visited, walks, d, s); }
  }

  lemma KeepByDepth<S(!new)>(l: Lts<S>, u: set<S>, visited: map<S, Option<(S, Label)>>, walks: map<S, Walk<S>>, queue: seq<S>, d: nat,
                             order: seq<S>, tauEdges: map<S, seq<S>>, walks': map<S, Walk<S>>, news: seq<S>)
    requires queue != [] && Searching(l, u, visited, walks, queue, d) && Collected(l, walks, queue, order, tauEdges)
    requires Grown(l, walks, queue[0], walks', news) && ByDepth(walks, order)
    ensures ByDepth(walks', order + news)
  {
    hide Grown, Levels, Rooted, Expanded;
    ByDepthGrows(l, walks, queue, d, order, walks', news);
  }

  /** Passes exactly when no infinite run of internal actions is reachable; a
      failure reports the visible events of a shortest run to a cycle of them, and a
      final "tau". */
  method DivergenceFreeCheck<S(==,!new)>(l: Lts<S>, ghost u: set<S>) returns (r: Option<Trace>)
    requires Bounded(l, u)
    ensures r.None? <==> !ReachableDivergence(l)
    ensures r.Some? ==> r.value != [] && r.value[|r.value| - 1] == TAU && DivergesAfter(l, r.value[..|r.value| - 1])
    ensures r.Some? ==> ShortestLoop(l, r.value)
  {
    hide Reachable, Searching, Grown, Collected, Bounded, Depth, ReachableDivergence, DivergesAfter, Rooted, ByDepth, Shallow, ShortestLoop;
    var visited := map[l.init := None];
    ghost var walks := map[l.init := Walk([l.init], [])];
    var order, queue := [l.init], [l.init];
    var tauEdges: map<S, seq<S>> := map[];
    ghost var d: nat := 0;
    StartSearching(l, u);
    StartCollected(l);
    assert ByDepth(walks, order) by { StartByDepth(l); }
    while queue != []
      invariant Searching(l, u, visited, walks, queue, d) && l.init in visited && visited[l.init].None?
      invariant Collected(l, walks, queue, order, tauEdges) && ByDepth(walks, order)
      decreases u - walks.Keys, |queue|
    {
      var state := queue[0];
      SearchingFacts(l, u, visited, walks, queue, d);
      var visited', news;
      ghost var walks';
      visited', news, walks' := Discover(l, u, state, visited, walks);
      var targets := TauTargets(l.next(state));
      var tauEdges' := if targets == [] then tauEdges else tauEdges[state := targets];
      DiscoverKeepsSearching(l, u, visited, walks, queue, d, visited', walks', news);
      QueueStep(l, u, walks, queue, walks', news);
      KeepByDepth(l, u, visited, walks, queue, d, order, tauEdges, walks', news);
      Collect(l, walks, queue, order, tauEdges, walks', news, tauEdges');
      visited, queue, d, walks := visited', queue[1..] + news, Depth(walks, state), walks';
      order, tauEdges := order + news, tauEdges';
    }
    AllCollected(l, u, visited, walks, d, order, tauEdges);
    SearchingFacts(l, u, visited, walks, queue, d);
    SearchIsShallow(l, u, visited, walks, d);
    r := Conclude(l, u, visited, walks, order, tauEdges);
  }

  /** From the explored graph to the verdict. */
  method Conclude<S(==,!new)>(l: Lts<S>, ghost u: set<S>, visited: map<S, Option<(S, Label)>>, ghost walks: map<S, Walk<S>>,
                              order: seq<S>, tauEdges: map<S, seq<S>>)
    returns (r: Option<Trace>)
    requires Bounded(l, u) && Rooted(l, visited, walks) && Shallow(l, walks) && ByDepth(walks, order)
    requires forall s :: s in order <==> Reachable(l, s)
    requires forall s | s in order :: s in walks
    requires forall s | s in tauEdges :: tauEdges[s] == TauTargets(l.next(s))
    requires forall s | s in order && s !in tauEdges :: TauTargets(l.next(s)) == []
    ensures r.None? <==> !ReachableDivergence(l)
    ensures r.Some? ==> r.value != [] && r.value[|r.value| - 1] == TAU && DivergesAfter(l, r.value[..|r.value| - 1])
    ensures r.Some? ==> ShortestLoop(l, r.value)
  {
    hide Reachable, OnCycle, Cyclic, ReachableDivergence, DivergesAfter, DivergesFrom, ByDepth, Shallow, ShortestLoop, Loops, Bounded;
    var index := ClosureCycle.IndexStates(order);
    var adj := BuildAdjacency(l, order, tauEdges, index);
    CyclicIffDivergence(l, u, order, index);
    ClosureCycle.TauGraphEdges(l, order, index);
    hide ClosureCycle.TauGraph, ClosureCycle.Indexes;
    var first := Tarjan.FindFirstCycleNode(adj);
    if first.None? {
      return None;
    }
    var state := order[first.value];
    var events := TraceEvents(l, visited, walks, state);
    ConcludeLoop(l, u, visited, walks, order, index, first.value);
    assert (events + [TAU])[..|events|] == events;
    r := Some(events + [TAU]);
  }

  /** The least position on a cycle gives a divergence, by a shortest run. */
  lemma ConcludeLoop<S(!new)>(l: Lts<S>, u: set<S>, visited: map<S, Option<(S, Label)>>, walks: map<S, Walk<S>>, order: seq<S>, index: map<S, nat>, v: nat)
    requires Bounded(l, u) && Rooted(l, visited, walks) && Shallow(l, walks) && ByDepth(walks, order)
    requires (forall s :: s in order <==> Reachable(l, s)) && v < |order| && order[v] in walks
    requires ClosureCycle.Indexes(order, index) && OnCycle(ClosureCycle.TauGraph(l, order, index), v)
    requires forall k: nat | k < v :: !OnCycle(ClosureCycle.TauGraph(l, order, index), k)
    ensures DivergesAfter(l, Erase(walks[order[v]].labels)) && ReachableDivergence(l)
    ensures ShortestLoop(l, Erase(walks[order[v]].labels) + [TAU])
  {
    hide Reachable, OnCycle, ReachableDivergence, DivergesAfter, DivergesFrom, ByDepth, Shallow, ShortestLoop, Loops, Bounded,
         ClosureCycle.TauGraph, ClosureCycle.Indexes;
    CycleNodeDiverges(l, order, index, v);
    LeastPositionLoops(l, u, order, index, v);
    AllListed(l, visited, walks, order);
    FirstLoopIsShortest(l, visited, walks, order, v);
    WalkOf(l, visited, walks, order[v]);
    hide Rooted;
    ReachedDivergence(l, walks[order[v]], order[v]);
  }

  /** The least position on a cycle holds the first state on one. */
  lemma LeastPositionLoops<S(!new)>(l: Lts<S>, u: set<S>, order: seq<S>, index: map<S, nat>, v: nat)
    requires Bounded(l, u) && ClosureCycle.Indexes(order, index) && v < |order| && forall s :: s in order <==> Reachable(l, s)
    requires OnCycle(ClosureCycle.TauGraph(l, order, index), v)
    requires forall k: nat | k < v :: !OnCycle(ClosureCycle.TauGraph(l, order, index), k)
    ensures Loops(l, order[v]) && forall s | s in order && Loops(l, s) :: ListedFrom(order, v, s)
  {
    hide Reachable, ClosureCycle.TauGraph, OnCycle, Loops;
    var x := Closures.MembersOf(order);
    assert forall s :: s in x <==> s in order;
    ReachableIsTauClosed(l, u, x);
    CycleNodeLoops(l, order, index, v);
    forall s | s in order && Loops(l, s) ensures ListedFrom(order, v, s) {
      LoopIsIndexed(l, order, index, s);
    }
  }

  lemma AllListed<S(!new)>(l: Lts<S>, visited: map<S, Option<(S, Label)>>, walks: map<S, Walk<S>>, order: seq<S>)
    requires Rooted(l, visited, walks) && forall s :: s in order <==> Reachable(l, s)
    ensures forall s | s in walks :: s in order
  {
    forall s | s in walks ensures s in order { assert IsWalk(l, walks[s], s); }
  }

  lemma WalkOf<S(!new)>(l: Lts<S>, visited: map<S, Option<(S, Label)>>, walks: map<S, Walk<S>>, s: S)
    requires Rooted(l, visited, walks) && s in walks
    ensures IsWalk(l, walks[s], s)
  {}

  lemma ReachedDivergence<S(!new)>(l: Lts<S>, w: Walk<S>, s: S)
    requires IsWalk(l, w, s) && DivergesFrom(l, s)
    ensures DivergesAfter(l, Erase(w.labels)) && ReachableDivergence(l)
  {
    assert Reachable(l, s);
    WalkAfter(l, w, s);
  }
}
