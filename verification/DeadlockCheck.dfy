/** The deadlock checker. */
module DeadlockCheck {
  import opened Options
  import opened Lts
  import opened ReachSearch

  ghost predicate Deadlock<S>(l: Lts<S>, s: S) {
    l.next(s) == []
  }

  ghost predicate DeadlockFree<S(!new)>(l: Lts<S>) {
    forall s | Reachable(l, s) :: !Deadlock(l, s)
  }

  /** The erasure of a run to a deadlock, with no deadlock in fewer raw steps. */
  ghost predicate ShortestDeadlock<S(!new)>(l: Lts<S>, events: Trace) {
    exists w, s :: IsWalk(l, w, s) && Deadlock(l, s) && events == Erase(w.labels)
              && forall w', s' | IsWalk(l, w', s') && Deadlock(l, s') :: |w.labels| <= |w'.labels|
  }

  /** The state at the head of the queue, being a deadlock, is a shallowest one. */
  lemma FirstDeadlock<S(!new)>(l: Lts<S>, u: set<S>, visited: map<S, Option<(S, Label)>>, walks: map<S, Walk<S>>, queue: seq<S>, d: nat)
    requires Searching(l, u, visited, walks, queue, d) && visited[l.init].None? && queue != [] && Deadlock(l, queue[0])
    requires forall s | s in walks && s !in queue :: !Deadlock(l, s)
    ensures ShortestDeadlock(l, Erase(walks[queue[0]].labels))
  {
    var s := queue[0];
    var w := walks[s];
    RootDepth(l, visited, walks);
    assert forall t | t in walks && Depth(walks, t) < |w.labels| :: t !in queue;
    forall w', s' | IsWalk(l, w', s') && Deadlock(l, s') ensures |w.labels| <= |w'.labels| {
      if |w'.labels| < |w.labels| {
        WalkIsMet(l, walks, |w.labels|, w', s');
      }
    }
    assert IsWalk(l, w, s);
  }

  lemma WalkReaches<S(!new)>(l: Lts<S>, w: Walk<S>, s: S)
    requires IsWalk(l, w, s)
    ensures Reachable(l, s)
  {}

  /** Fails exactly when a state without any transition is reachable, with the
      events of a shortest run to one. */
  method DeadlockFreeCheck<S(==,!new)>(l: Lts<S>, ghost u: set<S>) returns (r: Option<Trace>)
    requires Bounded(l, u)
    ensures r.None? <==> DeadlockFree(l)
    ensures r.Some? ==> ShortestDeadlock(l, r.value)
  {
    hide Reachable, Searching, ShortestDeadlock, Grown;
    var visited := map[l.init := None];
    ghost var walks := map[l.init := Walk([l.init], [])];
    var queue := [l.init];
    ghost var d: nat := 0;
    StartSearching(l, u);
    while queue != []
      invariant Searching(l, u, visited, walks, queue, d) && l.init in visited && visited[l.init].None?
      invariant forall s | s in walks && s !in queue :: !Deadlock(l, s)
      decreases u - walks.Keys, |queue|
    {
      var state := queue[0];
      SearchingFacts(l, u, visited, walks, queue, d);
      if l.next(state) == [] {
        FirstDeadlock(l, u, visited, walks, queue, d);
        WalkReaches(l, walks[state], state);
        var events := TraceEvents(l, visited, walks, state);
        return Some(events);
      }
      var visited', news;
      ghost var walks';
      visited', news, walks' := Discover(l, u, state, visited, walks);
      DiscoverKeepsSearching(l, u, visited, walks, queue, d, visited', walks', news);
      QueueStep(l, u, walks, queue, walks', news);
      visited, queue, d, walks := visited', queue[1..] + news, Depth(walks, state), walks';
    }
    forall s | Reachable(l, s) ensures !Deadlock(l, s) {
      AllMet(l, u, visited, walks, d, s);
    }
    r := None;
  }
}
