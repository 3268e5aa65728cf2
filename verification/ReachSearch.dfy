/** Breadth-first exploration of the reachable states with predecessor links, as
    the deadlock and divergence checkers do it. */
module ReachSearch {
  import opened Options
  import opened Lts

  /** A run from the initial state. */
  datatype Walk<S> = Walk(states: seq<S>, labels: Trace)

  ghost predicate IsWalk<S>(l: Lts<S>, w: Walk<S>, s: S) {
    IsRun(l, w.states, w.labels) && w.states[0] == l.init && w.states[|w.labels|] == s
  }

  ghost predicate Reachable<S(!new)>(l: Lts<S>, s: S) {
    exists w :: IsWalk(l, w, s)
  }

  function Then<S>(w: Walk<S>, a: Label, s: S): Walk<S> {
    Walk(w.states + [s], w.labels + [a])
  }

  ghost function Depth<S>(walks: map<S, Walk<S>>, s: S): nat {
    if s in walks then |walks[s].labels| else 0
  }

  /** Predecessor links spell out the recorded walks. */
  ghost predicate Rooted<S>(l: Lts<S>, visited: map<S, Option<(S, Label)>>, walks: map<S, Walk<S>>) {
    && visited.Keys == walks.Keys
    && l.init in walks
    && (forall s | s in walks :: IsWalk(l, walks[s], s))
    && forall s | s in walks ::
         match visited[s]
         case None => walks[s].labels == []
         case Some(link) => link.0 in walks && walks[s] == Then(walks[link.0], link.1, s)
  }

  /** All successors of `s` are met, one level deeper at most. */
  ghost predicate Expanded<S>(l: Lts<S>, walks: map<S, Walk<S>>, s: S) {
    forall e | e in l.next(s) :: e.1 in walks && Depth(walks, e.1) <= Depth(walks, s) + 1
  }

  ghost predicate Levels<S>(walks: map<S, Walk<S>>, queue: seq<S>, d: nat) {
    && (forall i | 0 <= i < |queue| :: queue[i] in walks && d <= Depth(walks, queue[i]))
    && (forall i, j | 0 <= i < j < |queue| :: Depth(walks, queue[i]) <= Depth(walks, queue[j]))
    && (forall s | s in walks :: Depth(walks, s) <= d + 1)
  }

  ghost predicate Searching<S>(l: Lts<S>, u: set<S>, visited: map<S, Option<(S, Label)>>, walks: map<S, Walk<S>>, queue: seq<S>, d: nat) {
    && Rooted(l, visited, walks) && walks.Keys <= u
    && Levels(walks, queue, d)
    && forall s | s in walks && s !in queue :: Expanded(l, walks, s)
  }

  /** When every state above depth `d` is expanded, a run of at most `d` steps
      ends in a state met at no greater depth. */
  lemma {:induction false} WalkIsMet<S(!new)>(l: Lts<S>, walks: map<S, Walk<S>>, d: nat, w: Walk<S>, s: S)
    requires l.init in walks && Depth(walks, l.init) == 0 && IsWalk(l, w, s) && |w.labels| <= d
    requires forall t | t in walks && Depth(walks, t) < d :: Expanded(l, walks, t)
    ensures s in walks && Depth(walks, s) <= |w.labels|
    decreases |w.labels|
  {
    if w.labels != [] {
      var n := |w.labels| - 1;
      RunFront(l, w.states, w.labels);
      var t := w.states[n];
      assert IsWalk(l, Walk(w.states[..n + 1], w.labels[..n]), t);
      WalkIsMet(l, walks, d, Walk(w.states[..n + 1], w.labels[..n]), t);
      assert (w.labels[n], s) in l.next(t);
    }
  }

  lemma RootDepth<S>(l: Lts<S>, visited: map<S, Option<(S, Label)>>, walks: map<S, Walk<S>>)
    requires Rooted(l, visited, walks) && visited[l.init].None?
    ensures Depth(walks, l.init) == 0
  {}

  lemma WalkThen<S>(l: Lts<S>, w: Walk<S>, s: S, a: Label, t: S)
    requires IsWalk(l, w, s) && Edge(l, s, a, t)
    ensures IsWalk(l, Then(w, a, t), t)
  {}

  lemma Link<S>(l: Lts<S>, visited: map<S, Option<(S, Label)>>, walks: map<S, Walk<S>>, s: S, a: Label, t: S)
    requires Rooted(l, visited, walks) && s in walks && Edge(l, s, a, t) && t !in walks
    ensures Rooted(l, visited[t := Some((s, a))], walks[t := Then(walks[s], a, t)])
  {
    hide IsWalk;
    WalkThen(l, walks[s], s, a, t);
    var visited', walks' := visited[t := Some((s, a))], walks[t := Then(walks[s], a, t)];
    forall x | x in walks'
      ensures IsWalk(l, walks'[x], x)
      ensures match visited'[x]
              case None => walks'[x].labels == []
              case Some(link) => link.0 in walks' && walks'[x] == Then(walks'[link.0], link.1, x)
    {
      if x != t { assert walks'[x] == walks[x] && visited'[x] == visited[x]; }
    }
  }

  /** `walks'` adds the states `news`, met from `state`. */
  ghost predicate Adds<S(!new)>(walks: map<S, Walk<S>>, state: S, walks': map<S, Walk<S>>, news: seq<S>) {
    && (forall s | s in walks :: s in walks' && walks'[s] == walks[s])
    && (forall s :: s in walks' <==> s in walks || s in news)
    && (forall s | s in news :: s !in walks && Depth(walks', s) == Depth(walks, state) + 1)
  }

  ghost predicate Grown<S(!new)>(l: Lts<S>, walks: map<S, Walk<S>>, state: S, walks': map<S, Walk<S>>, news: seq<S>) {
    Adds(walks, state, walks', news) && forall e | e in l.next(state) :: e.1 in walks'
  }

  lemma AddOne<S(!new)>(walks: map<S, Walk<S>>, state: S, walks': map<S, Walk<S>>, news: seq<S>, a: Label, t: S)
    requires Adds(walks, state, walks', news) && state in walks && t !in walks'
    ensures Adds(walks, state, walks'[t := Then(walks'[state], a, t)], news + [t])
  {}

  /** Meets every successor of `state`, linking and returning the new ones. */
  method Discover<S(==,!new)>(l: Lts<S>, ghost u: set<S>, state: S, visited: map<S, Option<(S, Label)>>, ghost walks: map<S, Walk<S>>)
    returns (visited': map<S, Option<(S, Label)>>, news: seq<S>, ghost walks': map<S, Walk<S>>)
    requires Bounded(l, u) && Rooted(l, visited, walks) && walks.Keys <= u && state in walks
    ensures Rooted(l, visited', walks') && walks'.Keys <= u && Grown(l, walks, state, walks', news)
    ensures visited'.Keys == walks'.Keys && visited.Keys == walks.Keys && forall s | s in visited :: visited'[s] == visited[s]
  {
    hide Rooted, Then, Adds;
    SameKeys(l, visited, walks);
    visited', news, walks' := visited, [], walks;
    assert Adds(walks, state, walks, []) by { AddNone(walks, state); }
    var next := l.next(state);
    for i := 0 to |next|
      invariant Rooted(l, visited', walks') && walks'.Keys <= u && visited'.Keys == walks'.Keys
      invariant Adds(walks, state, walks', news) && state in walks'
      invariant forall s | s in visited :: s in visited' && visited'[s] == visited[s]
      invariant forall k | 0 <= k < i :: next[k].1 in walks'
    {
      var (a, t) := next[i];
      assert next[i] in next && Edge(l, state, a, t);
      if t !in visited' {
        Link(l, visited', walks', state, a, t);
        AddOne(walks, state, walks', news, a, t);
        visited', news, walks' := visited'[t := Some((state, a))], news + [t], walks'[t := Then(walks'[state], a, t)];
      }
    }
    assert forall e | e in next :: e.1 in walks';
  }

  lemma AddNone<S(!new)>(walks: map<S, Walk<S>>, state: S)
    ensures Adds(walks, state, walks, [])
  {}

  lemma SameKeys<S>(l: Lts<S>, visited: map<S, Option<(S, Label)>>, walks: map<S, Walk<S>>)
    requires Rooted(l, visited, walks)
    ensures visited.Keys == walks.Keys && l.init in walks
  {}

  lemma GrownLevels<S(!new)>(l: Lts<S>, walks: map<S, Walk<S>>, queue: seq<S>, d: nat, walks': map<S, Walk<S>>, news: seq<S>)
    requires queue != [] && Levels(walks, queue, d) && Grown(l, walks, queue[0], walks', news)
    ensures Levels(walks', queue[1..] + news, Depth(walks, queue[0]))
  {
    var q := queue[1..] + news;
    assert forall s | s in walks :: Depth(walks', s) == Depth(walks, s);
    forall i | 0 <= i < |q|
      ensures q[i] in walks' && Depth(walks, queue[0]) <= Depth(walks', q[i])
      ensures if i < |queue| - 1 then q[i] == queue[i + 1] else Depth(walks', q[i]) == Depth(walks, queue[0]) + 1
    {
      if i >= |queue| - 1 { assert q[i] == news[i - |queue| + 1]; assert q[i] in news; }
    }
  }

  lemma GrownExpanded<S(!new)>(l: Lts<S>, walks: map<S, Walk<S>>, queue: seq<S>, d: nat, walks': map<S, Walk<S>>, news: seq<S>, s: S)
    requires queue != [] && Levels(walks, queue, d) && Grown(l, walks, queue[0], walks', news)
    requires forall s | s in walks && s !in queue :: Expanded(l, walks, s)
    requires s in walks' && s !in queue[1..] + news
    ensures Expanded(l, walks', s)
  {
    assert forall x | x in queue :: x == queue[0] || x in queue[1..];
    assert forall x | x in queue[1..] || x in news :: x in queue[1..] + news;
    if s == queue[0] {
      forall e | e in l.next(s) ensures e.1 in walks' && Depth(walks', e.1) <= Depth(walks', s) + 1 {
        if e.1 in walks { assert Depth(walks, e.1) <= d + 1 && d <= Depth(walks, s); }
      }
    } else {
      assert Expanded(l, walks, s);
    }
  }

  lemma DiscoverKeepsSearching<S(!new)>(l: Lts<S>, u: set<S>, visited: map<S, Option<(S, Label)>>, walks: map<S, Walk<S>>, queue: seq<S>, d: nat,
                                        visited': map<S, Option<(S, Label)>>, walks': map<S, Walk<S>>, news: seq<S>)
    requires queue != [] && Searching(l, u, visited, walks, queue, d)
    requires Rooted(l, visited', walks') && walks'.Keys <= u && Grown(l, walks, queue[0], walks', news)
    ensures Searching(l, u, visited', walks', queue[1..] + news, Depth(walks, queue[0]))
  {
    hide Rooted, Grown, Levels, Expanded;
    GrownLevels(l, walks, queue, d, walks', news);
    forall s | s in walks' && s !in queue[1..] + news ensures Expanded(l, walks', s) {
      GrownExpanded(l, walks, queue, d, walks', news, s);
    }
  }

  lemma StartSearching<S(!new)>(l: Lts<S>, u: set<S>)
    requires Bounded(l, u)
    ensures Searching(l, u, map[l.init := None], map[l.init := Walk([l.init], [])], [l.init], 0)
  {}

  lemma PriorStep<S>(l: Lts<S>, visited: map<S, Option<(S, Label)>>, walks: map<S, Walk<S>>, s: S)
    requires Rooted(l, visited, walks) && s in walks
    ensures match visited[s]
            case None => walks[s].labels == []
            case Some(link) => link.0 in walks && walks[s].labels == walks[link.0].labels + [link.1]
  {}

  /** The visible events along the predecessor links. */
  method TraceEvents<S(==,!new)>(l: Lts<S>, visited: map<S, Option<(S, Label)>>, ghost walks: map<S, Walk<S>>, to: S) returns (events: Trace)
    requires Rooted(l, visited, walks) && to in walks
    ensures events == Erase(walks[to].labels)
  {
    hide Rooted;
    SameKeys(l, visited, walks);
    var labels: Trace := [];
    var current := to;
    PriorStep(l, visited, walks, to);
    while visited[current].Some?
      invariant current in walks && walks[current].labels + labels == walks[to].labels
      decreases |walks[current].labels|
    {
      PriorStep(l, visited, walks, current);
      var (prev, a) := visited[current].value;
      labels := [a] + labels;
      current := prev;
    }
    PriorStep(l, visited, walks, current);
    assert labels == walks[to].labels;
    events := VisibleEvents(labels);
  }

  method VisibleEvents(labels: Trace) returns (events: Trace)
    ensures events == Erase(labels)
  {
    events := [];
    for i := 0 to |labels|
      invariant events == Erase(labels[..i])
    {
      assert labels[..i + 1][..i] == labels[..i];
      if labels[i] != TAU {
        events := events + [labels[i]];
      }
    }
    assert labels[..|labels|] == labels;
  }

  lemma SearchingFacts<S(!new)>(l: Lts<S>, u: set<S>, visited: map<S, Option<(S, Label)>>, walks: map<S, Walk<S>>, queue: seq<S>, d: nat)
    requires Searching(l, u, visited, walks, queue, d)
    ensures Rooted(l, visited, walks) && walks.Keys <= u && visited.Keys == walks.Keys
    ensures forall s | s in queue :: s in walks
  {}

  /** When the queue is empty, exactly the reachable states are met. */
  lemma AllMet<S(!new)>(l: Lts<S>, u: set<S>, visited: map<S, Option<(S, Label)>>, walks: map<S, Walk<S>>, d: nat, s: S)
    requires Searching(l, u, visited, walks, [], d) && visited[l.init].None?
    ensures s in walks <==> Reachable(l, s)
  {
    RootDepth(l, visited, walks);
    if w :| IsWalk(l, w, s) {
      WalkIsMet(l, walks, |w.labels|, w, s);
    }
  }

  /** One state leaves the queue; either it was all there was to do, or new
      states were met. */
  lemma QueueStep<S(!new)>(l: Lts<S>, u: set<S>, walks: map<S, Walk<S>>, queue: seq<S>, walks': map<S, Walk<S>>, news: seq<S>)
    requires queue != [] && walks.Keys <= u && walks'.Keys <= u && Grown(l, walks, queue[0], walks', news)
    ensures forall s | s in walks' && s !in queue[1..] + news :: s == queue[0] || (s in walks && s !in queue)
    ensures u - walks'.Keys < u - walks.Keys || (walks' == walks && queue[1..] + news == queue[1..])
  {
    assert forall s | s in queue :: s == queue[0] || s in queue[1..];
    assert forall s | s in queue[1..] || s in news :: s in queue[1..] + news;
    if news != [] {
      assert news[0] in news;
      assert news[0] in u - walks.Keys && news[0] !in u - walks'.Keys;
    } else {
      assert walks'.Keys == walks.Keys;
    }
  }
}
