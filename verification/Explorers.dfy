/** The explorers themselves: they ask the store what the specification says, and
    on an empty store they count the reachable states and their transitions. */
module Explorers {
  import opened Lts
  import opened ReachSearch
  import opened Explore
  import opened Seqs
  import opened Sorting

  // ----------------------------------------------------------------- counting

  function OutDegree<S>(l: Lts<S>, states: seq<S>): nat {
    if states == [] then 0 else OutDegree(l, states[..|states| - 1]) + |l.next(states[|states| - 1])|
  }

  ghost function OutDegrees<S>(l: Lts<S>, x: set<S>): nat {
    if x == {} then 0 else var s :| s in x; OutDegrees(l, x - {s}) + |l.next(s)|
  }

  lemma {:induction false} OutDegreesMinus<S>(l: Lts<S>, x: set<S>, s: S)
    requires s in x
    ensures OutDegrees(l, x) == OutDegrees(l, x - {s}) + |l.next(s)|
  {
    var y :| y in x && OutDegrees(l, x) == OutDegrees(l, x - {y}) + |l.next(y)|;
    if y != s {
      OutDegreesMinus(l, x - {y}, s);
      OutDegreesMinus(l, x - {s}, y);
      assert x - {y} - {s} == x - {s} - {y};
    }
  }

  /** Summing over a listing without repetitions is summing over the set. */
  lemma {:induction false} OutDegreeOfListing<S>(l: Lts<S>, states: seq<S>)
    requires Distinct(states)
    ensures OutDegree(l, states) == OutDegrees(l, Members(states)) && |states| == |Members(states)|
  {
    if states != [] {
      var n := |states| - 1;
      OutDegreeOfListing(l, states[..n]);
      assert states == states[..n] + [states[n]];
      assert states[n] !in states[..n];
      assert Members(states) - {states[n]} == Members(states[..n]) && states[n] in Members(states);
      OutDegreesMinus(l, Members(states), states[n]);
    }
  }

  lemma {:induction false} OutDegreeConcat<S>(l: Lts<S>, a: seq<S>, b: seq<S>)
    ensures OutDegree(l, a + b) == OutDegree(l, a) + OutDegree(l, b)
  {
    if b == [] {
      assert a + b == a;
    } else {
      OutDegreeConcat(l, a, b[..|b| - 1]);
      assert (a + b)[..|a + b| - 1] == a + b[..|b| - 1];
    }
  }

  // ----------------------------------------------------- what every round keeps

  ghost predicate Closed<S>(l: Lts<S>, expanded: seq<S>, seen: set<S>) {
    forall s, e | s in expanded && e in l.next(s) :: e.1 in seen
  }

  ghost predicate Met<S(!new)>(l: Lts<S>, u: set<S>, start: set<S>, states: seq<S>) {
    Distinct(states) && forall s | s in states :: s in u && s !in start && Reachable(l, s)
  }

  /** The store held `start`; since then the states of `expanded` and `frontier`
      came in, and those of `expanded` have had their steps looked at. */
  ghost predicate Exploring<S(!new)>(l: Lts<S>, u: set<S>, start: set<S>, seen: set<S>, expanded: seq<S>, frontier: seq<S>, stats: Stats) {
    && seen == start + Members(expanded) + Members(frontier)
    && Met(l, u, start, expanded + frontier)
    && Closed(l, expanded, seen)
    && stats == Stats(|expanded| + |frontier|, OutDegree(l, expanded))
  }

  lemma {:induction false} TargetOf<S>(l: Lts<S>, states: seq<S>, t: S) returns (s: S, e: (Label, S))
    requires t in AllTargets(l, states)
    ensures s in states && e in l.next(s) && e.1 == t
  {
    var xs := Targets(l.next(states[0]));
    if t in xs {
      var i :| 0 <= i < |xs| && xs[i] == t;
      s, e := states[0], l.next(states[0])[i];
    } else {
      s, e := TargetOf(l, states[1..], t);
    }
  }

  lemma {:induction false} IsTarget<S>(l: Lts<S>, states: seq<S>, s: S, e: (Label, S))
    requires s in states && e in l.next(s)
    ensures e.1 in AllTargets(l, states)
  {
    if s == states[0] {
      var i :| 0 <= i < |l.next(s)| && l.next(s)[i] == e;
      assert Targets(l.next(s))[i] == e.1;
    } else {
      IsTarget(l, states[1..], s, e);
    }
  }

  lemma StepReaches<S(!new)>(l: Lts<S>, s: S, e: (Label, S))
    requires Reachable(l, s) && e in l.next(s)
    ensures Reachable(l, e.1)
  {
    var w :| IsWalk(l, w, s);
    WalkThen(l, w, s, e.0, e.1);
  }

  lemma MetMore<S(!new)>(l: Lts<S>, u: set<S>, start: set<S>, seen: set<S>, expanded: seq<S>, level: seq<S>, rest: seq<S>, news: seq<S>)
    requires Bounded(l, u) && Met(l, u, start, expanded + (level + rest)) && seen == start + Members(expanded) + Members(level + rest)
    requires Distinct(news) && Members(news) == Members(AllTargets(l, level)) - seen
    ensures Met(l, u, start, expanded + level + (rest + news))
  {
    hide Reachable;
    var before, after := expanded + (level + rest), expanded + level + (rest + news);
    assert after == before + news;
    forall s | s in news ensures s in u && s !in start && s !in before && Reachable(l, s) {
      assert s in Members(news);
      var p, e := TargetOf(l, level, s);
      assert p in before;
      StepReaches(l, p, e);
      assert s !in before by { assert s !in Members(expanded) && s !in Members(level + rest); }
    }
    DistinctConcat(before, news);
  }

  lemma DistinctConcat<S>(a: seq<S>, b: seq<S>)
    requires Distinct(a) && Distinct(b) && forall s | s in b :: s !in a
    ensures Distinct(a + b)
  {
    forall i, j | 0 <= i < j < |a + b| ensures (a + b)[i] != (a + b)[j] {
      if i < |a| <= j { assert b[j - |a|] in b && a[i] in a; }
    }
  }

  lemma ClosedMore<S(!new)>(l: Lts<S>, expanded: seq<S>, seen: set<S>, level: seq<S>)
    requires Closed(l, expanded, seen)
    ensures Closed(l, expanded + level, seen + Members(AllTargets(l, level)))
  {
    forall s, e | s in expanded + level && e in l.next(s) ensures e.1 in seen + Members(AllTargets(l, level)) {
      if s in level { IsTarget(l, level, s, e); }
    }
  }

  /** Expanding the front of the frontier and taking in what is new. */
  lemma ExploringStep<S(!new)>(l: Lts<S>, u: set<S>, start: set<S>, seen: set<S>, expanded: seq<S>, level: seq<S>, rest: seq<S>, news: seq<S>, stats: Stats)
    requires Bounded(l, u) && Exploring(l, u, start, seen, expanded, level + rest, stats)
    requires Distinct(news) && Members(news) == Members(AllTargets(l, level)) - seen
    ensures Exploring(l, u, start, seen + Members(AllTargets(l, level)), expanded + level, rest + news,
                      Stats(stats.states + |news|, stats.transitions + OutDegree(l, level)))
  {
    hide Bounded, Met, Closed, AllTargets, OutDegree, Distinct;
    MetMore(l, u, start, seen, expanded, level, rest, news);
    ClosedMore(l, expanded, seen, level);
    OutDegreeConcat(l, expanded, level);
    MembersConcat(level, rest);
    MembersConcat(rest, news);
    MembersConcat(expanded, level);
  }

  lemma MembersConcat<S>(a: seq<S>, b: seq<S>)
    ensures Members(a + b) == Members(a) + Members(b)
  {}

  /** What an explorer with an empty store has to find and to count. */
  ghost predicate Explored<S(!new)>(l: Lts<S>, u: set<S>, seen: set<S>, stats: Stats) {
    && (forall s :: s in seen <==> Reachable(l, s))
    && stats == Stats(|seen|, OutDegrees(l, seen))
  }

  lemma {:induction false} WalkIsSeen<S>(l: Lts<S>, expanded: seq<S>, seen: set<S>, w: Walk<S>, s: S)
    requires Closed(l, expanded, seen) && seen == Members(expanded) && l.init in seen && IsWalk(l, w, s)
    ensures s in seen
    decreases |w.labels|
  {
    if w.labels != [] {
      var n := |w.labels| - 1;
      RunFront(l, w.states, w.labels);
      WalkIsSeen(l, expanded, seen, Walk(w.states[..n + 1], w.labels[..n]), w.states[n]);
      assert w.states[n] in expanded && (w.labels[n], s) in l.next(w.states[n]);
    }
  }

  lemma ExploringEnds<S(!new)>(l: Lts<S>, u: set<S>, seen: set<S>, expanded: seq<S>, stats: Stats)
    requires Exploring(l, u, {}, seen, expanded, [], stats) && l.init in seen
    ensures Explored(l, u, seen, stats)
  {
    hide OutDegree;
    assert expanded + [] == expanded && seen == Members(expanded);
    OutDegreeOfListing(l, expanded);
    forall s ensures s in seen <==> Reachable(l, s) {
      if s in seen { assert s in expanded; }
      if w :| IsWalk(l, w, s) { WalkIsSeen(l, expanded, seen, w, s); }
    }
  }

  lemma ExploringStarts<S(!new)>(l: Lts<S>, u: set<S>, start: set<S>)
    requires Bounded(l, u) && l.init !in start
    ensures Exploring(l, u, start, start + {l.init}, [], [l.init], Stats(1, 0))
  {
    assert [] + [l.init] == [l.init];
    assert Members([l.init]) == {l.init} && Members<S>([]) == {};
    assert IsWalk(l, Walk([l.init], []), l.init);
  }

  // ---------------------------------------------------------------- explorers

  /** Offers the states to the store, in order, and keeps those that are new. */
  method InsertAll<S(==)>(store: Store<S>, xs: seq<S>) returns (news: seq<S>)
    modifies store
    ensures news == Fresh(old(store.seen), xs)
    ensures store.seen == old(store.seen) + Members(xs) && store.calls == old(store.calls) + xs
  {
    news := [];
    assert xs[0..] == xs;
    for i := 0 to |xs|
      invariant store.seen == old(store.seen) + Members(xs[..i]) && store.calls == old(store.calls) + xs[..i]
      invariant news + Fresh(store.seen, xs[i..]) == Fresh(old(store.seen), xs)
    {
      assert xs[i..][0] == xs[i] && xs[i..][1..] == xs[i + 1..];
      assert xs[..i + 1] == xs[..i] + [xs[i]];
      assert xs[i] in store.seen ==> store.seen + {xs[i]} == store.seen;
      var inserted := store.Insert(xs[i]);
      if inserted {
        news := news + [xs[i]];
      }
    }
    assert xs[..|xs|] == xs;
  }

  /** Expands states one by one from a queue. */
  method ExploreSerial<S(==,!new)>(l: Lts<S>, ghost u: set<S>, store: Store<S>) returns (stats: Stats)
    requires Bounded(l, u)
    modifies store
    ensures Inside(l, u, [l.init])
    ensures store.calls == old(store.calls) + [l.init]
              + if l.init in old(store.seen) then [] else SerialCalls(l, u, old(store.seen) + {l.init}, [l.init])
    ensures old(store.seen) == {} ==> Explored(l, u, store.seen, stats)
  {
    hide Bounded, Exploring, SerialCalls, Explored, Targets;
    var inserted := store.Insert(l.init);
    InitInside(l, u);
    if !inserted {
      return Stats(0, 0);
    }
    ghost var start, expanded: seq<S>, all := old(store.seen), [], SerialCalls(l, u, store.seen, [l.init]);
    ExploringStarts(l, u, start);
    ghost var before := store.calls;
    var queue := [l.init];
    stats := Stats(1, 0);
    while queue != []
      invariant Inside(l, u, queue) && l.init in store.seen
      invariant Exploring(l, u, start, store.seen, expanded, queue, stats)
      invariant store.calls + SerialCalls(l, u, store.seen, queue) == before + all
      decreases u - store.seen, |queue|
    {
      var state, rest := queue[0], queue[1..];
      var next := Targets(l.next(state));
      assert queue == [state] + rest;
      SerialHead(l, u, store.seen, state, rest);
      OneTarget(l, state);
      TargetsOfHead(l, u, queue, store.seen);
      FreshMembers(store.seen, next);
      ExploringStep(l, u, start, store.seen, expanded, [state], rest, Fresh(store.seen, next), stats);
      OneDegree(l, state);
      var news := InsertAll(store, next);
      stats := Stats(stats.states + |news|, stats.transitions + |l.next(state)|);
      expanded := expanded + [state];
      queue := rest + news;
    }
    NoCalls(l, u, store.seen);
    if old(store.seen) == {} { ExploringEnds(l, u, store.seen, expanded, stats); }
  }

  lemma InitInside<S>(l: Lts<S>, u: set<S>)
    requires Bounded(l, u)
    ensures Inside(l, u, [l.init])
  {}

  lemma NoCalls<S(!new)>(l: Lts<S>, u: set<S>, seen: set<S>)
    requires Inside(l, u, [])
    ensures SerialCalls(l, u, seen, []) == [] && LevelCalls(l, u, seen, []) == []
  {}

  lemma TargetsOfHead<S>(l: Lts<S>, u: set<S>, queue: seq<S>, seen: set<S>)
    requires Inside(l, u, queue) && queue != []
    ensures var xs := Targets(l.next(queue[0]));
            if Fresh(seen, xs) == [] then u - (seen + Members(xs)) == u - seen else u - (seen + Members(xs)) < u - seen
  {
    OneTarget(l, queue[0]);
    TargetsInside(l, u, [queue[0]], seen);
    Shrinks(u, seen, Targets(l.next(queue[0])));
  }

  lemma OneDegree<S>(l: Lts<S>, s: S)
    ensures OutDegree(l, [s]) == |l.next(s)|
  {
    assert [s][..0] == [];
  }

  lemma {:induction false} AllTargetsConcat<S>(l: Lts<S>, a: seq<S>, b: seq<S>)
    ensures AllTargets(l, a + b) == AllTargets(l, a) + AllTargets(l, b)
  {
    if a == [] {
      assert a + b == b;
    } else {
      assert (a + b)[1..] == a[1..] + b;
      AllTargetsConcat(l, a[1..], b);
    }
  }

  datatype Batch<S> = Batch(generated: nat, states: seq<S>)

  /** Offers the states of all batches to the store, batch by batch. */
  method InsertBatches<S(==,!new)>(l: Lts<S>, ghost frontier: seq<S>, batches: seq<Batch<S>>, store: Store<S>)
    returns (news: seq<S>, generated: nat)
    requires |batches| == |frontier|
    requires forall i | 0 <= i < |batches| :: batches[i] == Batch(|l.next(frontier[i])|, Targets(l.next(frontier[i])))
    modifies store
    ensures news == Fresh(old(store.seen), AllTargets(l, frontier)) && generated == OutDegree(l, frontier)
    ensures store.seen == old(store.seen) + Members(AllTargets(l, frontier))
    ensures store.calls == old(store.calls) + AllTargets(l, frontier)
  {
    hide Targets, AllTargets, Fresh, OutDegree, Members;
    NoTargets(l, old(store.seen));
    news, generated := [], 0;
    assert frontier[..0] == [];
    for i := 0 to |batches|
      invariant news == Fresh(old(store.seen), AllTargets(l, frontier[..i])) && generated == OutDegree(l, frontier[..i])
      invariant store.seen == old(store.seen) + Members(AllTargets(l, frontier[..i]))
      invariant store.calls == old(store.calls) + AllTargets(l, frontier[..i])
    {
      var batch := batches[i];
      NextBatch(l, frontier, i, old(store.seen));
      var more := InsertAll(store, batch.states);
      news, generated := news + more, generated + batch.generated;
    }
    assert frontier[..|frontier|] == frontier;
  }

  lemma NoTargets<S>(l: Lts<S>, seen: set<S>)
    ensures AllTargets(l, []) == [] && Fresh(seen, []) == [] && Members<S>([]) == {} && OutDegree(l, []) == 0
  {}

  lemma NextBatch<S>(l: Lts<S>, frontier: seq<S>, i: nat, seen: set<S>)
    requires i < |frontier|
    ensures var done, next, upTo := AllTargets(l, frontier[..i]), Targets(l.next(frontier[i])), AllTargets(l, frontier[..i + 1]);
            && upTo == done + next && Members(upTo) == Members(done) + Members(next)
            && Fresh(seen, upTo) == Fresh(seen, done) + Fresh(seen + Members(done), next)
            && OutDegree(l, frontier[..i + 1]) == OutDegree(l, frontier[..i]) + |l.next(frontier[i])|
  {
    hide Targets, AllTargets, Fresh, OutDegree, Members;
    var done, s := AllTargets(l, frontier[..i]), frontier[i];
    assert frontier[..i + 1] == frontier[..i] + [s];
    AllTargetsConcat(l, frontier[..i], [s]);
    OneTarget(l, s);
    FreshConcat(seen, done, Targets(l.next(s)));
    MembersConcat(done, Targets(l.next(s)));
    OutDegreeConcat(l, frontier[..i], [s]);
    OneDegree(l, s);
  }

  /** A whole level expanded, its targets offered to the store in some order. */
  lemma LevelRound<S(!new)>(l: Lts<S>, u: set<S>, start: set<S>, seen: set<S>, expanded: seq<S>, frontier: seq<S>, stats: Stats, xs: seq<S>)
    requires Inside(l, u, frontier) && Exploring(l, u, start, seen, expanded, frontier, stats)
    requires Members(xs) == Members(AllTargets(l, frontier))
    ensures Inside(l, u, Fresh(seen, xs))
    ensures Exploring(l, u, start, seen + Members(xs), expanded + frontier, Fresh(seen, xs),
                      Stats(stats.states + |Fresh(seen, xs)|, stats.transitions + OutDegree(l, frontier)))
    ensures if Fresh(seen, xs) == [] then u - (seen + Members(xs)) == u - seen else u - (seen + Members(xs)) < u - seen
  {
    hide Exploring, AllTargets, Fresh, OutDegree, Members, Bounded;
    SortedInside(l, u, frontier, seen, xs);
    Shrinks(u, seen, xs);
    FreshMembers(seen, xs);
    assert frontier + [] == frontier && [] + Fresh(seen, xs) == Fresh(seen, xs);
    ExploringStep(l, u, start, seen, expanded, frontier, [], Fresh(seen, xs), stats);
  }

  lemma LevelHead<S>(l: Lts<S>, u: set<S>, seen: set<S>, frontier: seq<S>)
    requires Inside(l, u, frontier) && frontier != []
    ensures var xs := AllTargets(l, frontier);
            Inside(l, u, Fresh(seen, xs))
            && LevelCalls(l, u, seen, frontier) == xs + LevelCalls(l, u, seen + Members(xs), Fresh(seen, xs))
  {
    hide Bounded;
    TargetsInside(l, u, frontier, seen);
  }

  lemma SortedHead<S(!new)>(l: Lts<S>, u: set<S>, less: (S, S) -> bool, seen: set<S>, frontier: seq<S>)
    requires Inside(l, u, frontier) && StrictOrder(less) && frontier != []
    ensures var xs := Listing(less, Members(AllTargets(l, frontier)));
            Inside(l, u, Fresh(seen, xs))
            && SortedCalls(l, u, less, seen, frontier) == xs + SortedCalls(l, u, less, seen + Members(xs), Fresh(seen, xs))
  {
    hide Bounded;
    SortedInside(l, u, frontier, seen, Listing(less, Members(AllTargets(l, frontier))));
  }

  /** Expands a whole level at a time; the batches come back in the order of the
      level, however the work was shared out. */
  method ExploreLevels<S(==,!new)>(l: Lts<S>, ghost u: set<S>, store: Store<S>) returns (stats: Stats)
    requires Bounded(l, u)
    modifies store
    ensures Inside(l, u, [l.init])
    ensures store.calls == old(store.calls) + [l.init]
              + if l.init in old(store.seen) then [] else SerialCalls(l, u, old(store.seen) + {l.init}, [l.init])
    ensures old(store.seen) == {} ==> Explored(l, u, store.seen, stats)
  {
    hide Bounded, Exploring, SerialCalls, LevelCalls, Explored, Targets, AllTargets, Fresh, OutDegree, Members, Inside;
    var inserted := store.Insert(l.init);
    InitInside(l, u);
    if !inserted {
      return Stats(0, 0);
    }
    ghost var start, expanded: seq<S>, all := old(store.seen), [], LevelCalls(l, u, store.seen, [l.init]);
    SameCalls(l, u, store.seen, [l.init]);
    ExploringStarts(l, u, start);
    ghost var before := store.calls;
    var frontier := [l.init];
    stats := Stats(1, 0);
    while frontier != []
      invariant Inside(l, u, frontier) && l.init in store.seen
      invariant Exploring(l, u, start, store.seen, expanded, frontier, stats)
      invariant store.calls + LevelCalls(l, u, store.seen, frontier) == before + all
      decreases u - store.seen, |frontier|
    {
      LevelRound(l, u, start, store.seen, expanded, frontier, stats, AllTargets(l, frontier));
      LevelHead(l, u, store.seen, frontier);
      var batches := seq(|frontier|, i requires 0 <= i < |frontier| => Batch(|l.next(frontier[i])|, Targets(l.next(frontier[i]))));
      var news, generated := InsertBatches(l, frontier, batches, store);
      stats := Stats(stats.states + |news|, stats.transitions + generated);
      expanded := expanded + frontier;
      frontier := news;
    }
    NoCalls(l, u, store.seen);
    if old(store.seen) == {} { ExploringEnds(l, u, store.seen, expanded, stats); }
  }

  // -------------------------------------------------- the deterministic explorer

  /** What one worker returns: the targets of its chunk, sorted. */
  method GatherChunk<S(==,!new)>(l: Lts<S>, chunk: seq<S>, less: (S, S) -> bool) returns (batch: Batch<S>)
    requires StrictOrder(less)
    ensures batch.generated == OutDegree(l, chunk) && Members(batch.states) == Members(AllTargets(l, chunk))
  {
    hide Targets, StrictOrder;
    var states: seq<S>, generated: nat := [], 0;
    for i := 0 to |chunk|
      invariant states == AllTargets(l, chunk[..i]) && generated == OutDegree(l, chunk[..i])
    {
      ghost var s := chunk[i];
      assert chunk[..i + 1] == chunk[..i] + [s];
      AllTargetsConcat(l, chunk[..i], [s]);
      OneTarget(l, s);
      OutDegreeConcat(l, chunk[..i], [s]);
      OneDegree(l, s);
      var next := l.next(chunk[i]);
      states, generated := states + Targets(next), generated + |next|;
    }
    assert chunk[..|chunk|] == chunk;
    states := SortDedup(states, less);
    batch := Batch(generated, states);
  }

  /** Shares a level out in chunks and merges what comes back. The candidates are
      the targets of the level in ascending order, whatever the chunks were. */
  method GatherCandidates<S(==,!new)>(l: Lts<S>, frontier: seq<S>, workers: nat, less: (S, S) -> bool)
    returns (candidates: seq<S>, generated: nat)
    requires StrictOrder(less) && workers > 0
    ensures candidates == Listing(less, Members(AllTargets(l, frontier))) && generated == OutDegree(l, frontier)
  {
    hide StrictOrder;
    var size := (|frontier| + workers - 1) / workers;
    if size == 0 {
      size := 1;
    }
    candidates, generated := [], 0;
    var start := 0;
    while start < |frontier|
      invariant 0 <= start <= |frontier|
      invariant Members(candidates) == Members(AllTargets(l, frontier[..start])) && generated == OutDegree(l, frontier[..start])
    {
      var end := if start + size < |frontier| then start + size else |frontier|;
      assert frontier[..end] == frontier[..start] + frontier[start..end];
      AllTargetsConcat(l, frontier[..start], frontier[start..end]);
      OutDegreeConcat(l, frontier[..start], frontier[start..end]);
      var batch := GatherChunk(l, frontier[start..end], less);
      MembersConcat(candidates, batch.states);
      MembersConcat(AllTargets(l, frontier[..start]), AllTargets(l, frontier[start..end]));
      candidates, generated := candidates + batch.states, generated + batch.generated;
      start := end;
    }
    assert frontier[..|frontier|] == frontier;
    candidates := SortDedup(candidates, less);
    AscendingUnique(less, candidates, Listing(less, Members(AllTargets(l, frontier))));
  }

  /** Expands a whole level at a time and offers its targets in ascending order. */
  method ExploreDeterministic<S(==,!new)>(l: Lts<S>, ghost u: set<S>, store: Store<S>, workers: nat, less: (S, S) -> bool)
    returns (stats: Stats)
    requires Bounded(l, u) && StrictOrder(less) && workers > 0
    modifies store
    ensures Inside(l, u, [l.init])
    ensures store.calls == old(store.calls) + [l.init]
              + if l.init in old(store.seen) then [] else SortedCalls(l, u, less, old(store.seen) + {l.init}, [l.init])
    ensures old(store.seen) == {} ==> Explored(l, u, store.seen, stats)
  {
    hide Bounded, Exploring, Explored, Targets, AllTargets, StrictOrder, SortedCalls, Fresh, OutDegree, Members, Inside, Ascending;
    var inserted := store.Insert(l.init);
    InitInside(l, u);
    if !inserted {
      return Stats(0, 0);
    }
    ghost var start, expanded: seq<S>, all := old(store.seen), [], SortedCalls(l, u, less, store.seen, [l.init]);
    ExploringStarts(l, u, start);
    ghost var before := store.calls;
    var frontier := [l.init];
    stats := Stats(1, 0);
    while frontier != []
      invariant Inside(l, u, frontier) && l.init in store.seen
      invariant Exploring(l, u, start, store.seen, expanded, frontier, stats)
      invariant store.calls + SortedCalls(l, u, less, store.seen, frontier) == before + all
      decreases u - store.seen, |frontier|
    {
      var candidates, generated := GatherCandidates(l, frontier, workers, less);
      LevelRound(l, u, start, store.seen, expanded, frontier, stats, candidates);
      SortedHead(l, u, less, store.seen, frontier);
      var news := InsertAll(store, candidates);
      stats := Stats(stats.states + |news|, stats.transitions + generated);
      expanded := expanded + frontier;
      frontier := news;
    }
    NoSortedCalls(l, u, less, store.seen);
    if old(store.seen) == {} { ExploringEnds(l, u, store.seen, expanded, stats); }
  }

  lemma NoSortedCalls<S(!new)>(l: Lts<S>, u: set<S>, less: (S, S) -> bool, seen: set<S>)
    requires Inside(l, u, []) && StrictOrder(less)
    ensures SortedCalls(l, u, less, seen, []) == []
  {}
}
