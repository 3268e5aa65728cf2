/** The three explorers and what they have in common. */
module Explore {
  import opened Lts
  import opened Seqs
  import opened Sorting

  /** A store of states that also records, for the proofs, what it was asked. */
  class Store<S(==)> {
    var seen: set<S>
    ghost var calls: seq<S>

    constructor ()
      ensures seen == {} && calls == []
    {
      seen, calls := {}, [];
    }

    method Insert(s: S) returns (inserted: bool)
      modifies this
      ensures inserted == (s !in old(seen))
      ensures seen == old(seen) + {s} && calls == old(calls) + [s]
    {
      inserted := s !in seen;
      seen := seen + {s};
      calls := calls + [s];
    }
  }

  datatype Stats = Stats(states: nat, transitions: nat)

  function Targets<S>(next: seq<(Label, S)>): (r: seq<S>)
    ensures |r| == |next| && forall i | 0 <= i < |r| :: r[i] == next[i].1 && next[i] in next
  {
    seq(|next|, i requires 0 <= i < |next| => next[i].1)
  }

  /** The targets of a sequence of states, in order. */
  function AllTargets<S>(l: Lts<S>, states: seq<S>): seq<S> {
    if states == [] then [] else Targets(l.next(states[0])) + AllTargets(l, states[1..])
  }

  /** Those of `xs` that a store holding `seen` takes as new, in order. */
  function Fresh<S(==)>(seen: set<S>, xs: seq<S>): seq<S>
    decreases |xs|
  {
    if xs == [] then []
    else if xs[0] in seen then Fresh(seen, xs[1..])
    else [xs[0]] + Fresh(seen + {xs[0]}, xs[1..])
  }

  lemma {:induction false} FreshMembers<S>(seen: set<S>, xs: seq<S>)
    ensures Members(Fresh(seen, xs)) == Members(xs) - seen && Distinct(Fresh(seen, xs))
    decreases |xs|
  {
    if xs != [] {
      FreshMembers(seen, xs[1..]);
      FreshMembers(seen + {xs[0]}, xs[1..]);
      assert xs == [xs[0]] + xs[1..];
      var rest := Fresh(seen + {xs[0]}, xs[1..]);
      forall i | 0 <= i < |rest| ensures rest[i] != xs[0] { assert rest[i] in Members(rest); }
      assert Members([xs[0]] + rest) == {xs[0]} + Members(rest);
      assert Members(xs) == {xs[0]} + Members(xs[1..]);
    }
  }

  lemma {:induction false} FreshConcat<S>(seen: set<S>, xs: seq<S>, ys: seq<S>)
    ensures Fresh(seen, xs + ys) == Fresh(seen, xs) + Fresh(seen + Members(xs), ys)
    decreases |xs|
  {
    if xs == [] {
      assert [] + ys == ys && seen + Members(xs) == seen;
    } else {
      assert (xs + ys)[1..] == xs[1..] + ys;
      FreshConcat(seen, xs[1..], ys);
      FreshConcat(seen + {xs[0]}, xs[1..], ys);
      assert Members(xs) == {xs[0]} + Members(xs[1..]);
      assert seen + {xs[0]} + Members(xs[1..]) == seen + Members(xs);
      if xs[0] in seen { assert seen + Members(xs[1..]) == seen + Members(xs); }
    }
  }

  // ----------------------------------------------- the sequences of insertions

  ghost predicate Inside<S>(l: Lts<S>, u: set<S>, queue: seq<S>) {
    Bounded(l, u) && forall s | s in queue :: s in u
  }

  lemma {:induction false} TargetsInside<S>(l: Lts<S>, u: set<S>, queue: seq<S>, seen: set<S>)
    requires Inside(l, u, queue)
    ensures Members(AllTargets(l, queue)) <= u && forall s | s in Fresh(seen, AllTargets(l, queue)) :: s in u
  {
    if queue != [] {
      assert queue[0] in queue;
      TargetsInside(l, u, queue[1..], seen);
    }
    FreshMembers(seen, AllTargets(l, queue));
    assert forall s | s in Fresh(seen, AllTargets(l, queue)) :: s in Members(Fresh(seen, AllTargets(l, queue)));
  }

  lemma Shrinks<S>(u: set<S>, seen: set<S>, xs: seq<S>)
    requires Members(xs) <= u
    ensures if Fresh(seen, xs) == [] then u - (seen + Members(xs)) == u - seen else u - (seen + Members(xs)) < u - seen
  {
    FreshMembers(seen, xs);
    var news := Fresh(seen, xs);
    if news != [] {
      assert news[0] in Members(news);
      assert news[0] in u - seen && news[0] !in u - (seen + Members(xs));
    } else {
      assert Members(news) == {};
    }
  }

  lemma OneTarget<S>(l: Lts<S>, s: S)
    ensures AllTargets(l, [s]) == Targets(l.next(s))
  {
    assert [s][1..] == [];
  }

  /** What the explorer with a queue asks the store, state by state. */
  ghost function SerialCalls<S>(l: Lts<S>, u: set<S>, seen: set<S>, queue: seq<S>): seq<S>
    requires Inside(l, u, queue)
    decreases u - seen, |queue|
  {
    if queue == [] then []
    else
      var xs := Targets(l.next(queue[0]));
      OneTarget(l, queue[0]);
      TargetsInside(l, u, [queue[0]], seen);
      Shrinks(u, seen, xs);
      xs + SerialCalls(l, u, seen + Members(xs), queue[1..] + Fresh(seen, xs))
  }

  /** What the explorer that expands a whole level at a time asks the store. */
  ghost function LevelCalls<S>(l: Lts<S>, u: set<S>, seen: set<S>, frontier: seq<S>): seq<S>
    requires Inside(l, u, frontier)
    decreases u - seen, |frontier|
  {
    if frontier == [] then []
    else
      var xs := AllTargets(l, frontier);
      TargetsInside(l, u, frontier, seen);
      Shrinks(u, seen, xs);
      xs + LevelCalls(l, u, seen + Members(xs), Fresh(seen, xs))
  }

  lemma SerialHead<S>(l: Lts<S>, u: set<S>, seen: set<S>, s: S, rest: seq<S>)
    requires Inside(l, u, [s] + rest)
    ensures var xs := Targets(l.next(s));
            Inside(l, u, rest + Fresh(seen, xs))
            && SerialCalls(l, u, seen, [s] + rest) == xs + SerialCalls(l, u, seen + Members(xs), rest + Fresh(seen, xs))
  {
    hide Bounded;
    assert ([s] + rest)[1..] == rest && s in [s] + rest;
    OneTarget(l, s);
    TargetsInside(l, u, [s], seen);
    assert forall x | x in rest :: x in [s] + rest;
  }

  lemma {:induction false} SerialLevel<S>(l: Lts<S>, u: set<S>, seen: set<S>, level: seq<S>, rest: seq<S>)
    requires Inside(l, u, level + rest)
    ensures var xs := AllTargets(l, level);
            Inside(l, u, rest + Fresh(seen, xs))
            && SerialCalls(l, u, seen, level + rest) == xs + SerialCalls(l, u, seen + Members(xs), rest + Fresh(seen, xs))
    decreases |level|
  {
    hide Inside, SerialCalls, Targets;
    var all := AllTargets(l, level);
    if level == [] {
      assert level + rest == rest == rest + [] && seen + Members(all) == seen;
    } else {
      var s, xs, later := level[0], Targets(l.next(level[0])), level[1..];
      var news, more := Fresh(seen, xs), AllTargets(l, later);
      assert level + rest == [s] + (later + rest);
      SerialHead(l, u, seen, s, later + rest);
      assert later + rest + news == later + (rest + news);
      SerialLevel(l, u, seen + Members(xs), later, rest + news);
      FreshConcat(seen, xs, more);
      assert rest + news + Fresh(seen + Members(xs), more) == rest + Fresh(seen, all);
      assert seen + Members(xs) + Members(more) == seen + Members(all);
    }
  }

  /** Both explorers ask the store the same things in the same order. */
  lemma {:induction false} SameCalls<S>(l: Lts<S>, u: set<S>, seen: set<S>, frontier: seq<S>)
    requires Inside(l, u, frontier)
    ensures SerialCalls(l, u, seen, frontier) == LevelCalls(l, u, seen, frontier)
    decreases u - seen, |frontier|
  {
    if frontier != [] {
      var xs := AllTargets(l, frontier);
      assert frontier + [] == frontier && [] + Fresh(seen, xs) == Fresh(seen, xs);
      SerialLevel(l, u, seen, frontier, []);
      TargetsInside(l, u, frontier, seen);
      Shrinks(u, seen, xs);
      SameCalls(l, u, seen + Members(xs), Fresh(seen, xs));
    }
  }

  // ------------------------------------------------------ sorted exploration

  /** What the deterministic explorer asks the store: nothing in it depends on
      workers, chunks or a seed. */
  ghost function SortedCalls<S(!new)>(l: Lts<S>, u: set<S>, less: (S, S) -> bool, seen: set<S>, frontier: seq<S>): seq<S>
    requires Inside(l, u, frontier) && StrictOrder(less)
    decreases u - seen, |frontier|
  {
    if frontier == [] then []
    else
      var xs := Listing(less, Members(AllTargets(l, frontier)));
      SortedInside(l, u, frontier, seen, xs);
      Shrinks(u, seen, xs);
      xs + SortedCalls(l, u, less, seen + Members(xs), Fresh(seen, xs))
  }

  lemma SortedInside<S>(l: Lts<S>, u: set<S>, frontier: seq<S>, seen: set<S>, xs: seq<S>)
    requires Inside(l, u, frontier) && Members(xs) == Members(AllTargets(l, frontier))
    ensures Members(xs) <= u && Inside(l, u, Fresh(seen, xs))
  {
    TargetsInside(l, u, frontier, seen);
    FreshMembers(seen, xs);
    assert forall s | s in Fresh(seen, xs) :: s in Members(Fresh(seen, xs));
  }

  // ------------------------------------------------- what they depend on

  /** The finite set that shows that the explorers end does not matter. */
  lemma {:induction false} LevelCallsDependOnSystem<S>(l: Lts<S>, u: set<S>, u': set<S>, seen: set<S>, frontier: seq<S>)
    requires Inside(l, u, frontier) && Inside(l, u', frontier)
    ensures LevelCalls(l, u, seen, frontier) == LevelCalls(l, u', seen, frontier)
    decreases u - seen, |frontier|
  {
    if frontier != [] {
      var xs := AllTargets(l, frontier);
      TargetsInside(l, u, frontier, seen);
      TargetsInside(l, u', frontier, seen);
      Shrinks(u, seen, xs);
      LevelCallsDependOnSystem(l, u, u', seen + Members(xs), Fresh(seen, xs));
    }
  }

  lemma SerialCallsDependOnSystem<S>(l: Lts<S>, u: set<S>, u': set<S>, seen: set<S>, queue: seq<S>)
    requires Inside(l, u, queue) && Inside(l, u', queue)
    ensures SerialCalls(l, u, seen, queue) == SerialCalls(l, u', seen, queue)
  {
    SameCalls(l, u, seen, queue);
    SameCalls(l, u', seen, queue);
    LevelCallsDependOnSystem(l, u, u', seen, queue);
  }

  lemma {:induction false} SortedCallsDependOnSystem<S(!new)>(l: Lts<S>, u: set<S>, u': set<S>, less: (S, S) -> bool, seen: set<S>, frontier: seq<S>)
    requires Inside(l, u, frontier) && Inside(l, u', frontier) && StrictOrder(less)
    ensures SortedCalls(l, u, less, seen, frontier) == SortedCalls(l, u', less, seen, frontier)
    decreases u - seen, |frontier|
  {
    hide StrictOrder, Listing;
    if frontier != [] {
      var xs := Listing(less, Members(AllTargets(l, frontier)));
      SortedInside(l, u, frontier, seen, xs);
      SortedInside(l, u', frontier, seen, xs);
      Shrinks(u, seen, xs);
      SortedCallsDependOnSystem(l, u, u', less, seen + Members(xs), Fresh(seen, xs));
    }
  }
}
