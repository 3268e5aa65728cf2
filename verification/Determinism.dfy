/** The determinism checker: no visible label may lead from the τ-closure of a
    state to two different τ-closures. */
module Determinism {
  import opened Options
  import opened Lts
  import opened Graphs
  import opened ReachSearch
  import opened Seqs
  import Names
  import Utf8

  ghost function ClosureOf<S(!new)>(l: Lts<S>, s: S): iset<S> {
    TauClosure(l, iset{s})
  }

  /** From the closure of `s`, label `a` leads to different closures. */
  ghost predicate Splits<S(!new)>(l: Lts<S>, s: S, a: Label) {
    exists p, q, v, w :: p in ClosureOf(l, s) && q in ClosureOf(l, s)
                         && Edge(l, p, a, v) && Edge(l, q, a, w) && ClosureOf(l, v) != ClosureOf(l, w)
  }

  /** `a` is the first visible label on which the closure of `s` splits. */
  ghost predicate FirstSplit<S(!new)>(l: Lts<S>, s: S, a: Label) {
    a != TAU && Splits(l, s, a) && forall b | b != TAU && Utf8.SpelledBefore(b, a) :: !Splits(l, s, b)
  }

  /** Some state after `tr` first splits on `a`. */
  ghost predicate SplitsAfter<S(!new)>(l: Lts<S>, tr: Trace, a: Label) {
    exists s :: s in After(l, tr) && FirstSplit(l, s, a)
  }

  /** The erasure of a run to a state with its first split, and that label; no state with
      a split is reached in fewer raw steps. */
  ghost predicate ShortestSplit<S(!new)>(l: Lts<S>, events: Trace) {
    exists w, s, a :: IsWalk(l, w, s) && FirstSplit(l, s, a) && events == Erase(w.labels) + [a]
              && forall w', s', b | IsWalk(l, w', s') && b != TAU && Splits(l, s', b) :: |w.labels| <= |w'.labels|
  }

  ghost predicate Deterministic<S(!new)>(l: Lts<S>) {
    forall s, a | Reachable(l, s) && a != TAU :: !Splits(l, s, a)
  }

  // ------------------------------------------------- what passing means

  lemma ClosureContains<S(!new)>(l: Lts<S>, s: S)
    ensures s in ClosureOf(l, s)
  {
    TauClosureContains(l, iset{s});
  }

  lemma ClosureReached<S(!new)>(l: Lts<S>, x: iset<S>, t: S)
    ensures t in TauClosure(l, x) <==> exists s :: s in x && t in ClosureOf(l, s)
  {
    if t in TauClosure(l, x) {
      var s :| s in x && TauReach(l, s, t);
      assert s in iset{s};
      assert TauReachFrom(l, iset{s}, t);
    }
    if s :| s in x && t in ClosureOf(l, s) {
      var r :| r in iset{s} && TauReach(l, r, t);
      assert TauReachFrom(l, x, t);
    }
  }

  lemma AfterIsReachable<S(!new)>(l: Lts<S>, tr: Trace, s: S)
    requires s in After(l, tr)
    ensures Reachable(l, s)
  {
    var ss, ls :| IsRun(l, ss, ls) && ss[0] == l.init && ss[|ls|] == s && Erase(ls) == tr;
    assert IsWalk(l, Walk(ss, ls), s);
  }

  /** In a system that passes, the states after any trace are the closure of one state. */
  lemma {:induction false} PassingIsSingleState<S(!new)>(l: Lts<S>, tr: Trace) returns (s: S)
    requires Deterministic(l) && IsTrace(l, tr)
    ensures After(l, tr) == ClosureOf(l, s)
  {
    if tr == [] {
      AfterEmpty(l);
      s := l.init;
    } else {
      var n := |tr| - 1;
      var a := tr[n];
      assert tr == tr[..n] + [a];
      TracesVisible(l, tr);
      TracePrefix(l, tr, n);
      var r := PassingIsSingleState(l, tr[..n]);
      ClosureContains(l, r);
      AfterIsReachable(l, tr[..n], r);
      AfterStep(l, tr[..n], a);
      NextNonempty(l, After(l, tr[..n]), a);
      var p, v :| p in ClosureOf(l, r) && Edge(l, p, a, v);
      s := v;
      UnsplitNext(l, r, a, p, v);
    }
  }

  lemma UnsplitNext<S(!new)>(l: Lts<S>, r: S, a: Label, p: S, v: S)
    requires !Splits(l, r, a) && p in ClosureOf(l, r) && Edge(l, p, a, v)
    ensures Next(l, ClosureOf(l, r), a) == ClosureOf(l, v)
  {
    hide ClosureOf, TauClosure;
    var x := Step(l, ClosureOf(l, r), a);
    assert v in x by { assert StepsTo(l, ClosureOf(l, r), a, v); }
    forall w | w in x ensures ClosureOf(l, w) == ClosureOf(l, v) {
      var q :| q in ClosureOf(l, r) && Edge(l, q, a, w);
    }
    forall t ensures t in TauClosure(l, x) <==> t in ClosureOf(l, v) {
      ClosureReached(l, x, t);
    }
  }

  // ---------------------------------------------- the explored index graph

  /** The target of every transition, as an index into `states`. */
  ghost predicate Targets<S>(l: Lts<S>, states: seq<S>, i: nat, out: seq<(Label, nat)>) {
    && i < |states| && |out| == |l.next(states[i])|
    && forall k | 0 <= k < |out| ::
         out[k].0 == l.next(states[i])[k].0 && out[k].1 < |states| && states[out[k].1] == l.next(states[i])[k].1
  }

  function TauOf(out: seq<(Label, nat)>): seq<nat> {
    if out == [] then []
    else TauOf(out[..|out| - 1]) + if out[|out| - 1].0 == TAU then [out[|out| - 1].1] else []
  }

  /** `prev` links every state but the initial one to an earlier state. */
  ghost predicate Links<S>(l: Lts<S>, states: seq<S>, prev: seq<Option<(nat, Label)>>) {
    && |prev| == |states| && |states| > 0 && states[0] == l.init && prev[0].None?
    && forall i | 0 < i < |prev| :: prev[i].Some? && prev[i].value.0 < i && Edge(l, states[prev[i].value.0], prev[i].value.1, states[i])
  }

  ghost predicate Numbers<S(!new)>(states: seq<S>, indexOf: map<S, nat>) {
    && (forall s | s in indexOf :: indexOf[s] < |states| && states[indexOf[s]] == s)
    && (forall i | 0 <= i < |states| :: states[i] in indexOf && indexOf[states[i]] == i)
  }

  /** All reachable states, numbered, with their transitions by number. */
  ghost predicate Complete<S(!new)>(l: Lts<S>, states: seq<S>, prev: seq<Option<(nat, Label)>>,
                                    outs: seq<seq<(Label, nat)>>, taus: seq<seq<nat>>)
  {
    && Links(l, states, prev)
    && (forall i, j | 0 <= i < j < |states| :: states[i] != states[j])
    && |outs| == |states| && |taus| == |states|
    && forall i | 0 <= i < |states| :: Targets(l, states, i, outs[i]) && taus[i] == TauOf(outs[i])
  }

  /** The labels along the links from the initial state. */
  ghost function LinkLabels<S>(l: Lts<S>, states: seq<S>, prev: seq<Option<(nat, Label)>>, i: nat): Trace
    requires Links(l, states, prev) && i < |prev|
  {
    if prev[i].None? then [] else LinkLabels(l, states, prev, prev[i].value.0) + [prev[i].value.1]
  }

  lemma {:induction false} LinkWalk<S(!new)>(l: Lts<S>, states: seq<S>, prev: seq<Option<(nat, Label)>>, i: nat) returns (w: Walk<S>)
    requires Links(l, states, prev) && i < |prev|
    ensures IsWalk(l, w, states[i]) && w.labels == LinkLabels(l, states, prev, i)
    decreases i
  {
    if i == 0 {
      w := Walk([l.init], []);
    } else {
      var v := LinkWalk(l, states, prev, prev[i].value.0);
      WalkThen(l, v, states[prev[i].value.0], prev[i].value.1, states[i]);
      w := Then(v, prev[i].value.1, states[i]);
    }
  }

  method TraceVisibleEvents<S(!new)>(ghost l: Lts<S>, ghost states: seq<S>, prev: seq<Option<(nat, Label)>>, to: nat) returns (events: Trace)
    requires Links(l, states, prev) && to < |prev|
    ensures events == Erase(LinkLabels(l, states, prev, to))
  {
    var labels: Trace := [];
    var current: nat := to;
    while prev[current].Some?
      invariant current < |prev| && LinkLabels(l, states, prev, current) + labels == LinkLabels(l, states, prev, to)
      decreases current
    {
      var (before, a) := prev[current].value;
      labels := [a] + labels;
      current := before;
    }
    assert labels == LinkLabels(l, states, prev, to);
    events := VisibleEvents(labels);
  }

  // --------------------------------------------------------- exploration

  ghost predicate Found<S(!new)>(l: Lts<S>, u: set<S>, states: seq<S>, prev: seq<Option<(nat, Label)>>, indexOf: map<S, nat>) {
    Links(l, states, prev) && Numbers(states, indexOf) && forall s | s in states :: s in u
  }

  lemma FindOne<S(!new)>(l: Lts<S>, u: set<S>, states: seq<S>, prev: seq<Option<(nat, Label)>>, indexOf: map<S, nat>,
                         idx: nat, a: Label, t: S)
    requires Found(l, u, states, prev, indexOf) && idx < |states| && Edge(l, states[idx], a, t) && t !in indexOf && t in u
    ensures Found(l, u, states + [t], prev + [Some((idx, a))], indexOf[t := |states|])
  {
    assert t !in states;
  }

  /** The links of later states lead no further back. */
  ghost predicate InOrder(prev: seq<Option<(nat, Label)>>, n: nat) {
    && (forall i | 0 < i < |prev| :: prev[i].Some? && prev[i].value.0 < n)
    && forall i, j | 0 < i < j < |prev| :: prev[i].value.0 <= prev[j].value.0
  }

  /** The targets of the `i`-th state were met from it at the latest. */
  ghost predicate NoLater(prev: seq<Option<(nat, Label)>>, i: nat, out: seq<(Label, nat)>) {
    forall k | 0 <= k < |out| :: out[k].1 < |prev| && (out[k].1 > 0 ==> prev[out[k].1].Some? && prev[out[k].1].value.0 <= i)
  }

  ghost predicate Leveled(prev: seq<Option<(nat, Label)>>, outs: seq<seq<(Label, nat)>>) {
    InOrder(prev, |prev|) && forall i | 0 <= i < |outs| :: NoLater(prev, i, outs[i])
  }

  lemma NoLaterGrows(prev: seq<Option<(nat, Label)>>, prev': seq<Option<(nat, Label)>>, i: nat, out: seq<(Label, nat)>)
    requires NoLater(prev, i, out) && prev <= prev'
    ensures NoLater(prev', i, out)
  {}

  lemma NoLaterSnoc(prev: seq<Option<(nat, Label)>>, idx: nat, out: seq<(Label, nat)>, e: (Label, nat))
    requires InOrder(prev, idx + 1) && NoLater(prev, idx, out) && e.1 < |prev|
    ensures NoLater(prev, idx, out + [e])
  {}

  lemma StartLater(prev: seq<Option<(nat, Label)>>, idx: nat)
    requires InOrder(prev, idx)
    ensures InOrder(prev, idx + 1) && NoLater(prev, idx, [])
  {}

  lemma InOrderSnoc(prev: seq<Option<(nat, Label)>>, idx: nat, a: Label)
    requires InOrder(prev, idx + 1) && |prev| > 0
    ensures InOrder(prev + [Some((idx, a))], idx + 1)
  {}

  lemma FoundFacts<S(!new)>(l: Lts<S>, u: set<S>, states: seq<S>, prev: seq<Option<(nat, Label)>>, indexOf: map<S, nat>)
    requires Found(l, u, states, prev, indexOf)
    ensures |prev| == |states| > 0 && forall t | t in indexOf :: indexOf[t] < |states| && states[indexOf[t]] == t
  {}

  lemma StepInside<S(!new)>(l: Lts<S>, u: set<S>, states: seq<S>, prev: seq<Option<(nat, Label)>>, indexOf: map<S, nat>, idx: nat, a: Label, t: S)
    requires Bounded(l, u) && Found(l, u, states, prev, indexOf) && idx < |states| && (a, t) in l.next(states[idx])
    ensures Edge(l, states[idx], a, t) && t in u
  {
    assert states[idx] in states && (a, t).1 in u;
  }

  /** The number of a target, which is recorded when it is new. */
  method NumberOf<S(==,!new)>(ghost l: Lts<S>, ghost u: set<S>, idx: nat, a: Label, t: S, states: seq<S>, prev: seq<Option<(nat, Label)>>, indexOf: map<S, nat>)
    returns (n: nat, states': seq<S>, prev': seq<Option<(nat, Label)>>, indexOf': map<S, nat>)
    requires Bounded(l, u) && Found(l, u, states, prev, indexOf) && idx < |states| && InOrder(prev, idx + 1)
    requires (a, t) in l.next(states[idx])
    ensures Found(l, u, states', prev', indexOf') && states <= states' && prev <= prev' && InOrder(prev', idx + 1)
    ensures n < |states'| == |prev'| && states'[n] == t
  {
    hide InOrder, Found, Bounded;
    FoundFacts(l, u, states, prev, indexOf);
    if t in indexOf {
      return indexOf[t], states, prev, indexOf;
    }
    StepInside(l, u, states, prev, indexOf, idx, a, t);
    FindOne(l, u, states, prev, indexOf, idx, a, t);
    InOrderSnoc(prev, idx, a);
    n, states', prev', indexOf' := |states|, states + [t], prev + [Some((idx, a))], indexOf[t := |states|];
  }

  /** The first transitions, with the targets by number. */
  ghost predicate NumbersFirst<S>(next: seq<(Label, S)>, states: seq<S>, out: seq<(Label, nat)>) {
    && |out| <= |next|
    && forall j | 0 <= j < |out| :: out[j].0 == next[j].0 && out[j].1 < |states| && states[out[j].1] == next[j].1
  }

  lemma NumbersNext<S>(next: seq<(Label, S)>, states: seq<S>, states': seq<S>, out: seq<(Label, nat)>, n: nat)
    requires NumbersFirst(next, states, out) && states <= states' && |out| < |next| && n < |states'| && states'[n] == next[|out|].1
    ensures NumbersFirst(next, states', out + [(next[|out|].0, n)])
  {}

  lemma NoneNumbered<S>(next: seq<(Label, S)>, states: seq<S>)
    ensures NumbersFirst(next, states, []) && TauOf([]) == []
  {}

  lemma AllNumbered<S>(l: Lts<S>, states: seq<S>, idx: nat, out: seq<(Label, nat)>)
    requires idx < |states| && NumbersFirst(l.next(states[idx]), states, out) && |out| == |l.next(states[idx])|
    ensures Targets(l, states, idx, out)
  {}

  lemma TauOfNext(out: seq<(Label, nat)>, a: Label, n: nat)
    ensures TauOf(out + [(a, n)]) == TauOf(out) + if a == TAU then [n] else []
  {
    assert (out + [(a, n)])[..|out|] == out;
  }

  /** Numbers the targets of the transitions of one state, recording new ones. */
  method Expand<S(==,!new)>(l: Lts<S>, ghost u: set<S>, idx: nat, states: seq<S>, prev: seq<Option<(nat, Label)>>, indexOf: map<S, nat>)
    returns (states': seq<S>, prev': seq<Option<(nat, Label)>>, indexOf': map<S, nat>, out: seq<(Label, nat)>, tau: seq<nat>)
    requires Bounded(l, u) && Found(l, u, states, prev, indexOf) && idx < |states| && InOrder(prev, idx)
    ensures Found(l, u, states', prev', indexOf') && states <= states'
    ensures Targets(l, states', idx, out) && tau == TauOf(out)
    ensures prev <= prev' && InOrder(prev', idx + 1) && NoLater(prev', idx, out)
  {
    StartLater(prev, idx);
    hide InOrder, NoLater, Found, Bounded, NumbersFirst, TauOf;
    NoneNumbered(l.next(states[idx]), states);
    states', prev', indexOf', out, tau := states, prev, indexOf, [], [];
    var next := l.next(states[idx]);
    for k := 0 to |next|
      invariant Found(l, u, states', prev', indexOf') && states <= states' && |out| == k && tau == TauOf(out)
      invariant prev <= prev' && InOrder(prev', idx + 1) && NoLater(prev', idx, out)
      invariant NumbersFirst(next, states', out)
    {
      var (a, t) := next[k];
      assert next[k] in next && states'[idx] == states[idx];
      ghost var before, known := prev', states';
      var n;
      n, states', prev', indexOf' := NumberOf(l, u, idx, a, t, states', prev', indexOf');
      NoLaterGrows(before, prev', idx, out);
      NoLaterSnoc(prev', idx, out, (a, n));
      NumbersNext(next, known, states', out, n);
      TauOfNext(out, a, n);
      out := out + [(a, n)];
      if a == TAU {
        tau := tau + [n];
      }
    }
    AllNumbered(l, states', idx, out);
  }

  lemma TargetsGrow<S>(l: Lts<S>, states: seq<S>, states': seq<S>, i: nat, out: seq<(Label, nat)>)
    requires Targets(l, states, i, out) && states <= states'
    ensures Targets(l, states', i, out)
  {}

  lemma StartInOrder()
    ensures InOrder([None], 0)
  {}

  /** Explores and numbers all reachable states; the work queue is the range of
      numbers not yet expanded. */
  method ExploreIndexed<S(==,!new)>(l: Lts<S>, ghost u: set<S>)
    returns (states: seq<S>, prev: seq<Option<(nat, Label)>>, outs: seq<seq<(Label, nat)>>, taus: seq<seq<nat>>)
    requires Bounded(l, u)
    ensures Complete(l, states, prev, outs, taus) && Leveled(prev, outs)
  {
    hide InOrder, NoLater;
    assert InOrder([None], 0) by { StartInOrder(); }
    var indexOf := map[l.init := 0];
    states, prev, outs, taus := [l.init], [None], [[]], [[]];
    var queue: seq<nat> := [0];
    ghost var done: nat := 0;
    while queue != []
      invariant Found(l, u, states, prev, indexOf)
      invariant done <= |states| && queue == seq(|states| - done, (i: nat) => done + i)
      invariant |outs| == |states| && |taus| == |states|
      invariant forall i | done <= i < |states| :: outs[i] == [] && taus[i] == []
      invariant forall i | 0 <= i < done :: Targets(l, states, i, outs[i]) && taus[i] == TauOf(outs[i])
      invariant InOrder(prev, done) && forall i | 0 <= i < done :: NoLater(prev, i, outs[i])
      decreases |u| - done
    {
      NumberedFits(l, u, states, prev, indexOf);
      var idx := queue[0];
      queue := queue[1..];
      var states', prev', indexOf', out, tau := Expand(l, u, idx, states, prev, indexOf);
      forall i | 0 <= i < done ensures Targets(l, states', i, outs[i]) {
        TargetsGrow(l, states, states', i, outs[i]);
      }
      forall i | 0 <= i < done ensures NoLater(prev', i, outs[i]) {
        NoLaterGrows(prev, prev', i, outs[i]);
      }
      var fresh' := |states'| - |states|;
      queue := queue + seq(fresh', (i: nat) => |states| + i);
      outs := outs[idx := out] + seq(fresh', (i: nat) => []);
      taus := taus[idx := tau] + seq(fresh', (i: nat) => []);
      states, prev, indexOf := states', prev', indexOf';
      done := done + 1;
    }
  }

  lemma NumberedFits<S(!new)>(l: Lts<S>, u: set<S>, states: seq<S>, prev: seq<Option<(nat, Label)>>, indexOf: map<S, nat>)
    requires Found(l, u, states, prev, indexOf)
    ensures |states| <= |u|
  {
    DistinctFits(states, u);
  }

  lemma DistinctFits<S>(q: seq<S>, u: set<S>)
    requires (forall s | s in q :: s in u) && forall i, j | 0 <= i < j < |q| :: q[i] != q[j]
    ensures |q| <= |u|
  {
    if q != [] {
      DistinctFits(q[1..], u - {q[0]});
    }
  }

  // -------------------------------------------------- closures by number

  /** The members of `s` below `n`, ascending. */
  function Listing(n: nat, s: set<nat>): seq<nat> {
    if n == 0 then [] else Listing(n - 1, s) + if n - 1 in s then [n - 1] else []
  }

  lemma {:induction false} ListingMembers(n: nat, s: set<nat>, v: nat)
    ensures v in Listing(n, s) <==> v < n && v in s
  {
    if n > 0 { ListingMembers(n - 1, s, v); }
  }

  lemma MembersSnoc<T>(q: seq<T>, x: T)
    ensures Members(q + [x]) == Members(q) + {x}
  {}

  ghost function ReachSet(g: Graph, v: nat): set<nat> {
    set w: nat | w < |g| && Reaches(g, v, w)
  }

  /** One closure: a search from `start`, then the nodes seen in ascending order. */
  method ComputeTauClosure(g: Graph, start: nat) returns (closure: seq<nat>)
    requires WellFormed(g) && start < |g|
    ensures closure == Listing(|g|, ReachSet(g, start))
  {
    hide Reaches;
    var seen: set<nat> := {start};
    var queue := [start];
    closure := [];
    ReachesSelf(g, start);
    while queue != []
      invariant forall v :: v in seen <==> v in queue || v in closure
      invariant seen <= ReachSet(g, start)
      invariant forall v, w | v in closure && v < |g| && w in g[v] :: w in seen
      invariant start in seen
      decreases ReachSet(g, start) - seen, |queue|
    {
      var v := queue[0];
      assert v in ReachSet(g, start);
      assert forall x | x in queue :: x == v || x in queue[1..];
      ghost var seen0 := seen;
      queue := queue[1..];
      closure := closure + [v];
      ghost var queue1 := queue;
      for k := 0 to |g[v]|
        invariant seen0 <= seen && (forall x :: x in seen <==> x in queue || x in closure)
        invariant seen <= ReachSet(g, start)
        invariant forall j | 0 <= j < k :: g[v][j] in seen
        invariant seen == seen0 ==> queue == queue1
      {
        var w := g[v][k];
        if w !in seen {
          assert w in g[v];
          ReachesEdge(g, v, w);
          ReachesTransitive(g, start, v, w);
          seen, queue := seen + {w}, queue + [w];
        }
      }
    }
    forall v: nat | v < |g| && Reaches(g, start, v) ensures v in seen {
      ClosedReach(g, seen, start, v);
    }
    assert ReachSet(g, start) == Members(closure);
    closure := SortNodes(|g|, closure);
  }

  lemma ClosedReach(g: Graph, s: set<nat>, v: nat, w: nat)
    requires Reaches(g, v, w) && v in s && forall x, y | x in s && x < |g| && y in g[x] :: y in s
    ensures w in s
  {
    var p :| IsPath(g, p) && p[0] == v && p[|p| - 1] == w;
    var i := 0;
    while i < |p| - 1
      invariant 0 <= i < |p| && p[i] in s
    {
      assert p[i + 1] in g[p[i]];
      i := i + 1;
    }
  }

  method SortNodes(n: nat, q: seq<nat>) returns (r: seq<nat>)
    ensures r == Listing(n, Members(q))
  {
    r := [];
    for v := 0 to n
      invariant r == Listing(v, Members(q))
    {
      if v in q {
        r := r + [v];
      }
    }
  }

  method ComputeTauClosures(g: Graph) returns (out: seq<seq<nat>>)
    requires WellFormed(g)
    ensures |out| == |g| && forall v | 0 <= v < |g| :: out[v] == Listing(|g|, ReachSet(g, v))
  {
    out := [];
    for start := 0 to |g|
      invariant |out| == start && forall v | 0 <= v < start :: out[v] == Listing(|g|, ReachSet(g, v))
    {
      var closure := ComputeTauClosure(g, start);
      out := out + [closure];
    }
  }

  // ------------------------------------------------------------- the check

  /** The labelled steps out of a closure. */
  ghost function StepsOf(outs: seq<seq<(Label, nat)>>, closure: seq<nat>): set<(Label, nat)> {
    set u, e | u in closure && u < |outs| && e in outs[u] :: e
  }

  ghost predicate SplitAt(outs: seq<seq<(Label, nat)>>, closures: seq<seq<nat>>, i: nat, a: Label) {
    && i < |closures|
    && exists v: nat, w: nat :: v < |closures| && w < |closures|
         && (a, v) in StepsOf(outs, closures[i]) && (a, w) in StepsOf(outs, closures[i]) && closures[v] != closures[w]
  }

  /** The closures that every visible label leads to by the given steps. */
  ghost predicate Grouped(closures: seq<seq<nat>>, steps: set<(Label, nat)>, byLabel: map<Label, set<seq<nat>>>) {
    && TAU !in byLabel
    && (forall a, c | a in byLabel && c in byLabel[a] :: exists v: nat :: v < |closures| && (a, v) in steps && closures[v] == c)
    && (forall e: (Label, nat) | e in steps && e.0 != TAU && e.1 < |closures| :: e.0 in byLabel && closures[e.1] in byLabel[e.0])
  }

  lemma GroupOne(closures: seq<seq<nat>>, steps: set<(Label, nat)>, byLabel: map<Label, set<seq<nat>>>, e: (Label, nat))
    requires Grouped(closures, steps, byLabel) && e.1 < |closures| && e.0 != TAU
    ensures Grouped(closures, steps + {e}, byLabel[e.0 := (if e.0 in byLabel then byLabel[e.0] else {}) + {closures[e.1]}])
  {
    var byLabel' := byLabel[e.0 := (if e.0 in byLabel then byLabel[e.0] else {}) + {closures[e.1]}];
    forall a, c | a in byLabel' && c in byLabel'[a]
      ensures exists v: nat :: v < |closures| && (a, v) in steps + {e} && closures[v] == c
    {
      if a in byLabel && c in byLabel[a] {
        var v: nat :| v < |closures| && (a, v) in steps && closures[v] == c;
        assert (a, v) in steps + {e};
      } else {
        assert (a, e.1) in steps + {e};
      }
    }
  }

  lemma SplitIffTwo(outs: seq<seq<(Label, nat)>>, closures: seq<seq<nat>>, i: nat, byLabel: map<Label, set<seq<nat>>>, a: Label)
    requires i < |closures| && Grouped(closures, StepsOf(outs, closures[i]), byLabel) && a in byLabel
    ensures SplitAt(outs, closures, i, a) <==> |byLabel[a]| > 1
  {
    var targets := byLabel[a];
    if |targets| > 1 {
      var c :| c in targets;
      assert |targets - {c}| >= 1;
      var d :| d in targets - {c};
      var v: nat :| v < |closures| && (a, v) in StepsOf(outs, closures[i]) && closures[v] == c;
      var w: nat :| w < |closures| && (a, w) in StepsOf(outs, closures[i]) && closures[w] == d;
    }
    if SplitAt(outs, closures, i, a) {
      var v: nat, w: nat :| v < |closures| && w < |closures|
        && (a, v) in StepsOf(outs, closures[i]) && (a, w) in StepsOf(outs, closures[i]) && closures[v] != closures[w];
      assert {closures[v], closures[w]} <= targets;
      assert |{closures[v], closures[w]}| == 2;
      SubsetSize({closures[v], closures[w]}, targets);
    }
  }

  lemma SubsetSize<T>(a: set<T>, b: set<T>)
    requires a <= b
    ensures |a| <= |b|
  {
    assert b == a + (b - a);
  }

  method GroupByLabel(outs: seq<seq<(Label, nat)>>, closures: seq<seq<nat>>, closure: seq<nat>) returns (byLabel: map<Label, set<seq<nat>>>)
    requires (forall u | u in closure :: u < |outs|) && forall i, e | 0 <= i < |outs| && e in outs[i] :: e.1 < |closures|
    ensures Grouped(closures, StepsOf(outs, closure), byLabel)
  {
    byLabel := map[];
    for k := 0 to |closure|
      invariant Grouped(closures, StepsOf(outs, closure[..k]), byLabel)
    {
      var u := closure[k];
      assert u in closure;
      assert closure[..k + 1] == closure[..k] + [u];
      ghost var steps := StepsOf(outs, closure[..k]);
      for j := 0 to |outs[u]|
        invariant Grouped(closures, steps + Members(outs[u][..j]), byLabel)
      {
        var e := outs[u][j];
        assert e in outs[u];
        assert outs[u][..j + 1] == outs[u][..j] + [e];
        MembersSnoc(outs[u][..j], e);
        assert steps + Members(outs[u][..j + 1]) == steps + Members(outs[u][..j]) + {e};
        if e.0 == TAU {
          continue;
        }
        GroupOne(closures, steps + Members(outs[u][..j]), byLabel, e);
        byLabel := byLabel[e.0 := (if e.0 in byLabel then byLabel[e.0] else {}) + {closures[e.1]}];
      }
      assert outs[u][..|outs[u]|] == outs[u];
      StepsSnoc(outs, closure[..k], u);
    }
    assert closure[..|closure|] == closure;
  }

  lemma StepsSnoc(outs: seq<seq<(Label, nat)>>, closure: seq<nat>, u: nat)
    requires u < |outs|
    ensures StepsOf(outs, closure + [u]) == StepsOf(outs, closure) + Members(outs[u])
  {
    forall e ensures e in StepsOf(outs, closure + [u]) <==> e in StepsOf(outs, closure) || e in outs[u] {
      if e in StepsOf(outs, closure + [u]) {
        var x :| x in closure + [u] && x < |outs| && e in outs[x];
        assert x == u || x in closure;
      }
      if e in StepsOf(outs, closure) {
        var x :| x in closure && x < |outs| && e in outs[x];
        assert x in closure + [u];
      }
      if e in outs[u] { assert u in closure + [u]; }
    }
  }

  // ------------------------------------------- numbers stand for states

  lemma {:induction false} TauOfMembers(out: seq<(Label, nat)>, w: nat)
    ensures w in TauOf(out) <==> (TAU, w) in out
  {
    if out != [] {
      TauOfMembers(out[..|out| - 1], w);
      assert out == out[..|out| - 1] + [out[|out| - 1]];
    }
  }

  lemma EdgesByNumber<S(!new)>(l: Lts<S>, states: seq<S>, prev: seq<Option<(nat, Label)>>, outs: seq<seq<(Label, nat)>>, taus: seq<seq<nat>>,
                               i: nat, a: Label, t: S)
    requires Complete(l, states, prev, outs, taus) && i < |states|
    ensures Edge(l, states[i], a, t) <==> exists j: nat :: j < |states| && states[j] == t && (a, j) in outs[i]
    ensures forall e | e in outs[i] :: e.1 < |states| && Edge(l, states[i], e.0, states[e.1])
  {
    var next := l.next(states[i]);
    assert Targets(l, states, i, outs[i]);
    forall e | e in outs[i] ensures e.1 < |states| && Edge(l, states[i], e.0, states[e.1]) {
      var k :| 0 <= k < |outs[i]| && outs[i][k] == e;
      assert next[k] in next;
    }
    if Edge(l, states[i], a, t) {
      var k :| 0 <= k < |next| && next[k] == (a, t);
      assert outs[i][k] in outs[i];
    }
  }

  lemma TauGraphByNumber<S(!new)>(l: Lts<S>, states: seq<S>, prev: seq<Option<(nat, Label)>>, outs: seq<seq<(Label, nat)>>, taus: seq<seq<nat>>)
    requires Complete(l, states, prev, outs, taus)
    ensures WellFormed(taus)
    ensures forall i, j | 0 <= i < |states| && j in taus[i] :: j < |states| && Edge(l, states[i], TAU, states[j])
    ensures forall i, t | 0 <= i < |states| && Edge(l, states[i], TAU, t) :: exists j :: 0 <= j < |states| && states[j] == t && j in taus[i]
  {
    hide Links;
    forall v, w | 0 <= v < |taus| && w in taus[v] ensures w < |taus| {
      TauOfMembers(outs[v], w);
      EdgesByNumber(l, states, prev, outs, taus, v, TAU, states[v]);
    }
    forall i, j: nat | 0 <= i < |states| && j in taus[i] ensures j < |states| && Edge(l, states[i], TAU, states[j]) {
      TauOfMembers(outs[i], j);
      EdgesByNumber(l, states, prev, outs, taus, i, TAU, states[i]);
    }
    forall i, t | 0 <= i < |states| && Edge(l, states[i], TAU, t) ensures exists j :: 0 <= j < |states| && states[j] == t && j in taus[i] {
      EdgesByNumber(l, states, prev, outs, taus, i, TAU, t);
      var j: nat :| j < |states| && states[j] == t && (TAU, j) in outs[i];
      TauOfMembers(outs[i], j);
    }
  }

  ghost predicate Holds<S>(states: seq<S>, ns: set<nat>, t: S) {
    exists j :: j in ns && j < |states| && states[j] == t
  }

  ghost function StatesAt<S(!new)>(states: seq<S>, ns: set<nat>): iset<S> {
    iset t: S | Holds(states, ns, t)
  }

  lemma ReachWithinClosure<S(!new)>(l: Lts<S>, states: seq<S>, taus: seq<seq<nat>>, i: nat, j: nat)
    requires |taus| == |states| && i < |states| && j in ReachSet(taus, i)
    requires forall i, j | 0 <= i < |states| && j in taus[i] :: j < |states| && Edge(l, states[i], TAU, states[j])
    ensures states[j] in ClosureOf(l, states[i])
  {
    var p :| IsPath(taus, p) && p[0] == i && p[|p| - 1] == j;
    var q := seq(|p|, (k: nat) requires k < |p| => states[p[k]]);
    assert TauRun(l, q);
    assert TauReach(l, states[i], states[j]);
    assert states[i] in iset{states[i]};
    assert TauReachFrom(l, iset{states[i]}, states[j]);
  }

  /** Paths in the graph of internal steps are internal runs. */
  lemma ReachIsClosure<S(!new)>(l: Lts<S>, states: seq<S>, prev: seq<Option<(nat, Label)>>, outs: seq<seq<(Label, nat)>>, taus: seq<seq<nat>>, i: nat)
    requires Complete(l, states, prev, outs, taus) && i < |states|
    ensures ClosureOf(l, states[i]) == StatesAt(states, ReachSet(taus, i))
  {
    TauGraphByNumber(l, states, prev, outs, taus);
    hide Complete, Reaches, TauClosure, Holds;
    var y := StatesAt(states, ReachSet(taus, i));
    StartHolds(states, taus, i);
    forall s, t | s in y && Edge(l, s, TAU, t) ensures t in y {
      var j := HeldAt(states, ReachSet(taus, i), s);
      var k :| 0 <= k < |states| && states[k] == t && k in taus[j];
      StepHolds(states, taus, i, j, k);
    }
    TauClosureLeast(l, iset{states[i]}, y);
    forall t | t in y ensures t in ClosureOf(l, states[i]) {
      var j := HeldAt(states, ReachSet(taus, i), t);
      ReachWithinClosure(l, states, taus, i, j);
    }
  }

  lemma StartHolds<S>(states: seq<S>, g: Graph, i: nat)
    requires i < |g| == |states|
    ensures Holds(states, ReachSet(g, i), states[i])
  {
    ReachesSelf(g, i);
    assert i in ReachSet(g, i);
  }

  lemma StepHolds<S>(states: seq<S>, g: Graph, i: nat, j: nat, k: nat)
    requires |g| == |states| && j in ReachSet(g, i) && k < |g| && k in g[j]
    ensures Holds(states, ReachSet(g, i), states[k])
  {
    ReachesEdge(g, j, k);
    ReachesTransitive(g, i, j, k);
    assert k in ReachSet(g, i);
  }

  lemma HeldAt<S>(states: seq<S>, ns: set<nat>, t: S) returns (j: nat)
    requires Holds(states, ns, t)
    ensures j in ns && j < |states| && states[j] == t
  {
    j :| j in ns && j < |states| && states[j] == t;
  }

  lemma DistinctStates<S(!new)>(l: Lts<S>, states: seq<S>, prev: seq<Option<(nat, Label)>>, outs: seq<seq<(Label, nat)>>, taus: seq<seq<nat>>)
    requires Complete(l, states, prev, outs, taus)
    ensures |taus| == |states| && forall i, j | 0 <= i < j < |states| :: states[i] != states[j]
  {}

  lemma SameListing<S(!new)>(l: Lts<S>, states: seq<S>, prev: seq<Option<(nat, Label)>>, outs: seq<seq<(Label, nat)>>, taus: seq<seq<nat>>,
                             v: nat, w: nat)
    requires Complete(l, states, prev, outs, taus) && v < |states| && w < |states|
    ensures Listing(|taus|, ReachSet(taus, v)) == Listing(|taus|, ReachSet(taus, w)) <==> ClosureOf(l, states[v]) == ClosureOf(l, states[w])
  {
    ReachIsClosure(l, states, prev, outs, taus, v);
    ReachIsClosure(l, states, prev, outs, taus, w);
    DistinctStates(l, states, prev, outs, taus);
    hide ClosureOf, Reaches, Complete, Listing, StatesAt;
    var a, b := ReachSet(taus, v), ReachSet(taus, w);
    ListingSame(|taus|, a, b);
    StatesAtSame(states, a, b);
  }

  lemma ListingSame(n: nat, a: set<nat>, b: set<nat>)
    requires forall x | x in a || x in b :: x < n
    ensures Listing(n, a) == Listing(n, b) <==> a == b
  {
    hide Listing;
    if Listing(n, a) == Listing(n, b) {
      forall x: nat ensures x in a <==> x in b {
        ListingMembers(n, a, x);
        ListingMembers(n, b, x);
      }
    }
  }

  lemma StatesAtSame<S(!new)>(states: seq<S>, a: set<nat>, b: set<nat>)
    requires forall i, j | 0 <= i < j < |states| :: states[i] != states[j]
    requires forall x | x in a || x in b :: x < |states|
    ensures StatesAt(states, a) == StatesAt(states, b) <==> a == b
  {
    hide StatesAt;
    if StatesAt(states, a) == StatesAt(states, b) {
      forall x: nat ensures x in a <==> x in b {
        if x in a { HeldBoth(states, a, b, x); }
        if x in b { HeldBoth(states, b, a, x); }
      }
    }
  }

  lemma HeldBoth<S(!new)>(states: seq<S>, a: set<nat>, b: set<nat>, x: nat)
    requires x in a && x < |states| && StatesAt(states, a) == StatesAt(states, b)
    requires forall i, j | 0 <= i < j < |states| :: states[i] != states[j]
    ensures x in b
  {
    assert Holds(states, a, states[x]);
    assert states[x] in StatesAt(states, b);
  }

  lemma SplitOfNumbers<S(!new)>(l: Lts<S>, states: seq<S>, prev: seq<Option<(nat, Label)>>, outs: seq<seq<(Label, nat)>>, taus: seq<seq<nat>>,
                               closures: seq<seq<nat>>, i: nat, a: Label)
    requires |closures| == |states| && i < |states| && Complete(l, states, prev, outs, taus)
    requires forall v | 0 <= v < |closures| :: closures[v] == Listing(|taus|, ReachSet(taus, v))
    requires SplitAt(outs, closures, i, a)
    ensures Splits(l, states[i], a)
  {
    hide ClosureOf, Complete, StepsOf, ReachSet;
    var v: nat, w: nat :| v < |closures| && w < |closures|
      && (a, v) in StepsOf(outs, closures[i]) && (a, w) in StepsOf(outs, closures[i]) && closures[v] != closures[w];
    var p := StepSource(l, states, prev, outs, taus, i, a, v);
    var q := StepSource(l, states, prev, outs, taus, i, a, w);
    SameListing(l, states, prev, outs, taus, v, w);
  }

  lemma SplitOfStates<S(!new)>(l: Lts<S>, states: seq<S>, prev: seq<Option<(nat, Label)>>, outs: seq<seq<(Label, nat)>>, taus: seq<seq<nat>>,
                               closures: seq<seq<nat>>, i: nat, a: Label)
    requires |closures| == |states| && i < |states| && Complete(l, states, prev, outs, taus)
    requires forall v | 0 <= v < |closures| :: closures[v] == Listing(|taus|, ReachSet(taus, v))
    requires Splits(l, states[i], a)
    ensures SplitAt(outs, closures, i, a)
  {
    hide ClosureOf, Complete, StepsOf, ReachSet;
    var p, q, v, w :| p in ClosureOf(l, states[i]) && q in ClosureOf(l, states[i])
                      && Edge(l, p, a, v) && Edge(l, q, a, w) && ClosureOf(l, v) != ClosureOf(l, w);
    var j := StepTarget(l, states, prev, outs, taus, i, a, p, v);
    var k := StepTarget(l, states, prev, outs, taus, i, a, q, w);
    SameListing(l, states, prev, outs, taus, j, k);
  }

  lemma StepSource<S(!new)>(l: Lts<S>, states: seq<S>, prev: seq<Option<(nat, Label)>>, outs: seq<seq<(Label, nat)>>, taus: seq<seq<nat>>,
                            i: nat, a: Label, v: nat) returns (p: S)
    requires Complete(l, states, prev, outs, taus) && i < |states| && v < |states|
    requires (a, v) in StepsOf(outs, Listing(|taus|, ReachSet(taus, i)))
    ensures p in ClosureOf(l, states[i]) && Edge(l, p, a, states[v])
  {
    hide ClosureOf, Reaches;
    var u :| u in Listing(|taus|, ReachSet(taus, i)) && u < |outs| && (a, v) in outs[u];
    ListingMembers(|taus|, ReachSet(taus, i), u);
    ReachIsClosure(l, states, prev, outs, taus, i);
    assert Holds(states, ReachSet(taus, i), states[u]);
    EdgesByNumber(l, states, prev, outs, taus, u, a, states[v]);
    p := states[u];
  }

  lemma StepTarget<S(!new)>(l: Lts<S>, states: seq<S>, prev: seq<Option<(nat, Label)>>, outs: seq<seq<(Label, nat)>>, taus: seq<seq<nat>>,
                            i: nat, a: Label, p: S, v: S) returns (j: nat)
    requires Complete(l, states, prev, outs, taus) && i < |states|
    requires p in ClosureOf(l, states[i]) && Edge(l, p, a, v)
    ensures j < |states| && states[j] == v && (a, j) in StepsOf(outs, Listing(|taus|, ReachSet(taus, i)))
  {
    hide ClosureOf, Reaches;
    ReachIsClosure(l, states, prev, outs, taus, i);
    assert Holds(states, ReachSet(taus, i), p);
    var u :| u in ReachSet(taus, i) && u < |states| && states[u] == p;
    ListingMembers(|taus|, ReachSet(taus, i), u);
    EdgesByNumber(l, states, prev, outs, taus, u, a, v);
    j :| j < |states| && states[j] == v && (a, j) in outs[u];
  }

  lemma NumberedAreReachable<S(!new)>(l: Lts<S>, states: seq<S>, prev: seq<Option<(nat, Label)>>, outs: seq<seq<(Label, nat)>>, taus: seq<seq<nat>>, s: S)
    requires Complete(l, states, prev, outs, taus)
    ensures s in states <==> Reachable(l, s)
  {
    if i :| 0 <= i < |states| && states[i] == s {
      var w := LinkWalk(l, states, prev, i);
    }
    if w :| IsWalk(l, w, s) {
      WalkIsNumbered(l, states, prev, outs, taus, w, s);
    }
  }

  lemma {:induction false} WalkIsNumbered<S(!new)>(l: Lts<S>, states: seq<S>, prev: seq<Option<(nat, Label)>>, outs: seq<seq<(Label, nat)>>, taus: seq<seq<nat>>,
                                                   w: Walk<S>, s: S)
    requires Complete(l, states, prev, outs, taus) && IsWalk(l, w, s)
    ensures s in states
    decreases |w.labels|
  {
    if w.labels != [] {
      var n := |w.labels| - 1;
      RunFront(l, w.states, w.labels);
      var v := Walk(w.states[..n + 1], w.labels[..n]);
      assert IsWalk(l, v, w.states[n]);
      WalkIsNumbered(l, states, prev, outs, taus, v, w.states[n]);
      var i :| 0 <= i < |states| && states[i] == w.states[n];
      EdgesByNumber(l, states, prev, outs, taus, i, w.labels[n], s);
    } else {
      assert states[0] == s;
    }
  }

  /** States with larger numbers are no shallower. */
  lemma {:induction false} DepthAscends<S(!new)>(l: Lts<S>, states: seq<S>, prev: seq<Option<(nat, Label)>>, outs: seq<seq<(Label, nat)>>, i: nat, j: nat)
    requires Links(l, states, prev) && Leveled(prev, outs) && i <= j < |prev|
    ensures |LinkLabels(l, states, prev, i)| <= |LinkLabels(l, states, prev, j)|
    decreases j
  {
    if 0 < i < j { DepthAscends(l, states, prev, outs, prev[i].value.0, prev[j].value.0); }
  }

  /** The links lead to every state by a shortest run. */
  lemma {:induction false} LinksAreShortest<S(!new)>(l: Lts<S>, states: seq<S>, prev: seq<Option<(nat, Label)>>, outs: seq<seq<(Label, nat)>>,
                                                     taus: seq<seq<nat>>, w: Walk<S>, s: S) returns (j: nat)
    requires Complete(l, states, prev, outs, taus) && Leveled(prev, outs) && IsWalk(l, w, s)
    ensures j < |states| == |prev| && states[j] == s && |LinkLabels(l, states, prev, j)| <= |w.labels|
    decreases |w.labels|
  {
    if w.labels == [] {
      return 0;
    }
    var n := |w.labels| - 1;
    RunFront(l, w.states, w.labels);
    var v := Walk(w.states[..n + 1], w.labels[..n]);
    assert IsWalk(l, v, w.states[n]);
    var i := LinksAreShortest(l, states, prev, outs, taus, v, w.states[n]);
    hide LinkLabels;
    EdgesByNumber(l, states, prev, outs, taus, i, w.labels[n], s);
    j :| j < |states| && states[j] == s && (w.labels[n], j) in outs[i];
    LinkedNoDeeper(l, states, prev, outs, i, j, w.labels[n]);
  }

  lemma LinkedNoDeeper<S(!new)>(l: Lts<S>, states: seq<S>, prev: seq<Option<(nat, Label)>>, outs: seq<seq<(Label, nat)>>, i: nat, j: nat, a: Label)
    requires Links(l, states, prev) && Leveled(prev, outs) && |outs| == |prev| && i < |prev| && (a, j) in outs[i]
    ensures j < |prev| && |LinkLabels(l, states, prev, j)| <= |LinkLabels(l, states, prev, i)| + 1
  {
    var k :| 0 <= k < |outs[i]| && outs[i][k] == (a, j);
    assert NoLater(prev, i, outs[i]);
    if j > 0 { DepthAscends(l, states, prev, outs, prev[j].value.0, i); }
  }

  /** The first number that splits is that of a shallowest state that does. */
  lemma FirstSplitIsShortest<S(!new)>(l: Lts<S>, states: seq<S>, prev: seq<Option<(nat, Label)>>, outs: seq<seq<(Label, nat)>>, taus: seq<seq<nat>>,
                                      w: Walk<S>, i: nat, a: Label)
    requires Complete(l, states, prev, outs, taus) && Leveled(prev, outs) && i < |states| && IsWalk(l, w, states[i])
    requires w.labels == LinkLabels(l, states, prev, i) && FirstSplit(l, states[i], a)
    requires forall j: nat, b | j < i && b != TAU :: !Splits(l, states[j], b)
    ensures ShortestSplit(l, Erase(w.labels) + [a])
  {
    hide Splits, Leveled, FirstSplit, Names.NameLess;
    forall w', s', b | IsWalk(l, w', s') && b != TAU && Splits(l, s', b) ensures |w.labels| <= |w'.labels| {
      var j := LinksAreShortest(l, states, prev, outs, taus, w', s');
      DepthAscends(l, states, prev, outs, i, j);
    }
  }

  /** Labels before the `k`-th one in order split only where one of those listed does. */
  lemma NoEarlierSplit(outs: seq<seq<(Label, nat)>>, closures: seq<seq<nat>>, i: nat, byLabel: map<Label, set<seq<nat>>>, k: nat)
    requires i < |closures| && Grouped(closures, StepsOf(outs, closures[i]), byLabel)
    requires (forall e | e in StepsOf(outs, closures[i]) :: e.1 < |closures|) && k < |Names.Sorted(byLabel.Keys)|
    requires forall m | 0 <= m < k :: !SplitAt(outs, closures, i, Names.Sorted(byLabel.Keys)[m])
    ensures forall a | a != TAU && Names.NameLess(a, Names.Sorted(byLabel.Keys)[k]) :: !SplitAt(outs, closures, i, a)
  {
    hide Names.NameLess, Names.Sorted;
    var labels := Names.Sorted(byLabel.Keys);
    forall a | a != TAU && Names.NameLess(a, labels[k]) ensures !SplitAt(outs, closures, i, a) {
      if SplitAt(outs, closures, i, a) {
        assert a in byLabel;
        var m :| 0 <= m < |labels| && labels[m] == a;
        Names.NamesCompare(a, labels[k]);
        if m > k { Names.SortedAscends(byLabel.Keys, k, m); }
      }
    }
  }

  /** What the groups tell about one closure. */
  lemma GroupsTell(outs: seq<seq<(Label, nat)>>, closures: seq<seq<nat>>, i: nat, byLabel: map<Label, set<seq<nat>>>)
    requires i < |closures| && Grouped(closures, StepsOf(outs, closures[i]), byLabel)
    requires forall j, e | 0 <= j < |outs| && e in outs[j] :: e.1 < |closures|
    ensures TAU !in byLabel && forall a | a in byLabel :: (SplitAt(outs, closures, i, a) <==> |byLabel[a]| > 1)
    ensures forall a | a != TAU && SplitAt(outs, closures, i, a) :: a in byLabel
    ensures forall e | e in StepsOf(outs, closures[i]) :: e.1 < |closures|
  {
    forall a | a in byLabel ensures SplitAt(outs, closures, i, a) <==> |byLabel[a]| > 1 {
      SplitIffTwo(outs, closures, i, byLabel, a);
    }
  }

  /** The first label, in order, on which one closure splits. */
  method FirstSplitOf(outs: seq<seq<(Label, nat)>>, closures: seq<seq<nat>>, i: nat) returns (found: Option<Label>)
    requires |outs| == |closures| && i < |closures| && (forall u | u in closures[i] :: u < |outs|)
    requires forall j, e | 0 <= j < |outs| && e in outs[j] :: e.1 < |closures|
    ensures found.Some? ==> found.value != TAU && SplitAt(outs, closures, i, found.value)
    ensures found.Some? ==> forall a | a != TAU && Names.NameLess(a, found.value) :: !SplitAt(outs, closures, i, a)
    ensures found.None? ==> forall a | a != TAU :: !SplitAt(outs, closures, i, a)
  {
    hide Names.NameLess, Names.Sorted, SplitAt, StepsOf, Grouped;
    var byLabel := GroupByLabel(outs, closures, closures[i]);
    GroupsTell(outs, closures, i, byLabel);
    var labels := Names.Sorted(byLabel.Keys);
    for k := 0 to |labels|
      invariant forall m | 0 <= m < k :: !SplitAt(outs, closures, i, labels[m])
    {
      assert labels[k] in byLabel;
      if |byLabel[labels[k]]| > 1 {
        NoEarlierSplit(outs, closures, i, byLabel, k);
        return Some(labels[k]);
      }
    }
    forall a | a != TAU ensures !SplitAt(outs, closures, i, a) {
      if a in byLabel { assert a in labels; }
    }
    found := None;
  }

  /** The first state, with its first label, at which a closure splits. */
  method FindSplit(outs: seq<seq<(Label, nat)>>, closures: seq<seq<nat>>) returns (found: Option<(nat, Label)>)
    requires |outs| == |closures| && (forall i, u | 0 <= i < |closures| && u in closures[i] :: u < |outs|)
    requires forall i, e | 0 <= i < |outs| && e in outs[i] :: e.1 < |closures|
    ensures found.Some? ==> found.value.1 != TAU && SplitAt(outs, closures, found.value.0, found.value.1)
    ensures found.Some? ==> forall j: nat, a | j < found.value.0 && a != TAU :: !SplitAt(outs, closures, j, a)
    ensures found.Some? ==> forall a | a != TAU && Names.NameLess(a, found.value.1) :: !SplitAt(outs, closures, found.value.0, a)
    ensures found.None? ==> forall i: nat, a | a != TAU :: !SplitAt(outs, closures, i, a)
  {
    hide Names.NameLess;
    assert forall i: nat, a | i >= |closures| :: !SplitAt(outs, closures, i, a);
    hide SplitAt;
    for i := 0 to |closures|
      invariant forall j: nat, a | j < i && a != TAU :: !SplitAt(outs, closures, j, a)
    {
      var one := FirstSplitOf(outs, closures, i);
      if one.Some? {
        return Some((i, one.value));
      }
    }
    found := None;
  }

  /** Fails exactly when some reachable state's closure splits on a visible label;
      the reported events are a trace that ends with that label. */
  method DeterminismCheck<S(==,!new)>(l: Lts<S>, ghost u: set<S>) returns (r: Option<Trace>)
    requires Bounded(l, u)
    ensures r.None? <==> Deterministic(l)
    ensures r.Some? ==> r.value != [] && IsTrace(l, r.value) && SplitsAfter(l, r.value[..|r.value| - 1], r.value[|r.value| - 1])
    ensures r.Some? ==> ShortestSplit(l, r.value)
  {
    var states, prev, outs, taus := ExploreIndexed(l, u);
    TauGraphByNumber(l, states, prev, outs, taus);
    var closures := ComputeTauClosures(taus);
    NumbersInRange(l, states, prev, outs, taus, closures);
    SplitsByNumber(l, states, prev, outs, taus, closures);
    hide Complete, Leveled, Splits, SplitAt, Reachable, IsTrace, ReachSet, ShortestSplit, SplitsAfter, Deterministic;
    var found := FindSplit(outs, closures);
    if found.None? {
      PassesWithoutSplit(l, states, prev, outs, taus);
      return None;
    }
    var (i, a) := found.value;
    SplitInRange(outs, closures, i, a);
    assert Links(l, states, prev) by { CompleteLinks(l, states, prev, outs, taus); }
    var events := TraceVisibleEvents(l, states, prev, i);
    var w := LinkWalk(l, states, prev, i);
    ReportsSplit(l, states, prev, outs, taus, w, i, a);
    assert (events + [a])[..|events|] == events;
    r := Some(events + [a]);
  }

  lemma CompleteLinks<S(!new)>(l: Lts<S>, states: seq<S>, prev: seq<Option<(nat, Label)>>, outs: seq<seq<(Label, nat)>>, taus: seq<seq<nat>>)
    requires Complete(l, states, prev, outs, taus)
    ensures Links(l, states, prev) && |outs| == |taus| == |states| == |prev|
  {}

  /** Splits by number are those of the numbered states. */
  lemma SplitsByNumber<S(!new)>(l: Lts<S>, states: seq<S>, prev: seq<Option<(nat, Label)>>, outs: seq<seq<(Label, nat)>>, taus: seq<seq<nat>>,
                                closures: seq<seq<nat>>)
    requires |closures| == |states| && Complete(l, states, prev, outs, taus)
    requires forall v | 0 <= v < |closures| :: closures[v] == Listing(|taus|, ReachSet(taus, v))
    ensures forall i: nat, a | i < |states| :: SplitAt(outs, closures, i, a) <==> Splits(l, states[i], a)
  {
    hide Splits, SplitAt, Complete, Listing, ReachSet;
    forall i: nat, a | i < |states| ensures SplitAt(outs, closures, i, a) <==> Splits(l, states[i], a) {
      if SplitAt(outs, closures, i, a) { SplitOfNumbers(l, states, prev, outs, taus, closures, i, a); }
      if Splits(l, states[i], a) { SplitOfStates(l, states, prev, outs, taus, closures, i, a); }
    }
  }

  lemma PassesWithoutSplit<S(!new)>(l: Lts<S>, states: seq<S>, prev: seq<Option<(nat, Label)>>, outs: seq<seq<(Label, nat)>>, taus: seq<seq<nat>>)
    requires Complete(l, states, prev, outs, taus) && forall i: nat, a | i < |states| && a != TAU :: !Splits(l, states[i], a)
    ensures Deterministic(l)
  {
    hide Complete, Splits, Reachable;
    forall s, a | Reachable(l, s) && a != TAU ensures !Splits(l, s, a) {
      NumberedAreReachable(l, states, prev, outs, taus, s);
    }
  }

  /** The first split found is reported by a shortest run to one. */
  lemma ReportsSplit<S(!new)>(l: Lts<S>, states: seq<S>, prev: seq<Option<(nat, Label)>>, outs: seq<seq<(Label, nat)>>, taus: seq<seq<nat>>,
                              w: Walk<S>, i: nat, a: Label)
    requires Complete(l, states, prev, outs, taus) && Leveled(prev, outs) && i < |states| == |prev| && IsWalk(l, w, states[i])
    requires Links(l, states, prev) && w.labels == LinkLabels(l, states, prev, i)
    requires a != TAU && Splits(l, states[i], a) && forall b | b != TAU && Names.NameLess(b, a) :: !Splits(l, states[i], b)
    requires forall j: nat, b | j < i && b != TAU :: !Splits(l, states[j], b)
    ensures !Deterministic(l) && IsTrace(l, Erase(w.labels) + [a]) && SplitsAfter(l, Erase(w.labels), a)
    ensures ShortestSplit(l, Erase(w.labels) + [a])
  {
    hide Complete, Leveled, Splits, IsWalk, IsTrace, SplitsAfter, ShortestSplit, Deterministic, Links, LinkLabels, Names.NameLess;
    forall b ensures Names.NameLess(b, a) <==> Utf8.SpelledBefore(b, a) { Names.NameLessIsSpelled(b, a); }
    assert FirstSplit(l, states[i], a);
    WalkSplits(l, w, states[i], a);
    FirstSplitIsShortest(l, states, prev, outs, taus, w, i, a);
  }

  lemma SplitInRange(outs: seq<seq<(Label, nat)>>, closures: seq<seq<nat>>, i: nat, a: Label)
    requires SplitAt(outs, closures, i, a)
    ensures i < |closures|
  {}

  lemma NumbersInRange<S(!new)>(l: Lts<S>, states: seq<S>, prev: seq<Option<(nat, Label)>>, outs: seq<seq<(Label, nat)>>, taus: seq<seq<nat>>,
                                closures: seq<seq<nat>>)
    requires |closures| == |states| && Complete(l, states, prev, outs, taus)
    requires forall v | 0 <= v < |closures| :: closures[v] == Listing(|taus|, ReachSet(taus, v))
    ensures forall i, x | 0 <= i < |closures| && x in closures[i] :: x < |outs|
    ensures forall i, e | 0 <= i < |outs| && e in outs[i] :: e.1 < |closures|
  {
    hide Links, ReachSet;
    forall i, x | 0 <= i < |closures| && x in closures[i] ensures x < |outs| {
      ListingMembers(|taus|, ReachSet(taus, i), x);
    }
    forall i, e | 0 <= i < |outs| && e in outs[i] ensures e.1 < |closures| {
      EdgesByNumber(l, states, prev, outs, taus, i, TAU, states[i]);
    }
  }

  lemma WalkSplits<S(!new)>(l: Lts<S>, w: Walk<S>, s: S, a: Label)
    requires IsWalk(l, w, s) && FirstSplit(l, s, a)
    ensures SplitsAfter(l, Erase(w.labels), a) && IsTrace(l, Erase(w.labels) + [a]) && !Deterministic(l)
  {
    hide ClosureOf, Reachable, Names.NameLess;
    assert Splits(l, s, a) && a != TAU;
    FirstSplitAfter(l, w, s, a);
    hide FirstSplit, SplitsAfter;
    var tr := Erase(w.labels);
    assert RunTo(l, tr, s);
    WalkReaches(l, w, s);
    SplitIsTaken(l, tr, s, a);
  }

  /** A state after `tr` that splits on `a` can take it. */
  lemma SplitIsTaken<S(!new)>(l: Lts<S>, tr: Trace, s: S, a: Label)
    requires RunTo(l, tr, s) && Splits(l, s, a) && a != TAU
    ensures IsTrace(l, tr + [a])
  {
    assert s in After(l, tr);
    hide ClosureOf, RunTo, IsRun;
    var p, q, v, x :| p in ClosureOf(l, s) && q in ClosureOf(l, s)
                      && Edge(l, p, a, v) && Edge(l, q, a, x) && ClosureOf(l, v) != ClosureOf(l, x);
    AfterTauClosed(l, tr);
    ClosureWithin(l, s, After(l, tr));
    RunSnoc(l, tr, p, a, v);
    assert v in After(l, tr + [a]);
  }

  lemma FirstSplitAfter<S(!new)>(l: Lts<S>, w: Walk<S>, s: S, a: Label)
    requires IsWalk(l, w, s) && FirstSplit(l, s, a)
    ensures SplitsAfter(l, Erase(w.labels), a)
  {
    hide FirstSplit;
    WalkReaches(l, w, s);
  }

  lemma WalkReaches<S(!new)>(l: Lts<S>, w: Walk<S>, s: S)
    requires IsWalk(l, w, s)
    ensures Reachable(l, s)
  {}

  lemma ClosureWithin<S(!new)>(l: Lts<S>, s: S, x: iset<S>)
    requires TauClosed(l, x) && s in x
    ensures ClosureOf(l, s) <= x
  {
    TauClosureLeast(l, iset{s}, x);
  }
}
