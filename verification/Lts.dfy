/** Labelled transition systems and the trace, failures and divergences
    semantics that the checkers decide.

    Everything observable is defined from runs alone (a state sequence and a
    label sequence), never from the subset construction the checkers use. */
module Lts {

  type Byte = b: int | 0 <= b < 256
  type Bytes = seq<Byte>

  /** Labels are plain strings; the internal action is the string "tau". */
  type Label = string
  type Trace = seq<Label>

  const TAU: Label := "tau"

  /** A transition provider together with the codec that encodes its states. */
  datatype Lts<!S> = Lts(init: S, next: S -> seq<(Label, S)>, enc: S -> Bytes)

  ghost predicate Edge<S>(l: Lts<S>, s: S, a: Label, t: S) {
    (a, t) in l.next(s)
  }

  /** `u` is a finite set holding the initial state and every successor of its members. */
  ghost predicate Bounded<S>(l: Lts<S>, u: set<S>) {
    l.init in u && forall s, e | s in u && e in l.next(s) :: e.1 in u
  }

  /** Bounded by a set on which different states have different encodings. */
  ghost predicate Finite<S>(l: Lts<S>, u: set<S>) {
    Bounded(l, u) && forall s, t | s in u && t in u && l.enc(s) == l.enc(t) :: s == t
  }

  // ---------------------------------------------------------------- runs

  ghost predicate IsRun<S>(l: Lts<S>, ss: seq<S>, ls: Trace) {
    |ss| == |ls| + 1 && forall i | 0 <= i < |ls| :: Edge(l, ss[i], ls[i], ss[i + 1])
  }

  /** The visible part of a label sequence. */
  function Erase(ls: Trace): Trace {
    if ls == [] then []
    else Extend(Erase(ls[..|ls| - 1]), ls[|ls| - 1])
  }

  function Extend(tr: Trace, a: Label): Trace {
    if a == TAU then tr else tr + [a]
  }

  ghost predicate VisibleTrace(tr: Trace) {
    forall i | 0 <= i < |tr| :: tr[i] != TAU
  }

  ghost predicate RunTo<S(!new)>(l: Lts<S>, tr: Trace, t: S) {
    exists ss: seq<S>, ls :: IsRun(l, ss, ls) && ss[0] == l.init && ss[|ls|] == t && Erase(ls) == tr
  }

  ghost function After<S(!new)>(l: Lts<S>, tr: Trace): iset<S> {
    iset t: S | RunTo(l, tr, t)
  }

  ghost predicate IsTrace<S(!new)>(l: Lts<S>, tr: Trace) {
    exists t :: t in After(l, tr)
  }

  predicate Stable<S(==)>(l: Lts<S>, s: S) {
    forall e | e in l.next(s) :: e.0 != TAU
  }

  function Offers<S(==)>(l: Lts<S>, s: S): set<Label> {
    set e | e in l.next(s) && e.0 != TAU :: e.0
  }

  /** A stable failure: some run with visible part `tr` ends in a stable state
      that offers nothing in `refused`. */
  ghost predicate Failure<S(!new)>(l: Lts<S>, tr: Trace, refused: iset<Label>) {
    exists t :: t in After(l, tr) && Stable(l, t) && Rejects(l, t, refused)
  }

  ghost predicate Rejects<S>(l: Lts<S>, t: S, refused: iset<Label>) {
    forall a | a in Offers(l, t) :: a !in refused
  }

  ghost predicate InfiniteTauRun<S>(l: Lts<S>, f: nat -> S) {
    forall i: nat :: Edge(l, f(i), TAU, f(i + 1))
  }

  /** An infinite run of internal actions starts at `s`. */
  ghost predicate DivergesFrom<S(!new)>(l: Lts<S>, s: S) {
    exists f: nat -> S :: f(0) == s && InfiniteTauRun(l, f)
  }

  ghost predicate DivergesAfter<S(!new)>(l: Lts<S>, tr: Trace) {
    exists t :: t in After(l, tr) && DivergesFrom(l, t)
  }

  /** Divergences, closed under extension. */
  ghost predicate Divergence<S(!new)>(l: Lts<S>, tr: Trace) {
    exists i :: 0 <= i <= |tr| && DivergesAfter(l, tr[..i])
  }

  /** Failures with chaos after divergence. */
  ghost predicate ChaoticFailure<S(!new)>(l: Lts<S>, tr: Trace, refused: iset<Label>) {
    Failure(l, tr, refused) || Divergence(l, tr)
  }

  // ------------------------------------------------- the three refinements

  ghost predicate TraceRefines<S(!new)>(spec: Lts<S>, impl: Lts<S>) {
    forall tr | IsTrace(impl, tr) :: IsTrace(spec, tr)
  }

  ghost predicate FailuresRefines<S(!new)>(spec: Lts<S>, impl: Lts<S>) {
    && TraceRefines(spec, impl)
    && forall tr, refused | Failure(impl, tr, refused) :: Failure(spec, tr, refused)
  }

  ghost predicate FailuresDivergencesRefines<S(!new)>(spec: Lts<S>, impl: Lts<S>) {
    && (forall tr | VisibleTrace(tr) && Divergence(impl, tr) :: Divergence(spec, tr))
    && forall tr, refused | VisibleTrace(tr) && ChaoticFailure(impl, tr, refused) :: ChaoticFailure(spec, tr, refused)
  }

  // ------------------------------------------------- the subset construction

  ghost predicate TauRun<S>(l: Lts<S>, p: seq<S>) {
    |p| > 0 && forall i | 0 <= i < |p| - 1 :: Edge(l, p[i], TAU, p[i + 1])
  }

  ghost predicate TauReach<S(!new)>(l: Lts<S>, s: S, t: S) {
    exists p: seq<S> :: TauRun(l, p) && p[0] == s && p[|p| - 1] == t
  }

  ghost predicate TauReachFrom<S(!new)>(l: Lts<S>, x: iset<S>, t: S) {
    exists s: S :: s in x && TauReach(l, s, t)
  }

  ghost function TauClosure<S(!new)>(l: Lts<S>, x: iset<S>): iset<S> {
    iset t: S | TauReachFrom(l, x, t)
  }

  ghost predicate TauClosed<S(!new)>(l: Lts<S>, x: iset<S>) {
    forall s, t | s in x && Edge(l, s, TAU, t) :: t in x
  }

  ghost predicate StepsTo<S(!new)>(l: Lts<S>, x: iset<S>, a: Label, t: S) {
    exists s: S :: s in x && Edge(l, s, a, t)
  }

  ghost function Step<S(!new)>(l: Lts<S>, x: iset<S>, a: Label): iset<S> {
    iset t: S | StepsTo(l, x, a, t)
  }

  ghost function Next<S(!new)>(l: Lts<S>, x: iset<S>, a: Label): iset<S> {
    TauClosure(l, Step(l, x, a))
  }

  /** A cycle of internal actions through states of `x` only. */
  ghost predicate TauCycleIn<S>(l: Lts<S>, x: iset<S>, p: seq<S>) {
    |p| >= 2 && TauRun(l, p) && p[0] == p[|p| - 1] && forall s | s in p :: s in x
  }

  ghost predicate HasTauCycle<S(!new)>(l: Lts<S>, x: iset<S>) {
    exists p: seq<S> :: TauCycleIn(l, x, p)
  }

  // ------------------------------------------------------ closure facts

  lemma TauClosureContains<S(!new)>(l: Lts<S>, x: iset<S>)
    ensures x <= TauClosure(l, x)
  {
    forall s | s in x ensures s in TauClosure(l, x) {
      assert TauRun(l, [s]);
      assert TauReach(l, s, s);
    }
  }

  lemma TauClosureClosed<S(!new)>(l: Lts<S>, x: iset<S>)
    ensures TauClosed(l, TauClosure(l, x))
  {
    forall s, t | s in TauClosure(l, x) && Edge(l, s, TAU, t) ensures t in TauClosure(l, x) {
      var r :| r in x && TauReach(l, r, s);
      var p :| TauRun(l, p) && p[0] == r && p[|p| - 1] == s;
      assert TauRun(l, p + [t]);
      assert (p + [t])[0] == r && (p + [t])[|p|] == t;
      assert TauReach(l, r, t);
    }
  }

  lemma TauRunStays<S(!new)>(l: Lts<S>, y: iset<S>, p: seq<S>)
    requires TauClosed(l, y) && TauRun(l, p) && p[0] in y
    ensures forall i | 0 <= i < |p| :: p[i] in y
  {
    if |p| > 1 {
      var q := p[..|p| - 1];
      assert TauRun(l, q);
      TauRunStays(l, y, q);
      assert forall i | 0 <= i < |q| :: p[i] == q[i];
      assert Edge(l, p[|p| - 2], TAU, p[|p| - 1]);
    }
  }

  lemma TauClosureLeast<S(!new)>(l: Lts<S>, x: iset<S>, y: iset<S>)
    requires x <= y && TauClosed(l, y)
    ensures TauClosure(l, x) <= y
  {
    forall t | t in TauClosure(l, x) ensures t in y {
      var s :| s in x && TauReach(l, s, t);
      var p :| TauRun(l, p) && p[0] == s && p[|p| - 1] == t;
      TauRunStays(l, y, p);
    }
  }

  lemma RunSnoc<S(!new)>(l: Lts<S>, tr: Trace, s: S, a: Label, t: S)
    requires RunTo(l, tr, s) && Edge(l, s, a, t)
    ensures RunTo(l, Extend(tr, a), t)
  {
    var ss, ls :| IsRun(l, ss, ls) && ss[0] == l.init && ss[|ls|] == s && Erase(ls) == tr;
    var ss', ls' := ss + [t], ls + [a];
    assert ls'[..|ls'| - 1] == ls;
    assert IsRun(l, ss', ls');
    assert ss'[0] == l.init && ss'[|ls'|] == t && Erase(ls') == Extend(tr, a);
  }

  /** A run whose labels erase to nothing stays in the initial closure. */
  lemma {:induction false} SilentRunInClosure<S(!new)>(l: Lts<S>, ss: seq<S>, ls: Trace)
    requires IsRun(l, ss, ls) && ss[0] == l.init && Erase(ls) == []
    ensures ss[|ls|] in TauClosure(l, iset{l.init})
  {
    TauClosureContains(l, iset{l.init});
    if ls != [] {
      var n := |ls| - 1;
      RunFront(l, ss, ls);
      SilentRunInClosure(l, ss[..n + 1], ls[..n]);
      TauClosureClosed(l, iset{l.init});
    }
  }

  /** A run whose labels erase to `tr + [a]` ends in the closure that the subset
      construction computes from the states after `tr`. */
  lemma {:induction false} RunInNext<S(!new)>(l: Lts<S>, ss: seq<S>, ls: Trace, tr: Trace, a: Label)
    requires IsRun(l, ss, ls) && ss[0] == l.init && Erase(ls) == tr + [a]
    ensures ss[|ls|] in Next(l, After(l, tr), a)
  {
    var n := |ls| - 1;
    var x := Step(l, After(l, tr), a);
    RunFront(l, ss, ls);
    if ls[n] == TAU {
      RunInNext(l, ss[..n + 1], ls[..n], tr, a);
      TauClosureClosed(l, x);
    } else {
      assert Erase(ls[..n]) == tr && ls[n] == a by {
        var e := Erase(ls[..n]);
        assert e + [ls[n]] == tr + [a];
        assert e == (e + [ls[n]])[..|e|] && tr == (tr + [a])[..|tr|];
        assert (e + [ls[n]])[|e|] == ls[n] && (tr + [a])[|tr|] == a;
      }
      assert RunTo(l, tr, ss[n]);
      assert StepsTo(l, After(l, tr), a, ss[n + 1]);
      TauClosureContains(l, x);
    }
  }

  lemma RunFront<S>(l: Lts<S>, ss: seq<S>, ls: Trace)
    requires IsRun(l, ss, ls) && ls != []
    ensures IsRun(l, ss[..|ls|], ls[..|ls| - 1]) && Edge(l, ss[|ls| - 1], ls[|ls| - 1], ss[|ls|])
  {}

  lemma AfterTauClosed<S(!new)>(l: Lts<S>, tr: Trace)
    ensures TauClosed(l, After(l, tr))
  {
    forall s, t | s in After(l, tr) && Edge(l, s, TAU, t) ensures t in After(l, tr) {
      RunSnoc(l, tr, s, TAU, t);
    }
  }

  lemma AfterEmpty<S(!new)>(l: Lts<S>)
    ensures After(l, []) == TauClosure(l, iset{l.init})
  {
    forall t | t in After(l, []) ensures t in TauClosure(l, iset{l.init}) {
      var ss, ls :| IsRun(l, ss, ls) && ss[0] == l.init && ss[|ls|] == t && Erase(ls) == [];
      SilentRunInClosure(l, ss, ls);
    }
    assert IsRun(l, [l.init], []) && Erase([]) == [];
    assert RunTo(l, [], l.init);
    AfterTauClosed(l, []);
    TauClosureLeast(l, iset{l.init}, After(l, []));
  }

  lemma AfterStep<S(!new)>(l: Lts<S>, tr: Trace, a: Label)
    requires a != TAU
    ensures After(l, tr + [a]) == Next(l, After(l, tr), a)
  {
    forall t | t in After(l, tr + [a]) ensures t in Next(l, After(l, tr), a) {
      var ss, ls :| IsRun(l, ss, ls) && ss[0] == l.init && ss[|ls|] == t && Erase(ls) == tr + [a];
      RunInNext(l, ss, ls, tr, a);
    }
    forall t | t in Step(l, After(l, tr), a) ensures t in After(l, tr + [a]) {
      var s :| s in After(l, tr) && Edge(l, s, a, t);
      RunSnoc(l, tr, s, a, t);
    }
    AfterTauClosed(l, tr + [a]);
    TauClosureLeast(l, Step(l, After(l, tr), a), After(l, tr + [a]));
  }

  lemma EraseVisible(ls: Trace)
    ensures VisibleTrace(Erase(ls))
  {}

  lemma TracesVisible<S(!new)>(l: Lts<S>, tr: Trace)
    requires IsTrace(l, tr)
    ensures VisibleTrace(tr)
  {
    var t :| t in After(l, tr);
    var ss: seq<S>, ls :| IsRun(l, ss, ls) && ss[0] == l.init && ss[|ls|] == t && Erase(ls) == tr;
    EraseVisible(ls);
  }

  lemma NextNonempty<S(!new)>(l: Lts<S>, x: iset<S>, a: Label)
    ensures (exists t :: t in Next(l, x, a)) <==> (exists s, t :: s in x && Edge(l, s, a, t))
  {
    if t :| t in Next(l, x, a) {
      var r :| r in Step(l, x, a) && TauReach(l, r, t);
      var s :| s in x && Edge(l, s, a, r);
    }
    if s, t :| s in x && Edge(l, s, a, t) {
      assert StepsTo(l, x, a, t);
      TauClosureContains(l, Step(l, x, a));
      assert t in Next(l, x, a);
    }
  }

  lemma {:induction false} TracePrefix<S(!new)>(l: Lts<S>, tr: Trace, i: nat)
    requires IsTrace(l, tr) && i <= |tr|
    ensures IsTrace(l, tr[..i])
    decreases |tr|
  {
    TracesVisible(l, tr);
    if i == |tr| {
      assert tr[..i] == tr;
    } else {
      hide RunTo, Next;
      var n := |tr| - 1;
      assert tr == tr[..n] + [tr[n]];
      AfterStep(l, tr[..n], tr[n]);
      NextNonempty(l, After(l, tr[..n]), tr[n]);
      TracePrefix(l, tr[..n], i);
      assert tr[..n][..i] == tr[..i];
    }
  }

  /** Every state reached by a run lies in the finite universe. */
  lemma {:induction false} AfterInUniverse<S(!new)>(l: Lts<S>, u: set<S>, tr: Trace)
    requires Bounded(l, u)
    ensures forall t | t in After(l, tr) :: t in u
  {
    forall t | t in After(l, tr) ensures t in u {
      var ss, ls :| IsRun(l, ss, ls) && ss[0] == l.init && ss[|ls|] == t && Erase(ls) == tr;
      RunInUniverse(l, u, ss, ls);
    }
  }

  lemma RunInUniverse<S(!new)>(l: Lts<S>, u: set<S>, ss: seq<S>, ls: Trace)
    requires Bounded(l, u) && IsRun(l, ss, ls) && ss[0] in u
    ensures ss[|ls|] in u
  {
    if ls != [] {
      var n := |ls| - 1;
      RunFront(l, ss, ls);
      RunInUniverse(l, u, ss[..n + 1], ls[..n]);
    }
  }
}
