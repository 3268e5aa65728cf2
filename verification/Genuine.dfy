/** When a minimised counterexample of the failures-divergences model is still one. */
module Genuine {
  import opened Lts
  import opened Refinement
  import opened RefineSearch
  import opened Replay
  import Minimize

  /** The trace shows that the refinement does not hold in the failures-divergences model. */
  ghost predicate Violates<S(!new)>(spec: Lts<S>, impl: Lts<S>, tr: Trace) {
    || (Divergence(impl, tr) && !Divergence(spec, tr))
    || exists refused :: ChaoticFailure(impl, tr, refused) && !ChaoticFailure(spec, tr, refused)
  }

  /** The refinement holds exactly when no trace violates it. */
  lemma ViolationsRefute<S(!new)>(spec: Lts<S>, impl: Lts<S>)
    ensures Refines(FD, spec, impl) <==> forall tr | VisibleTrace(tr) :: !Violates(spec, impl, tr)
  {
    hide Divergence, ChaoticFailure, VisibleTrace;
    if forall tr | VisibleTrace(tr) :: !Violates(spec, impl, tr) {
      forall tr | VisibleTrace(tr) && Divergence(impl, tr) ensures Divergence(spec, tr) { assert !Violates(spec, impl, tr); }
      forall tr, refused | VisibleTrace(tr) && ChaoticFailure(impl, tr, refused) ensures ChaoticFailure(spec, tr, refused) {
        assert !Violates(spec, impl, tr);
      }
    }
  }

  /** What the search finds, before it is minimised, always is a violation. */
  lemma FaultIsGenuine<S(!new)>(spec: Lts<S>, impl: Lts<S>, us: set<S>, ui: set<S>, kind: FailureKind, tr: Trace)
    requires Bounded(spec, us) && Bounded(impl, ui) && Fault(FD, spec, impl, kind, tr)
    ensures Violates(spec, impl, tr)
  {
    hide Divergence, Failure, DivergesAfter;
    assert tr[..|tr|] == tr;
    match kind {
      case TraceMismatch =>
        UnprunedIsConvergent(spec, impl, us, tr[..|tr| - 1]);
        if Divergence(spec, tr) { DivergenceIsLast(spec, tr); }
        ConvergentTraceFails(impl, ui, tr);
        if DivergesAfter(impl, tr) { PrefixDivergence(impl, tr, |tr|); }
        assert ChaoticFailure(impl, tr, iset{});
        FailureIsTrace(spec, tr, iset{});
      case RefusalMismatch =>
        UnprunedIsConvergent(spec, impl, us, tr);
        RefusalSetsMatch(spec, impl, tr);
        var refused :| Failure(impl, tr, refused) && !Failure(spec, tr, refused);
        assert ChaoticFailure(impl, tr, refused);
      case DivergenceMismatch =>
        UnprunedIsConvergent(spec, impl, us, tr);
        CycleIffDivergesAfter(impl, ui, tr);
        PrefixDivergence(impl, tr, |tr|);
    }
  }

  lemma FailureIsTrace<S(!new)>(l: Lts<S>, tr: Trace, refused: iset<Label>)
    ensures Failure(l, tr, refused) ==> IsTrace(l, tr)
  {}

  /** Events without "tau" that the oracle accepts are a violation exactly when the
      specification diverges nowhere along them. */
  lemma VisibleIsGenuine<S(!new)>(spec: Lts<S>, impl: Lts<S>, us: set<S>, ui: set<S>, kind: FailureKind, events: Trace)
    requires Bounded(spec, us) && Bounded(impl, ui) && VisibleTrace(events) && StillFails(FD, spec, impl, kind, events)
    ensures Violates(spec, impl, events) <==> !Divergence(spec, events)
  {
    ReplayedIsAfter(impl, events);
    ReplayedIsAfter(spec, events);
    assert events[..|events|] == events;
    if !Divergence(spec, events) {
      CycleIffDivergesAfter(impl, ui, events);
      if DivergesAfter(impl, events) {
        PrefixDivergence(impl, events, |events|);
      } else if IsTrace(spec, events) {
        RefusalSetsMatch(spec, impl, events);
        var refused :| Failure(impl, events, refused) && !Failure(spec, events, refused);
        assert ChaoticFailure(impl, events, refused);
      } else {
        ConvergentTraceFails(impl, ui, events);
        assert ChaoticFailure(impl, events, iset{}) && !ChaoticFailure(spec, events, iset{});
      }
    }
  }

  /** With a final "tau", the implementation diverges there and the specification does
      not exactly when the oracle accepts the events by the verdict on divergence: not
      because the specification cannot take the "tau", nor by a refusal after it. */
  lemma DivergenceIsGenuine<S(!new)>(spec: Lts<S>, impl: Lts<S>, us: set<S>, ui: set<S>, tr: Trace)
    requires Bounded(spec, us) && Bounded(impl, ui) && VisibleTrace(tr)
    requires StillFails(FD, spec, impl, DivergenceMismatch, tr + [TAU])
    ensures DivergesAfter(impl, tr) && !DivergesAfter(spec, tr)
       <==> Judge(FD, spec, impl, Replayed(impl, tr + [TAU]), Replayed(spec, tr + [TAU])) == Diverges
  {
    ReplayedIsAfter(impl, tr);
    ReplayedIsAfter(spec, tr);
    ReplayedStep(impl, tr, TAU);
    ReplayedStep(spec, tr, TAU);
    CycleIffDivergesAfter(impl, ui, tr);
    CycleIffDivergesAfter(spec, us, tr);
    CycleAfterTau(impl, tr);
    CycleAfterTau(spec, tr);
  }

  /** An internal step loses no internal cycle and adds none. */
  lemma CycleAfterTau<S(!new)>(l: Lts<S>, tr: Trace)
    ensures HasTauCycle(l, Next(l, After(l, tr), TAU)) <==> HasTauCycle(l, After(l, tr))
  {
    var a, b := After(l, tr), Next(l, After(l, tr), TAU);
    if HasTauCycle(l, a) { CycleSurvivesTau(l, a); }
    AfterTauClosed(l, tr);
    TauStepStays(l, a);
    if p :| TauCycleIn(l, b, p) { assert TauCycleIn(l, a, p); }
  }

  // ------------------------------------------------- one that is not genuine

  const A: Label := "a"

  /** Offers "a", then stops. */
  function Spec(): Lts<nat> {
    Lts(0 as nat, (s: nat) => if s == 0 then [(A, 1)] else [], (s: nat) => if s < 3 then [s] else [])
  }

  /** Offers "a" after an internal step, then runs on internally. */
  function Impl(): Lts<nat> {
    Lts(0 as nat, (s: nat) => if s == 0 then [(TAU, 1)] else if s == 1 then [(A, 2)] else if s == 2 then [(TAU, 2)] else [],
        (s: nat) => if s < 3 then [s] else [])
  }

  lemma SpecEdges(s: nat, a: Label, t: nat)
    ensures Edge(Spec(), s, a, t) <==> s == 0 && a == A && t == 1
  {}

  lemma ImplEdges(s: nat, a: Label, t: nat)
    ensures Edge(Impl(), s, a, t) <==> (s == 0 && a == TAU && t == 1) || (s == 1 && a == A && t == 2) || (s == 2 && a == TAU && t == 2)
  {}

  ghost predicate AllEdges(spec: Lts<nat>, impl: Lts<nat>) {
    && (forall s, a, t :: Edge(spec, s, a, t) <==> s == 0 && a == A && t == 1)
    && (forall s, a, t :: Edge(impl, s, a, t) <==>
          (s == 0 && a == TAU && t == 1) || (s == 1 && a == A && t == 2) || (s == 2 && a == TAU && t == 2))
    && spec.init == 0 && impl.init == 0
  }

  lemma EdgesAre()
    ensures AllEdges(Spec(), Impl())
  {
    forall s: nat, a: Label, t: nat
      ensures Edge(Spec(), s, a, t) <==> s == 0 && a == A && t == 1
      ensures Edge(Impl(), s, a, t) <==> (s == 0 && a == TAU && t == 1) || (s == 1 && a == A && t == 2) || (s == 2 && a == TAU && t == 2)
    {
      SpecEdges(s, a, t);
      ImplEdges(s, a, t);
    }
  }

  lemma StartIs(l: Lts<nat>, y: iset<nat>)
    requires l.init in y && TauClosed(l, y) && forall t | t in y :: t == l.init || Edge(l, l.init, TAU, t)
    ensures After(l, []) == y
  {
    hide Edge;
    AfterEmpty(l);
    TauClosureContains(l, iset{l.init});
    TauClosureLeast(l, iset{l.init}, y);
    AfterTauClosed(l, []);
  }

  lemma Starts(spec: Lts<nat>, impl: Lts<nat>)
    requires AllEdges(spec, impl)
    ensures After(impl, []) == iset{0, 1} && After(spec, []) == iset{0}
  {
    hide Edge, After;
    StartIs(spec, iset{0});
    StartIs(impl, iset{0, 1});
  }

  /** A step to states that no internal step leaves. */
  lemma NextIs(l: Lts<nat>, x: iset<nat>, a: Label, y: iset<nat>)
    requires (forall t :: StepsTo(l, x, a, t) <==> t in y) && TauClosed(l, y)
    ensures Next(l, x, a) == y
  {
    assert Step(l, x, a) == y;
    TauClosureContains(l, y);
    TauClosureLeast(l, y, y);
  }

  lemma Steps(spec: Lts<nat>, impl: Lts<nat>)
    requires AllEdges(spec, impl)
    ensures Next(impl, iset{0, 1}, A) == iset{2} && Next(spec, iset{0}, A) == iset{1}
    ensures Next(impl, iset{0, 1}, TAU) == iset{1} && Next(spec, iset{0}, TAU) == iset{}
    ensures forall b | b != TAU && b != A :: Next(impl, iset{0, 1}, b) == iset{}
    ensures forall b | b != TAU :: Next(impl, iset{2}, b) == iset{}
  {
    hide Edge;
    assert Edge(impl, 1, A, 2) && Edge(spec, 0, A, 1) && Edge(impl, 0, TAU, 1);
    NextIs(impl, iset{0, 1}, A, iset{2});
    NextIs(spec, iset{0}, A, iset{1});
    NextIs(impl, iset{0, 1}, TAU, iset{1});
    NextIs(spec, iset{0}, TAU, iset{});
    forall b | b != TAU && b != A ensures Next(impl, iset{0, 1}, b) == iset{} { NextIs(impl, iset{0, 1}, b, iset{}); }
    forall b | b != TAU ensures Next(impl, iset{2}, b) == iset{} { NextIs(impl, iset{2}, b, iset{}); }
  }

  /** The implementation can do "a" once and no more. */
  lemma {:induction false} ImplTraces(spec: Lts<nat>, impl: Lts<nat>, tr: Trace)
    requires AllEdges(spec, impl) && IsTrace(impl, tr)
    ensures tr == [] || tr == [A]
    ensures After(impl, [A]) == iset{2} && After(spec, [A]) == iset{1}
  {
    hide IsTrace, AllEdges, After, Next;
    Starts(spec, impl);
    Steps(spec, impl);
    AfterStep(impl, [], A);
    AfterStep(spec, [], A);
    assert [] + [A] == [A];
    if tr != [] {
      var n := |tr| - 1;
      TracePrefix(impl, tr, n);
      ImplTraces(spec, impl, tr[..n]);
      assert tr == tr[..n] + [tr[n]];
      TracesVisible(impl, tr);
      AfterStep(impl, tr[..n], tr[n]);
      TraceAfter(impl, tr);
    }
  }

  lemma TraceAfter(l: Lts<nat>, tr: Trace)
    ensures IsTrace(l, tr) <==> After(l, tr) != iset{}
  {}

  /** Only the step from the start is internal, and it does not return. */
  lemma NoCycle(spec: Lts<nat>, impl: Lts<nat>, p: seq<nat>)
    requires AllEdges(spec, impl)
    ensures !TauCycleIn(impl, iset{0, 1}, p)
  {
    hide Edge;
    if |p| >= 2 && TauRun(impl, p) {
      assert Edge(impl, p[0], TAU, p[1]);
      assert Edge(impl, p[|p| - 2], TAU, p[|p| - 1]);
      assert p[0] in p && p[|p| - 1] in p;
    }
  }

  lemma NoSpecCycle(spec: Lts<nat>, impl: Lts<nat>, x: iset<nat>, p: seq<nat>)
    requires AllEdges(spec, impl)
    ensures !TauCycleIn(spec, x, p)
  {
    hide Edge;
    if |p| >= 2 { assert !Edge(spec, p[0], TAU, p[1]); }
  }

  lemma NoCycles(spec: Lts<nat>, impl: Lts<nat>)
    requires AllEdges(spec, impl)
    ensures !HasTauCycle(impl, iset{0, 1}) && !HasTauCycle(spec, iset{0}) && !HasTauCycle(spec, iset{1}) && HasTauCycle(impl, iset{2})
  {
    hide Edge;
    forall p ensures !TauCycleIn(impl, iset{0, 1}, p) { NoCycle(spec, impl, p); }
    forall x, p ensures !TauCycleIn(spec, x, p) { NoSpecCycle(spec, impl, x, p); }
    assert Edge(impl, 2, TAU, 2);
    assert TauCycleIn(impl, iset{2}, [2, 2]);
  }

  lemma NoRefusal()
    ensures !RefusesMore(Spec(), Impl(), iset{0, 1}, iset{0})
  {
    var spec, impl := Spec(), Impl();
    assert (A, 1) in spec.next(0) && (A, 2) in impl.next(1) && (TAU, 1) in impl.next(0);
    assert Offers(spec, 0) == {A} && Offers(impl, 1) == {A} && Stable(spec, 0) && !Stable(impl, 0);
  }

  /** The one fault is the divergence after "a". */
  lemma OneFault(kind: FailureKind, tr: Trace)
    ensures Fault(FD, Spec(), Impl(), kind, tr) <==> kind == DivergenceMismatch && tr == [A]
  {
    var spec, impl := Spec(), Impl();
    EdgesAre();
    NoRefusal();
    hide Spec, Impl;
    Starts(spec, impl);
    NoCycles(spec, impl);
    assert 0 in After(impl, []) && 0 in After(spec, []);
    ImplTraces(spec, impl, []);
    assert 2 in After(impl, [A]) && 1 in After(spec, [A]);
    hide After, AllEdges, HasTauCycle, RefusesMore;
    assert JudgeAt(FD, spec, impl, []) == Continue && JudgeAt(FD, spec, impl, [A]) == Diverges;
    if IsTrace(impl, tr) { ImplTraces(spec, impl, tr); }
    assert [A][..0] == [];
    if kind == TraceMismatch && tr != [] && IsTrace(impl, tr) { assert tr == [A]; }
  }

  lemma TauIsAccepted()
    ensures StillFails(FD, Spec(), Impl(), DivergenceMismatch, [TAU])
  {
    EdgesAre();
    TauFails(Spec(), Impl());
  }

  /** The implementation can take "tau", the specification cannot. */
  lemma TauFails(spec: Lts<nat>, impl: Lts<nat>)
    requires AllEdges(spec, impl)
    ensures StillFails(FD, spec, impl, DivergenceMismatch, [TAU])
  {
    hide *;
    Starts(spec, impl);
    Steps(spec, impl);
    ReplayedIsAfter(impl, []) by { NothingVisible(); }
    ReplayedIsAfter(spec, []) by { NothingVisible(); }
    assert [] + [TAU] == [TAU];
    ReplayedStep(impl, [], TAU);
    ReplayedStep(spec, [], TAU);
    assert 1 in Replayed(impl, [TAU]);
    MismatchFails(spec, impl, [TAU], 1);
  }

  lemma NothingVisible()
    ensures VisibleTrace([])
  {}

  lemma MismatchFails(spec: Lts<nat>, impl: Lts<nat>, tr: Trace, s: nat)
    requires TAU in tr && s in Replayed(impl, tr) && Replayed(spec, tr) == iset{}
    ensures StillFails(FD, spec, impl, DivergenceMismatch, tr)
  {}

  lemma {:induction false} PlacesGrow(a: Trace, b: Trace, ix: seq<nat>, i: nat)
    requires Minimize.Embeds(a, b, ix) && i < |ix|
    ensures i <= ix[i]
  {
    if i > 0 { PlacesGrow(a, b, ix, i - 1); }
  }

  lemma PartsOfTwo(events: Trace, ix: seq<nat>)
    requires Minimize.Embeds(events, [A, TAU], ix) && TAU in events
    ensures events == [TAU] || events == [A, TAU]
  {
    PlacesGrow(events, [A, TAU], ix, |ix| - 1);
    if |events| == 2 { assert ix[0] < ix[1]; }
  }

  /** Whatever the checker hands out for these two systems, the events are a lone "tau",
      although the implementation does not diverge before "a". */
  lemma MinimizedIsNotGenuine(out: Outcome, events: Trace)
    requires IsOutcome(FD, Spec(), Impl(), out)
    requires out.Fails? ==> Minimal(FD, Spec(), Impl(), out.kind, events) && Minimize.Subsequence(events, out.trace)
    ensures Finite(Spec(), {0, 1, 2}) && Finite(Impl(), {0, 1, 2})
    ensures out == Fails(DivergenceMismatch, [A, TAU]) && events == [TAU] && !DivergesAfter(Impl(), [])
  {
    hide *;
    SystemsAreFinite();
    NoEarlyDivergence();
    OutcomeIs(out);
    TauIsAccepted();
    LoneTau(events);
  }

  lemma NoEarlyDivergence()
    ensures !DivergesAfter(Impl(), [])
  {
    EdgesAre();
    SystemsAreFinite();
    hide Spec, Impl;
    NoCycles(Spec(), Impl());
    Starts(Spec(), Impl());
    CycleIffDivergesAfter(Impl(), {0, 1, 2}, []);
  }

  lemma OutcomeIs(out: Outcome)
    requires IsOutcome(FD, Spec(), Impl(), out)
    ensures out == Fails(DivergenceMismatch, [A, TAU])
  {
    hide Spec, Impl, Fault, Sooner;
    OneFault(DivergenceMismatch, [A]);
    if out.Fails? {
      OneFault(out.kind, if out.kind == DivergenceMismatch then Front(out.trace) else out.trace);
      assert out.trace == Front(out.trace) + [TAU];
    }
  }

  lemma LoneTau(events: Trace)
    requires StillFails(FD, Spec(), Impl(), DivergenceMismatch, [TAU])
    requires Minimal(FD, Spec(), Impl(), DivergenceMismatch, events) && Minimize.Subsequence(events, [A, TAU])
    ensures events == [TAU]
  {
    assert TAU in events;
    hide StillFails;
    var ix :| Minimize.Embeds(events, [A, TAU], ix);
    PartsOfTwo(events, ix);
    assert Minimize.Drop([A, TAU], 0) == [TAU];
  }

  lemma SystemsAreFinite()
    ensures Finite(Spec(), {0, 1, 2}) && Finite(Impl(), {0, 1, 2})
  {}

  // -------------------------------------- another one, past a divergence

  const B: Label := "b"
  const C: Label := "c"

  /** After "a" and "b" it stops, after "b" alone it runs on internally. */
  function LoopSpec(): Lts<nat> {
    Lts(0 as nat, (s: nat) => if s == 0 then [(A, 1), (B, 3)] else if s == 1 then [(B, 2)] else if s == 3 then [(TAU, 3)] else [],
        (s: nat) => if s < 4 then [s] else [])
  }

  /** "a" and "b" or "b" alone, and then "c". */
  function SkipImpl(): Lts<nat> {
    Lts(0 as nat, (s: nat) => if s == 0 then [(A, 1), (B, 2)] else if s == 1 then [(B, 2)] else if s == 2 then [(C, 3)] else [],
        (s: nat) => if s < 4 then [s] else [])
  }

  ghost predicate LoopEdges(spec: Lts<nat>, impl: Lts<nat>) {
    && (forall s, a, t :: Edge(spec, s, a, t) <==>
          (s == 0 && a == A && t == 1) || (s == 0 && a == B && t == 3) || (s == 1 && a == B && t == 2) || (s == 3 && a == TAU && t == 3))
    && (forall s, a, t :: Edge(impl, s, a, t) <==>
          (s == 0 && a == A && t == 1) || (s == 0 && a == B && t == 2) || (s == 1 && a == B && t == 2) || (s == 2 && a == C && t == 3))
    && spec.init == 0 && impl.init == 0
  }

  lemma LoopEdgesAre()
    ensures LoopEdges(LoopSpec(), SkipImpl())
  {
    forall s: nat, a: Label, t: nat
      ensures Edge(LoopSpec(), s, a, t) <==>
                (s == 0 && a == A && t == 1) || (s == 0 && a == B && t == 3) || (s == 1 && a == B && t == 2) || (s == 3 && a == TAU && t == 3)
      ensures Edge(SkipImpl(), s, a, t) <==>
                (s == 0 && a == A && t == 1) || (s == 0 && a == B && t == 2) || (s == 1 && a == B && t == 2) || (s == 2 && a == C && t == 3)
    {}
  }

  lemma AfterIs(l: Lts<nat>, tr: Trace, x: iset<nat>, a: Label, y: iset<nat>)
    requires a != TAU && After(l, tr) == x && (forall t :: StepsTo(l, x, a, t) <==> t in y) && TauClosed(l, y)
    ensures After(l, tr + [a]) == y
  {
    AfterStep(l, tr, a);
    NextIs(l, x, a, y);
  }

  lemma Afters(spec: Lts<nat>, impl: Lts<nat>)
    requires LoopEdges(spec, impl)
    ensures After(impl, []) == iset{0} && After(impl, [A]) == iset{1} && After(impl, [A, B]) == iset{2} && After(impl, [A, B, C]) == iset{3}
    ensures After(impl, [B]) == iset{2} && After(impl, [B, C]) == iset{3} && After(impl, [C]) == iset{}
  {
    hide Edge, After;
    assert [A, B] == [A] + [B] && [A, B, C] == [A, B] + [C] && [B, C] == [B] + [C];
    assert [] + [A] == [A] && [] + [B] == [B] && [] + [C] == [C];
    assert Edge(impl, 0, A, 1) && Edge(impl, 0, B, 2) && Edge(impl, 1, B, 2) && Edge(impl, 2, C, 3);
    StartIs(impl, iset{0});
    AfterIs(impl, [], iset{0}, A, iset{1});
    AfterIs(impl, [A], iset{1}, B, iset{2});
    AfterIs(impl, [A, B], iset{2}, C, iset{3});
    AfterIs(impl, [], iset{0}, B, iset{2});
    AfterIs(impl, [B], iset{2}, C, iset{3});
    AfterIs(impl, [], iset{0}, C, iset{});
  }

  lemma SpecAfters(spec: Lts<nat>, impl: Lts<nat>)
    requires LoopEdges(spec, impl)
    ensures After(spec, []) == iset{0} && After(spec, [A]) == iset{1} && After(spec, [A, B]) == iset{2} && After(spec, [A, B, C]) == iset{}
    ensures After(spec, [B]) == iset{3} && After(spec, [B, C]) == iset{}
  {
    hide Edge, After;
    assert [A, B] == [A] + [B] && [A, B, C] == [A, B] + [C] && [B, C] == [B] + [C];
    assert [] + [A] == [A] && [] + [B] == [B];
    assert Edge(spec, 0, A, 1) && Edge(spec, 0, B, 3) && Edge(spec, 1, B, 2);
    StartIs(spec, iset{0});
    AfterIs(spec, [], iset{0}, A, iset{1});
    AfterIs(spec, [A], iset{1}, B, iset{2});
    AfterIs(spec, [A, B], iset{2}, C, iset{});
    AfterIs(spec, [], iset{0}, B, iset{3});
    AfterIs(spec, [B], iset{3}, C, iset{});
  }

  lemma OneLoop(spec: Lts<nat>, impl: Lts<nat>)
    requires LoopEdges(spec, impl)
    ensures forall x :: !HasTauCycle(impl, x)
    ensures HasTauCycle(spec, iset{3}) && forall x | 3 !in x :: !HasTauCycle(spec, x)
  {
    hide Edge;
    assert Edge(spec, 3, TAU, 3);
    assert TauCycleIn(spec, iset{3}, [3, 3]);
    forall x, p ensures !TauCycleIn(impl, x, p) {
      if |p| >= 2 { assert !Edge(impl, p[0], TAU, p[1]); }
    }
    forall x, p | 3 !in x ensures !TauCycleIn(spec, x, p) {
      if |p| >= 2 && p[0] != 3 { assert !Edge(spec, p[0], TAU, p[1]); }
    }
  }

  lemma OffersMatch()
    ensures forall k: nat | k < 3 :: !RefusesMore(LoopSpec(), SkipImpl(), iset{k}, iset{k})
  {
    var spec, impl := LoopSpec(), SkipImpl();
    assert (A, 1) in spec.next(0) && (B, 3) in spec.next(0) && (A, 1) in impl.next(0) && (B, 2) in impl.next(0);
    assert (B, 2) in spec.next(1) && (B, 2) in impl.next(1);
    assert Offers(spec, 0) == {A, B} && Offers(impl, 0) == {A, B} && Offers(spec, 1) == {B} && Offers(impl, 1) == {B} && Offers(spec, 2) == {};
    assert Stable(spec, 0) && Stable(spec, 1) && Stable(spec, 2);
  }

  /** The search reports "a", "b", "c", and "b", "c" is a result of minimising that; but
      the specification diverges after "b", so that this shows nothing. */
  lemma MinimizedPastDivergence()
    ensures Fault(FD, LoopSpec(), SkipImpl(), TraceMismatch, [A, B, C])
    ensures Minimal(FD, LoopSpec(), SkipImpl(), TraceMismatch, [B, C]) && Minimize.Subsequence([B, C], [A, B, C])
    ensures !Violates(LoopSpec(), SkipImpl(), [B, C])
  {
    LoopEdgesAre();
    OffersMatch();
    LoopSystemsAreFinite();
    hide *;
    Afters(LoopSpec(), SkipImpl());
    SpecAfters(LoopSpec(), SkipImpl());
    OneLoop(LoopSpec(), SkipImpl());
    ReportedIsFault(LoopSpec(), SkipImpl());
    PairIsMinimal(LoopSpec(), SkipImpl());
    PairIsPart();
    SpecDiverges(LoopSpec());
    PairShowsNothing();
  }

  lemma PairIsPart()
    ensures Minimize.Subsequence([B, C], [A, B, C])
  {
    assert Minimize.Embeds([B, C], [A, B, C], [1, 2]);
  }

  lemma SpecDiverges(spec: Lts<nat>)
    requires Bounded(spec, {0, 1, 2, 3}) && After(spec, [B]) == iset{3} && HasTauCycle(spec, iset{3})
    ensures Divergence(spec, [B, C])
  {
    hide After, HasTauCycle, DivergesAfter;
    CycleIffDivergesAfter(spec, {0, 1, 2, 3}, [B]);
    assert [B, C][..1] == [B];
    PrefixDivergence(spec, [B, C], 1);
  }

  lemma PairShowsNothing()
    requires Bounded(LoopSpec(), {0, 1, 2, 3}) && Bounded(SkipImpl(), {0, 1, 2, 3})
    requires Minimal(FD, LoopSpec(), SkipImpl(), TraceMismatch, [B, C]) && Divergence(LoopSpec(), [B, C])
    ensures !Violates(LoopSpec(), SkipImpl(), [B, C])
  {
    hide LoopSpec, SkipImpl, Divergence, Violates, Bounded, StillFails;
    VisibleIsGenuine(LoopSpec(), SkipImpl(), {0, 1, 2, 3}, {0, 1, 2, 3}, TraceMismatch, [B, C]);
  }

  lemma LoopSystemsAreFinite()
    ensures Finite(LoopSpec(), {0, 1, 2, 3}) && Finite(SkipImpl(), {0, 1, 2, 3})
    ensures Bounded(LoopSpec(), {0, 1, 2, 3}) && Bounded(SkipImpl(), {0, 1, 2, 3})
  {}

  lemma ReportedIsFault(spec: Lts<nat>, impl: Lts<nat>)
    requires After(impl, []) == iset{0} && After(impl, [A]) == iset{1} && After(impl, [A, B]) == iset{2} && After(impl, [A, B, C]) == iset{3}
    requires After(spec, []) == iset{0} && After(spec, [A]) == iset{1} && After(spec, [A, B]) == iset{2} && After(spec, [A, B, C]) == iset{}
    requires (forall x :: !HasTauCycle(impl, x)) && (forall x | 3 !in x :: !HasTauCycle(spec, x))
    requires forall k: nat | k < 3 :: !RefusesMore(spec, impl, iset{k}, iset{k})
    ensures Fault(FD, spec, impl, TraceMismatch, [A, B, C])
  {
    hide After, HasTauCycle, RefusesMore;
    var tr := [A, B, C];
    assert tr[..2] == [A, B] && [A, B][..0] == [] && [A, B][..1] == [A];
    assert 2 in After(impl, [A, B]) && 2 in After(spec, [A, B]) && 3 in After(impl, tr);
  }

  lemma PairIsMinimal(spec: Lts<nat>, impl: Lts<nat>)
    requires After(impl, [B]) == iset{2} && After(impl, [B, C]) == iset{3} && After(impl, [C]) == iset{}
    requires After(spec, [B]) == iset{3} && After(spec, [B, C]) == iset{}
    requires (forall x :: !HasTauCycle(impl, x)) && HasTauCycle(spec, iset{3})
    ensures Minimal(FD, spec, impl, TraceMismatch, [B, C])
  {
    hide After, HasTauCycle, RefusesMore;
    ReplayedIsAfter(impl, [B]);
    ReplayedIsAfter(spec, [B]);
    ReplayedIsAfter(impl, [C]);
    ReplayedIsAfter(impl, [B, C]);
    ReplayedIsAfter(spec, [B, C]);
    hide Replayed;
    assert 3 in Replayed(impl, [B, C]) && 3 in Replayed(spec, [B]);
    assert Minimize.Drop([B, C], 0) == [C] && Minimize.Drop([B, C], 1) == [B];
  }
}
