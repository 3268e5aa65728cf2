/** Replaying reported events: the oracle of the minimiser accepts every
    counterexample of the search, and in model T it cannot be shortened. */
module Replay {
  import opened Lts
  import opened Refinement
  import opened Closures
  import opened RefineSearch
  import ClosureCycle
  import opened Shortlex
  import Minimize
  import Names

  /** The states after taking every event as a label, "tau" included. */
  ghost function Replayed<S(!new)>(l: Lts<S>, tr: Trace): iset<S> {
    if tr == [] then TauClosure(l, iset{l.init})
    else Next(l, Replayed(l, tr[..|tr| - 1]), tr[|tr| - 1])
  }

  ghost predicate Possible<S(!new)>(l: Lts<S>, tr: Trace) {
    exists t :: t in Replayed(l, tr)
  }

  /** The oracle: the events can be replayed in the implementation, and then fail
      in the specification or at the node they lead to. */
  ghost predicate StillFails<S(!new)>(m: Model, spec: Lts<S>, impl: Lts<S>, kind: FailureKind, tr: Trace) {
    && (kind == DivergenceMismatch ==> TAU in tr)
    && Possible(impl, tr)
    && (!Possible(spec, tr)
        || var v := Judge(m, spec, impl, Replayed(impl, tr), Replayed(spec, tr)); v == Refuses || v == Diverges)
  }

  lemma ReplayedStep<S(!new)>(l: Lts<S>, tr: Trace, a: Label)
    ensures Replayed(l, tr + [a]) == Next(l, Replayed(l, tr), a)
  {
    assert (tr + [a])[..|tr|] == tr;
  }

  lemma {:induction false} ReplayedIsAfter<S(!new)>(l: Lts<S>, tr: Trace)
    requires VisibleTrace(tr)
    ensures Replayed(l, tr) == After(l, tr)
  {
    if tr == [] {
      AfterEmpty(l);
    } else {
      var n := |tr| - 1;
      ReplayedIsAfter(l, tr[..n]);
      AfterStep(l, tr[..n], tr[n]);
      assert tr == tr[..n] + [tr[n]];
    }
  }

  lemma PossiblePrefix<S(!new)>(l: Lts<S>, tr: Trace, a: Label)
    requires Possible(l, tr + [a])
    ensures Possible(l, tr)
  {
    ReplayedStep(l, tr, a);
    NextNonempty(l, Replayed(l, tr), a);
  }

  // ---------------------------------------------------------- the replay

  method StartClosure<S(==,!new)>(l: Lts<S>, ghost u: set<S>) returns (c: Closure<S>)
    requires Finite(l, u)
    ensures IsClosure(l, u, c, Replayed(l, [])) && Possible(l, [])
  {
    assert MembersOf([l.init]) == iset{l.init};
    c := ComputeTauClosure(l, u, [l.init]);
    TauClosureContains(l, iset{l.init});
    assert l.init in Replayed(l, []);
  }

  method StepClosure<S(==,!new)>(l: Lts<S>, ghost u: set<S>, c: Closure<S>, ghost tr: Trace, a: Label) returns (next: Closure<S>)
    requires Finite(l, u) && IsClosure(l, u, c, Replayed(l, tr))
    ensures IsClosure(l, u, next, Replayed(l, tr + [a]))
    ensures next.states == [] <==> !Possible(l, tr + [a])
  {
    assert StatesOf(c) == Replayed(l, tr);
    ReplayedStep(l, tr, a);
    next := ComputeNext(l, u, c.states, a);
    if next.states != [] { assert next.states[0] in Replayed(l, tr + [a]); }
  }

  lemma ImpossibleStays<S(!new)>(l: Lts<S>, tr: Trace, a: Label)
    requires !Possible(l, tr)
    ensures !Possible(l, tr + [a]) && Replayed(l, tr + [a]) == Replayed(l, tr)
  {
    if Possible(l, tr + [a]) { PossiblePrefix(l, tr, a); }
    assert Replayed(l, tr) == iset{} && Replayed(l, tr + [a]) == iset{};
  }

  method ReplayTrace<S(==,!new)>(spec: Lts<S>, impl: Lts<S>, ghost us: set<S>, ghost ui: set<S>, trace: Trace)
    returns (possible: bool, implC: Closure<S>, specC: Closure<S>, mismatch: bool)
    requires Finite(spec, us) && Finite(impl, ui)
    ensures possible <==> Possible(impl, trace)
    ensures possible ==> IsClosure(impl, ui, implC, Replayed(impl, trace)) && IsClosure(spec, us, specC, Replayed(spec, trace))
    ensures possible ==> (mismatch <==> !Possible(spec, trace))
  {
    hide IsClosure, Replayed, Possible;
    implC := StartClosure(impl, ui);
    specC := StartClosure(spec, us);
    mismatch := false;
    for i := 0 to |trace|
      invariant IsClosure(impl, ui, implC, Replayed(impl, trace[..i])) && IsClosure(spec, us, specC, Replayed(spec, trace[..i]))
      invariant Possible(impl, trace[..i]) && (mismatch <==> !Possible(spec, trace[..i]))
    {
      var a := trace[i];
      assert trace[..i + 1] == trace[..i] + [a];
      var implNext := StepClosure(impl, ui, implC, trace[..i], a);
      if implNext.states == [] {
        NotPossible(impl, trace, i + 1);
        return false, implC, specC, mismatch;
      }
      if !mismatch {
        specC := StepClosure(spec, us, specC, trace[..i], a);
        mismatch := specC.states == [];
      } else {
        ImpossibleStays(spec, trace[..i], a);
      }
      implC := implNext;
    }
    assert trace[..|trace|] == trace;
    possible := true;
  }

  lemma {:induction false} NotPossible<S(!new)>(l: Lts<S>, tr: Trace, i: nat)
    requires i <= |tr| && !Possible(l, tr[..i])
    ensures !Possible(l, tr)
    decreases |tr|
  {
    if i < |tr| {
      var n := |tr| - 1;
      assert tr == tr[..n] + [tr[n]] && tr[..n][..i] == tr[..i];
      NotPossible(l, tr[..n], i);
      if Possible(l, tr) { PossiblePrefix(l, tr[..n], tr[n]); }
    } else {
      assert tr[..i] == tr;
    }
  }

  method CounterexampleStillFails<S(==,!new)>(m: Model, spec: Lts<S>, impl: Lts<S>, ghost us: set<S>, ghost ui: set<S>,
                                              kind: FailureKind, trace: Trace)
    returns (fails: bool)
    requires Finite(spec, us) && Finite(impl, ui)
    ensures fails <==> StillFails(m, spec, impl, kind, trace)
  {
    if kind == DivergenceMismatch && TAU !in trace {
      return false;
    }
    var possible, implC, specC, mismatch := ReplayTrace(spec, impl, us, ui, trace);
    if !possible {
      return false;
    }
    if mismatch {
      return true;
    }
    assert StatesOf(implC) == Replayed(impl, trace) && StatesOf(specC) == Replayed(spec, trace);
    match m
    case T => return false;
    case F =>
      fails := RefusalCheck(spec, impl, implC.states, specC.states);
    case FD =>
      var specDiverges := ClosureCycle.ClosureHasTauCycle(spec, specC.states);
      var implDiverges := ClosureCycle.ClosureHasTauCycle(impl, implC.states);
      if implDiverges && !specDiverges {
        return true;
      }
      if specDiverges {
        return false;
      }
      fails := RefusalCheck(spec, impl, implC.states, specC.states);
  }

  // ------------------------------------------- reported events are accepted

  lemma TauStepStays<S(!new)>(l: Lts<S>, x: iset<S>)
    requires TauClosed(l, x)
    ensures Next(l, x, TAU) <= x
  {
    assert Step(l, x, TAU) <= x;
    TauClosureLeast(l, Step(l, x, TAU), x);
  }

  lemma CycleSurvivesTau<S(!new)>(l: Lts<S>, x: iset<S>)
    requires HasTauCycle(l, x)
    ensures HasTauCycle(l, Next(l, x, TAU)) && exists t :: t in Next(l, x, TAU)
  {
    var p :| TauCycleIn(l, x, p);
    var y := Next(l, x, TAU);
    TauClosureContains(l, Step(l, x, TAU));
    forall i | 0 <= i < |p| ensures p[i] in y {
      var k := if i == 0 then |p| - 2 else i - 1;
      assert Edge(l, p[k], TAU, p[k + 1]) && p[k] in x;
      assert StepsTo(l, x, TAU, p[k + 1]);
    }
    assert TauCycleIn(l, y, p);
    assert p[0] in y;
  }

  /** The oracle accepts every counterexample the search reports. */
  lemma ReportedStillFails<S(!new)>(c: Problem<S>, kind: FailureKind, events: Trace)
    requires Reports(c, kind, events)
    ensures StillFails(c.m, c.spec, c.impl, kind, events)
  {
    match kind {
      case TraceMismatch =>
        TracesVisible(c.impl, events);
        ReplayedIsAfter(c.impl, events);
        ReplayedIsAfter(c.spec, events);
      case RefusalMismatch =>
        TracesVisible(c.impl, events);
        ReplayedIsAfter(c.impl, events);
        ReplayedIsAfter(c.spec, events);
      case DivergenceMismatch =>
        var tr := events[..|events| - 1];
        assert events == tr + [TAU];
        TracesVisible(c.impl, tr);
        ReplayedIsAfter(c.impl, tr);
        ReplayedIsAfter(c.spec, tr);
        ReplayedStep(c.impl, tr, TAU);
        ReplayedStep(c.spec, tr, TAU);
        DivergenceSurvivesTau(c, tr);
    }
  }

  lemma DivergenceSurvivesTau<S(!new)>(c: Problem<S>, tr: Trace)
    requires JudgeAt(c.m, c.spec, c.impl, tr) == Diverges
    ensures exists t :: t in Next(c.impl, After(c.impl, tr), TAU)
    ensures Judge(c.m, c.spec, c.impl, Next(c.impl, After(c.impl, tr), TAU), Next(c.spec, After(c.spec, tr), TAU)) == Diverges
  {
    CycleSurvivesTau(c.impl, After(c.impl, tr));
    AfterTauClosed(c.spec, tr);
    TauStepStays(c.spec, After(c.spec, tr));
    var b := Next(c.spec, After(c.spec, tr), TAU);
    if p :| TauCycleIn(c.spec, b, p) {
      assert TauCycleIn(c.spec, After(c.spec, tr), p);
    }
  }

  // --------------------------------------------- shortest counterexamples

  /** A trace the specification lacks has a prefix that is a fault. */
  lemma {:induction false} FaultyPrefix<S(!new)>(spec: Lts<S>, impl: Lts<S>, tr: Trace) returns (i: nat)
    requires IsTrace(impl, tr) && !IsTrace(spec, tr)
    ensures i <= |tr| && Fault(T, spec, impl, TraceMismatch, tr[..i])
  {
    if tr == [] {
      EmptyTrace(spec);
    }
    var n := |tr| - 1;
    TracePrefix(impl, tr, n);
    if IsTrace(spec, tr[..n]) {
      i := |tr|;
      assert tr[..i] == tr;
    } else {
      i := FaultyPrefix(spec, impl, tr[..n]);
      assert tr[..n][..i] == tr[..i];
    }
  }

  /** In model T the first fault is the least of all traces of the implementation
      that the specification lacks, by length and then label by label; only its
      last event is the mismatch. */
  lemma LeastInModelT<S(!new)>(spec: Lts<S>, impl: Lts<S>, events: Trace, tr: Trace)
    requires FirstFault(T, spec, impl, TraceMismatch, events)
    requires IsTrace(impl, tr) && !IsTrace(spec, tr)
    ensures AtMost(events, tr)
    ensures forall i | 0 <= i < |events| :: IsTrace(spec, events[..i])
  {
    hide IsTrace, Before, Names.NameLess;
    var k := FaultyPrefix(spec, impl, tr);
    SoonerIsBefore(spec, impl, events, tr[..k]);
    hide FirstFault;
    PrefixAtMost(tr, k);
    if events != tr[..k] && tr[..k] != tr { Transitive(events, tr[..k], tr); }
    FrontIsTrace(spec, impl, events);
    var n := |events| - 1;
    forall i | 0 <= i < |events| ensures IsTrace(spec, events[..i]) {
      TracePrefix(spec, events[..n], i);
      assert events[..n][..i] == events[..i];
    }
  }

  lemma FrontIsTrace<S(!new)>(spec: Lts<S>, impl: Lts<S>, events: Trace)
    requires FirstFault(T, spec, impl, TraceMismatch, events)
    ensures events != [] && IsTrace(spec, events[..|events| - 1])
  {}

  lemma PrefixAtMost(tr: Trace, k: nat)
    requires k <= |tr|
    ensures AtMost(tr[..k], tr)
  {
    if k == |tr| { assert tr[..k] == tr; }
  }

  lemma SoonerIsBefore<S(!new)>(spec: Lts<S>, impl: Lts<S>, v: Trace, w: Trace)
    requires FirstFault(T, spec, impl, TraceMismatch, v) && Fault(T, spec, impl, TraceMismatch, w)
    ensures AtMost(v, w)
  {
    hide Before, Names.NameLess, Explored, IsTrace;
    if v != w {
      assert Sooner(TraceMismatch, v, TraceMismatch, w);
      var m, n := |v| - 1, |w| - 1;
      assert v == v[..m] + [v[m]] && w == w[..n] + [w[n]];
      Append(v[..m], w[..n], v[m], w[n]);
    }
  }

  lemma DropShortens(tr: Trace, k: nat)
    requires k < |tr|
    ensures !AtMost(tr, Minimize.Drop(tr, k))
  {
    hide Lex;
  }

  /** In model T no single event can be dropped from the first fault. */
  lemma ModelTIsOneMinimal<S(!new)>(spec: Lts<S>, impl: Lts<S>, events: Trace, k: nat)
    requires FirstFault(T, spec, impl, TraceMismatch, events) && k < |events|
    ensures !StillFails(T, spec, impl, TraceMismatch, Minimize.Drop(events, k))
  {
    hide FirstFault, AtMost;
    FirstIsImplTrace(spec, impl, events);
    TracesVisible(impl, events);
    var tr := Minimize.Drop(events, k);
    assert VisibleTrace(tr);
    ReplayedIsAfter(impl, tr);
    ReplayedIsAfter(spec, tr);
    if IsTrace(impl, tr) && !IsTrace(spec, tr) {
      LeastInModelT(spec, impl, events, tr);
      DropShortens(events, k);
    }
  }

  lemma FirstIsImplTrace<S(!new)>(spec: Lts<S>, impl: Lts<S>, events: Trace)
    requires FirstFault(T, spec, impl, TraceMismatch, events)
    ensures IsTrace(impl, events)
  {}

  // ------------------------------------------------------------ minimisation

  /** The question that the minimiser asks about candidates. */
  ghost function Oracle<S(!new)>(m: Model, spec: Lts<S>, impl: Lts<S>, kind: FailureKind): Trace -> bool {
    tr => StillFails(m, spec, impl, kind, tr)
  }

  /** Greedy deletion, with every candidate replayed. */
  method MinimizeCounterexample<S(==,!new)>(m: Model, spec: Lts<S>, impl: Lts<S>, ghost us: set<S>, ghost ui: set<S>,
                                            kind: FailureKind, events: Trace)
    returns (best: Trace, minimized: bool)
    requires Finite(spec, us) && Finite(impl, ui)
    ensures Minimize.Result(Oracle(m, spec, impl, kind), events, best, minimized)
  {
    hide StillFails;
    ghost var oracle := Oracle(m, spec, impl, kind);
    best := events;
    var fails := CounterexampleStillFails(m, spec, impl, us, ui, kind, events);
    if !fails {
      return best, false;
    }
    Minimize.SubsequenceSelf(events);
    var reduced := true;
    while reduced
      invariant oracle(best) && Minimize.Subsequence(best, events)
      invariant !reduced ==> Minimize.OneMinimal(oracle, best)
      invariant Minimize.OneMinimal(oracle, events) ==> best == events
      decreases |best|, reduced
    {
      reduced := false;
      ghost var before := best;
      for idx := 0 to |best|
        invariant best == before && !reduced && forall i: nat | i < idx :: !oracle(Minimize.Drop(best, i))
      {
        var candidate := Minimize.Drop(best, idx);
        var candidateFails := CounterexampleStillFails(m, spec, impl, us, ui, kind, candidate);
        if !candidateFails {
          continue;
        }
        Minimize.SubsequenceDrop(best, events, idx);
        best := candidate;
        reduced := true;
        break;
      }
    }
    minimized := true;
  }

  /** What the checker hands out: events that still fail and from which no event
      can be dropped. */
  ghost predicate Minimal<S(!new)>(m: Model, spec: Lts<S>, impl: Lts<S>, kind: FailureKind, best: Trace) {
    && StillFails(m, spec, impl, kind, best)
    && forall k: nat | k < |best| :: !StillFails(m, spec, impl, kind, Minimize.Drop(best, k))
  }

  lemma {:induction false} SubsequenceVisible(a: Trace, b: Trace)
    requires Minimize.Subsequence(a, b) && VisibleTrace(b)
    ensures VisibleTrace(a)
  {
    var ix :| Minimize.Embeds(a, b, ix);
  }

  /** In models T and F what is handed out is a real violation: a trace of the
      implementation that the specification lacks or after which it lacks a refusal. */
  lemma MinimizedIsViolation<S(!new)>(m: Model, spec: Lts<S>, impl: Lts<S>, out: Outcome, events: Trace)
    requires m != FD && out.Fails? && IsOutcome(m, spec, impl, out)
    requires Minimal(m, spec, impl, out.kind, events) && Minimize.Subsequence(events, out.trace)
    ensures IsTrace(impl, events)
    ensures IsTrace(spec, events) ==> m == F && exists refused :: Failure(impl, events, refused) && !Failure(spec, events, refused)
  {
    OutcomeIsVisible(m, spec, impl, out);
    SubsequenceVisible(events, out.trace);
    ReplayedIsAfter(impl, events);
    ReplayedIsAfter(spec, events);
    hide Minimize.Subsequence, IsOutcome;
    assert StillFails(m, spec, impl, out.kind, events);
    if IsTrace(spec, events) {
      assert Judge(m, spec, impl, After(impl, events), After(spec, events)) == Refuses;
      RefusalSetsMatch(spec, impl, events);
    }
  }

  lemma OutcomeIsVisible<S(!new)>(m: Model, spec: Lts<S>, impl: Lts<S>, out: Outcome)
    requires m != FD && out.Fails? && IsOutcome(m, spec, impl, out)
    ensures VisibleTrace(out.trace)
  {
    hide Sooner, Explored, IsTrace;
    FailsOnFault(m, spec, impl, out);
    FaultIsTrace(m, spec, impl, out.kind, out.trace);
    TracesVisible(impl, out.trace);
  }

  lemma FaultIsTrace<S(!new)>(m: Model, spec: Lts<S>, impl: Lts<S>, kind: FailureKind, tr: Trace)
    requires m != FD && Fault(m, spec, impl, kind, tr)
    ensures IsTrace(impl, tr)
  {}

  /** The minimiser always succeeds on what the search reports; in model T it
      returns the events unchanged. */
  lemma MinimizedCounterexample<S(!new)>(c: Problem<S>, out: Outcome, best: Trace, minimized: bool)
    requires out.Fails? && IsOutcome(c.m, c.spec, c.impl, out)
    requires Minimize.Result(Oracle(c.m, c.spec, c.impl, out.kind), out.trace, best, minimized)
    ensures minimized && Minimal(c.m, c.spec, c.impl, out.kind, best) && Minimize.Subsequence(best, out.trace)
    ensures c.m == T ==> best == out.trace
  {
    hide StillFails, Sooner;
    var oracle := Oracle(c.m, c.spec, c.impl, out.kind);
    OutcomeReports(c, out);
    ReportedStillFails(c, out.kind, out.trace);
    if c.m == T {
      assert out.kind == TraceMismatch && FirstFault(T, c.spec, c.impl, TraceMismatch, out.trace);
      forall k: nat | k < |out.trace| ensures !oracle(Minimize.Drop(out.trace, k)) {
        ModelTIsOneMinimal(c.spec, c.impl, out.trace, k);
      }
    }
    hide IsOutcome;
    forall k: nat | k < |best| ensures !StillFails(c.m, c.spec, c.impl, out.kind, Minimize.Drop(best, k)) {
      assert !oracle(Minimize.Drop(best, k));
    }
  }

  lemma OutcomeReports<S(!new)>(c: Problem<S>, out: Outcome)
    requires out.Fails? && IsOutcome(c.m, c.spec, c.impl, out)
    ensures Reports(c, out.kind, out.trace)
  {
    hide Fault, Sooner;
  }
}
