/** What the refinement checker looks for, stated over traces, and the theorems
    that finding none of it is refinement in the three semantic models. */
module Refinement {
  import opened Lts
  import opened Shortlex
  import Names
  import Utf8
  import TauCycles

  datatype Model = T | F | FD

  datatype Verdict = Continue | Prune | Refuses | Diverges

  datatype FailureKind = TraceMismatch | RefusalMismatch | DivergenceMismatch

  /** Some stable state of the implementation offers no superset of what a
      stable state of the specification offers. */
  ghost predicate RefusesMore<S(!new)>(spec: Lts<S>, impl: Lts<S>, a: iset<S>, b: iset<S>) {
    exists s :: s in a && Stable(impl, s) && Unmatched(spec, b, Offers(impl, s))
  }

  ghost predicate Unmatched<S(!new)>(spec: Lts<S>, b: iset<S>, offer: set<Label>) {
    forall t | t in b && Stable(spec, t) :: !(Offers(spec, t) <= offer)
  }

  /** The node check, for implementation states `a` and specification states `b`. */
  ghost function Judge<S(!new)>(m: Model, spec: Lts<S>, impl: Lts<S>, a: iset<S>, b: iset<S>): Verdict {
    match m
    case T => Continue
    case F => if RefusesMore(spec, impl, a, b) then Refuses else Continue
    case FD =>
      if HasTauCycle(impl, a) && !HasTauCycle(spec, b) then Diverges
      else if HasTauCycle(spec, b) then Prune
      else if RefusesMore(spec, impl, a, b) then Refuses
      else Continue
  }

  ghost function JudgeAt<S(!new)>(m: Model, spec: Lts<S>, impl: Lts<S>, tr: Trace): Verdict {
    Judge(m, spec, impl, After(impl, tr), After(spec, tr))
  }

  /** The search goes as far as `tr`: no proper prefix stops it. */
  ghost predicate Explored<S(!new)>(m: Model, spec: Lts<S>, impl: Lts<S>, tr: Trace) {
    && IsTrace(impl, tr)
    && IsTrace(spec, tr)
    && forall i | 0 <= i < |tr| :: JudgeAt(m, spec, impl, tr[..i]) == Continue
  }

  ghost predicate Fault<S(!new)>(m: Model, spec: Lts<S>, impl: Lts<S>, kind: FailureKind, tr: Trace) {
    match kind
    case TraceMismatch =>
      && tr != []
      && Explored(m, spec, impl, tr[..|tr| - 1])
      && JudgeAt(m, spec, impl, tr[..|tr| - 1]) == Continue
      && IsTrace(impl, tr) && !IsTrace(spec, tr)
    case RefusalMismatch => Explored(m, spec, impl, tr) && JudgeAt(m, spec, impl, tr) == Refuses
    case DivergenceMismatch => Explored(m, spec, impl, tr) && JudgeAt(m, spec, impl, tr) == Diverges
  }

  ghost predicate Faultless<S(!new)>(m: Model, spec: Lts<S>, impl: Lts<S>) {
    forall kind, tr :: !Fault(m, spec, impl, kind, tr)
  }

  // ------------------------------------------------- which fault comes first

  /** The node at which the search meets a fault, by the trace that leads to it. */
  function FaultNode(kind: FailureKind, tr: Trace): Trace {
    if kind == TraceMismatch && tr != [] then tr[..|tr| - 1] else tr
  }

  /** Nodes in order of their traces; in a node the check, then the edges in order
      of their labels. */
  predicate Sooner(kind: FailureKind, v: Trace, kind': FailureKind, w: Trace) {
    || Before(FaultNode(kind, v), FaultNode(kind', w))
    || (FaultNode(kind, v) == FaultNode(kind', w) && kind' == TraceMismatch
        && (kind != TraceMismatch || (v != [] && w != [] && Names.NameLess(v[|v| - 1], w[|w| - 1]))))
  }

  ghost predicate FirstFault<S(!new)>(m: Model, spec: Lts<S>, impl: Lts<S>, kind: FailureKind, tr: Trace) {
    && Fault(m, spec, impl, kind, tr)
    && forall k, w | Fault(m, spec, impl, k, w) :: (k == kind && w == tr) || Sooner(kind, tr, k, w)
  }

  /** The order of faults in terms of characters: traces to the nodes, then the node
      check, then the labels of the edges. */
  ghost predicate MetSooner(kind: FailureKind, v: Trace, kind': FailureKind, w: Trace) {
    var n, n' := if kind == TraceMismatch && v != [] then v[..|v| - 1] else v, if kind' == TraceMismatch && w != [] then w[..|w| - 1] else w;
    || ComesFirst(n, n')
    || (n == n' && kind' == TraceMismatch
        && (kind != TraceMismatch || (v != [] && w != [] && Utf8.SpelledBefore(v[|v| - 1], w[|w| - 1]))))
  }

  lemma SoonerIsMetSooner(kind: FailureKind, v: Trace, kind': FailureKind, w: Trace)
    ensures Sooner(kind, v, kind', w) <==> MetSooner(kind, v, kind', w)
  {
    hide Before, ComesFirst, Names.NameLess, Utf8.SpelledBefore;
    BeforeIsFirst(FaultNode(kind, v), FaultNode(kind', w));
    if v != [] && w != [] { Names.NameLessIsSpelled(v[|v| - 1], w[|w| - 1]); }
  }

  /** A fault that the search meets before all others. */
  ghost predicate MetFirst<S(!new)>(m: Model, spec: Lts<S>, impl: Lts<S>, kind: FailureKind, tr: Trace) {
    && Fault(m, spec, impl, kind, tr)
    && forall k, w | Fault(m, spec, impl, k, w) :: (k == kind && w == tr) || MetSooner(kind, tr, k, w)
  }

  lemma FirstIsMetFirst<S(!new)>(m: Model, spec: Lts<S>, impl: Lts<S>, kind: FailureKind, tr: Trace)
    ensures FirstFault(m, spec, impl, kind, tr) <==> MetFirst(m, spec, impl, kind, tr)
  {
    hide Sooner, MetSooner, Fault;
    forall k, w ensures Sooner(kind, tr, k, w) <==> MetSooner(kind, tr, k, w) { SoonerIsMetSooner(kind, tr, k, w); }
  }

  lemma SoonerAsymmetric(kind: FailureKind, v: Trace, kind': FailureKind, w: Trace)
    ensures !(Sooner(kind, v, kind', w) && Sooner(kind', w, kind, v))
  {
    hide Before, Names.NameLess;
    Compare(FaultNode(kind, v), FaultNode(kind', w));
    if v != [] && w != [] { Names.NamesCompare(v[|v| - 1], w[|w| - 1]); }
  }

  /** There is at most one first fault. */
  lemma FirstFaultUnique<S(!new)>(m: Model, spec: Lts<S>, impl: Lts<S>, kind: FailureKind, v: Trace, kind': FailureKind, w: Trace)
    requires FirstFault(m, spec, impl, kind, v) && FirstFault(m, spec, impl, kind', w)
    ensures kind == kind' && v == w
  {
    hide Fault, Sooner;
    SoonerAsymmetric(kind, v, kind', w);
  }

  ghost predicate Refines<S(!new)>(m: Model, spec: Lts<S>, impl: Lts<S>) {
    match m
    case T => TraceRefines(spec, impl)
    case F => FailuresRefines(spec, impl)
    case FD => FailuresDivergencesRefines(spec, impl)
  }

  // --------------------------------------------------------- exploration

  lemma EmptyTrace<S(!new)>(l: Lts<S>)
    ensures IsTrace(l, [])
  {
    AfterEmpty(l);
    TauClosureContains(l, iset{l.init});
    assert l.init in After(l, []);
  }

  /** Without faults, every implementation trace is explored or runs past a
      node that was pruned. */
  lemma {:induction false} ExploredOrPruned<S(!new)>(m: Model, spec: Lts<S>, impl: Lts<S>, tr: Trace)
    returns (pruned: bool, i: nat)
    requires Faultless(m, spec, impl) && IsTrace(impl, tr)
    ensures !pruned ==> Explored(m, spec, impl, tr)
    ensures pruned ==> m == FD && i < |tr| && HasTauCycle(spec, After(spec, tr[..i]))
  {
    hide IsTrace, HasTauCycle, RefusesMore;
    if tr == [] {
      EmptyTrace(spec);
      return false, 0;
    }
    var n := |tr| - 1;
    var front := tr[..n];
    TracePrefix(impl, tr, n);
    pruned, i := ExploredOrPruned(m, spec, impl, front);
    if pruned {
      assert front[..i] == tr[..i];
      return;
    }
    assert !Fault(m, spec, impl, RefusalMismatch, front);
    assert !Fault(m, spec, impl, DivergenceMismatch, front);
    if JudgeAt(m, spec, impl, front) == Prune {
      return true, n;
    }
    assert !Fault(m, spec, impl, TraceMismatch, tr);
    forall k | 0 <= k < |tr| ensures JudgeAt(m, spec, impl, tr[..k]) == Continue {
      if k < n { assert front[..k] == tr[..k]; }
    }
  }

  /** The offer-subset test decides inclusion of all refusal sets. */
  lemma RefusalSetsMatch<S(!new)>(spec: Lts<S>, impl: Lts<S>, tr: Trace)
    ensures RefusesMore(spec, impl, After(impl, tr), After(spec, tr)) <==>
            exists refused :: Failure(impl, tr, refused) && !Failure(spec, tr, refused)
  {
    var a, b := After(impl, tr), After(spec, tr);
    if s :| s in a && Stable(impl, s) && Unmatched(spec, b, Offers(impl, s)) {
      var refused := iset x: Label | x !in Offers(impl, s);
      assert Failure(impl, tr, refused);
      forall t | t in b && Stable(spec, t) ensures !Rejects(spec, t, refused) {
        var x :| x in Offers(spec, t) && x !in Offers(impl, s);
        assert x in refused;
      }
    }
    if refused :| Failure(impl, tr, refused) && !Failure(spec, tr, refused) {
      var s :| s in a && Stable(impl, s) && Rejects(impl, s, refused);
      assert Unmatched(spec, b, Offers(impl, s)) by {
        forall t | t in b && Stable(spec, t) ensures !(Offers(spec, t) <= Offers(impl, s)) {
          assert !Rejects(spec, t, refused);
        }
      }
    }
  }

  ghost function Finitely(refused: set<Label>): iset<Label> {
    iset x | x in refused
  }

  ghost function AllOffers<S(!new)>(l: Lts<S>, u: set<S>): set<Label> {
    set t, x | t in u && x in Offers(l, t) :: x
  }

  /** On a bounded specification finite refusal sets tell as much as all. */
  lemma FiniteRefusalsSuffice<S(!new)>(spec: Lts<S>, impl: Lts<S>, us: set<S>, tr: Trace, refused: iset<Label>) returns (finite: set<Label>)
    requires Bounded(spec, us) && Failure(impl, tr, refused) && !Failure(spec, tr, refused)
    ensures Finitely(finite) <= refused && Failure(impl, tr, Finitely(finite)) && !Failure(spec, tr, Finitely(finite))
  {
    finite := set x | x in AllOffers(spec, us) && x in refused;
    var s :| s in After(impl, tr) && Stable(impl, s) && Rejects(impl, s, refused);
    assert Rejects(impl, s, Finitely(finite));
    AfterInUniverse(spec, us, tr);
    forall t | t in After(spec, tr) && Stable(spec, t) ensures !Rejects(spec, t, Finitely(finite)) {
      assert !Rejects(spec, t, refused);
      var x :| x in Offers(spec, t) && x in refused;
      assert x in AllOffers(spec, us);
      assert x in Finitely(finite);
    }
  }

  lemma CycleIffDivergesAfter<S(!new)>(l: Lts<S>, u: set<S>, tr: Trace)
    requires Bounded(l, u)
    ensures HasTauCycle(l, After(l, tr)) <==> DivergesAfter(l, tr)
  {
    AfterTauClosed(l, tr);
    AfterInUniverse(l, u, tr);
    TauCycles.TauCycleIffDiverges(l, u, After(l, tr));
  }

  // ------------------------------------------------------------- traces

  /** The search in model T finds nothing exactly when traces are included. */
  lemma TracesExact<S(!new)>(spec: Lts<S>, impl: Lts<S>)
    ensures Faultless(T, spec, impl) <==> TraceRefines(spec, impl)
  {
    if Faultless(T, spec, impl) {
      forall tr | IsTrace(impl, tr) ensures IsTrace(spec, tr) {
        var _, _ := ExploredOrPruned(T, spec, impl, tr);
      }
    }
    if TraceRefines(spec, impl) {
      forall kind, tr ensures !Fault(T, spec, impl, kind, tr) {}
    }
  }

  // ----------------------------------------------------------- failures

  /** The search in model F finds nothing exactly when traces and stable
      failures are included. */
  lemma FailuresExact<S(!new)>(spec: Lts<S>, impl: Lts<S>)
    ensures Faultless(F, spec, impl) <==> FailuresRefines(spec, impl)
  {
    if Faultless(F, spec, impl) {
      forall tr | IsTrace(impl, tr) ensures IsTrace(spec, tr) {
        var _, _ := ExploredOrPruned(F, spec, impl, tr);
      }
      forall tr, refused | Failure(impl, tr, refused) ensures Failure(spec, tr, refused) {
        var _, _ := ExploredOrPruned(F, spec, impl, tr);
        assert !Fault(F, spec, impl, RefusalMismatch, tr);
        RefusalSetsMatch(spec, impl, tr);
      }
    }
    if FailuresRefines(spec, impl) {
      forall kind, tr ensures !Fault(F, spec, impl, kind, tr) {
        RefusalSetsMatch(spec, impl, tr);
      }
    }
  }

  // ----------------------------------------- failures and divergences

  lemma PrefixDivergence<S(!new)>(l: Lts<S>, tr: Trace, i: nat)
    requires i <= |tr| && DivergesAfter(l, tr[..i])
    ensures Divergence(l, tr)
  {}

  lemma FaultlessIncludes<S(!new)>(spec: Lts<S>, impl: Lts<S>, us: set<S>, ui: set<S>, tr: Trace, refused: iset<Label>)
    requires Bounded(spec, us) && Bounded(impl, ui) && Faultless(FD, spec, impl)
    ensures Divergence(impl, tr) ==> Divergence(spec, tr)
    ensures Failure(impl, tr, refused) ==> ChaoticFailure(spec, tr, refused)
  {
    if i :| 0 <= i <= |tr| && DivergesAfter(impl, tr[..i]) {
      var v := tr[..i];
      var pruned, j := ExploredOrPruned(FD, spec, impl, v);
      if pruned {
        assert v[..j] == tr[..j];
        CycleIffDivergesAfter(spec, us, tr[..j]);
        PrefixDivergence(spec, tr, j);
      } else {
        assert !Fault(FD, spec, impl, DivergenceMismatch, v);
        CycleIffDivergesAfter(impl, ui, v);
        CycleIffDivergesAfter(spec, us, v);
        PrefixDivergence(spec, tr, i);
      }
    }
    if Failure(impl, tr, refused) {
      var pruned, j := ExploredOrPruned(FD, spec, impl, tr);
      assert tr[..|tr|] == tr;
      if pruned {
        CycleIffDivergesAfter(spec, us, tr[..j]);
        PrefixDivergence(spec, tr, j);
      } else if HasTauCycle(spec, After(spec, tr)) {
        CycleIffDivergesAfter(spec, us, tr);
        PrefixDivergence(spec, tr, |tr|);
      } else {
        assert !Fault(FD, spec, impl, DivergenceMismatch, tr);
        assert !Fault(FD, spec, impl, RefusalMismatch, tr);
        RefusalSetsMatch(spec, impl, tr);
      }
    }
  }

  /** Where the search has come to `tr` and is not pruned there, no prefix of
      `tr` diverges in the specification. */
  lemma UnprunedIsConvergent<S(!new)>(spec: Lts<S>, impl: Lts<S>, us: set<S>, tr: Trace)
    requires Bounded(spec, us)
    requires Explored(FD, spec, impl, tr) && JudgeAt(FD, spec, impl, tr) != Prune
    ensures !Divergence(spec, tr)
  {
    forall i | 0 <= i <= |tr| ensures !DivergesAfter(spec, tr[..i]) {
      CycleIffDivergesAfter(spec, us, tr[..i]);
      if i == |tr| { assert tr[..i] == tr; } else { assert JudgeAt(FD, spec, impl, tr[..i]) == Continue; }
    }
  }

  /** On a finite system a trace that does not diverge leads to a stable state. */
  lemma ConvergentTraceFails<S(!new)>(l: Lts<S>, u: set<S>, tr: Trace)
    requires Bounded(l, u) && IsTrace(l, tr)
    ensures DivergesAfter(l, tr) || Failure(l, tr, iset{})
  {
    AfterTauClosed(l, tr);
    AfterInUniverse(l, u, tr);
    CycleIffDivergesAfter(l, u, tr);
    if !HasTauCycle(l, After(l, tr)) {
      var s :| s in After(l, tr);
      TauCycles.AcyclicHasStable(l, u, After(l, tr), s);
    }
  }

  lemma DivergenceIsLast<S(!new)>(l: Lts<S>, tr: Trace)
    requires tr != [] && Divergence(l, tr) && !Divergence(l, tr[..|tr| - 1])
    ensures IsTrace(l, tr)
  {
    var i :| 0 <= i <= |tr| && DivergesAfter(l, tr[..i]);
    var n := |tr| - 1;
    assert forall k | 0 <= k <= n :: tr[..n][..k] == tr[..k];
    assert tr[..i] == tr;
  }

  lemma InclusionHasNoTraceFault<S(!new)>(spec: Lts<S>, impl: Lts<S>, us: set<S>, ui: set<S>, tr: Trace)
    requires Bounded(spec, us) && Bounded(impl, ui) && FailuresDivergencesRefines(spec, impl)
    ensures !Fault(FD, spec, impl, TraceMismatch, tr)
  {
    if Fault(FD, spec, impl, TraceMismatch, tr) {
      TracesVisible(impl, tr);
      UnprunedIsConvergent(spec, impl, us, tr[..|tr| - 1]);
      ConvergentTraceFails(impl, ui, tr);
      assert tr[..|tr|] == tr;
      if DivergesAfter(impl, tr) { PrefixDivergence(impl, tr, |tr|); }
      assert ChaoticFailure(impl, tr, iset{});
      if Divergence(spec, tr) { DivergenceIsLast(spec, tr); }
    }
  }

  lemma InclusionHasNoRefusalFault<S(!new)>(spec: Lts<S>, impl: Lts<S>, us: set<S>, tr: Trace)
    requires Bounded(spec, us) && FailuresDivergencesRefines(spec, impl)
    ensures !Fault(FD, spec, impl, RefusalMismatch, tr)
  {
    if Fault(FD, spec, impl, RefusalMismatch, tr) {
      TracesVisible(impl, tr);
      UnprunedIsConvergent(spec, impl, us, tr);
      RefusalSetsMatch(spec, impl, tr);
      var refused :| Failure(impl, tr, refused) && !Failure(spec, tr, refused);
      assert ChaoticFailure(impl, tr, refused);
    }
  }

  lemma InclusionHasNoDivergenceFault<S(!new)>(spec: Lts<S>, impl: Lts<S>, us: set<S>, ui: set<S>, tr: Trace)
    requires Bounded(spec, us) && Bounded(impl, ui) && FailuresDivergencesRefines(spec, impl)
    ensures !Fault(FD, spec, impl, DivergenceMismatch, tr)
  {
    if Fault(FD, spec, impl, DivergenceMismatch, tr) {
      TracesVisible(impl, tr);
      UnprunedIsConvergent(spec, impl, us, tr);
      CycleIffDivergesAfter(impl, ui, tr);
      assert tr[..|tr|] == tr;
      PrefixDivergence(impl, tr, |tr|);
    }
  }

  /** The search in model FD, which prunes below divergent specification nodes,
      finds nothing exactly when extension-closed divergences and failures with
      chaos after divergence are included. */
  lemma FailuresDivergencesExact<S(!new)>(spec: Lts<S>, impl: Lts<S>, us: set<S>, ui: set<S>)
    requires Bounded(spec, us) && Bounded(impl, ui)
    ensures Faultless(FD, spec, impl) <==> FailuresDivergencesRefines(spec, impl)
  {
    if Faultless(FD, spec, impl) {
      forall tr, refused | VisibleTrace(tr) && ChaoticFailure(impl, tr, refused)
        ensures ChaoticFailure(spec, tr, refused)
      {
        FaultlessIncludes(spec, impl, us, ui, tr, refused);
      }
      forall tr | VisibleTrace(tr) && Divergence(impl, tr) ensures Divergence(spec, tr) {
        FaultlessIncludes(spec, impl, us, ui, tr, iset{});
      }
    }
    if FailuresDivergencesRefines(spec, impl) {
      forall kind, tr ensures !Fault(FD, spec, impl, kind, tr) {
        match kind {
          case TraceMismatch => InclusionHasNoTraceFault(spec, impl, us, ui, tr);
          case RefusalMismatch => InclusionHasNoRefusalFault(spec, impl, us, tr);
          case DivergenceMismatch => InclusionHasNoDivergenceFault(spec, impl, us, ui, tr);
        }
      }
    }
  }

  lemma Exact<S(!new)>(m: Model, spec: Lts<S>, impl: Lts<S>, us: set<S>, ui: set<S>)
    requires Bounded(spec, us) && Bounded(impl, ui)
    ensures Faultless(m, spec, impl) <==> Refines(m, spec, impl)
  {
    match m
    case T => TracesExact(spec, impl);
    case F => FailuresExact(spec, impl);
    case FD => FailuresDivergencesExact(spec, impl, us, ui);
  }
}
