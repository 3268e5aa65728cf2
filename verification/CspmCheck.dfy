/** The checkers applied to CSPM modules. */
module CspmCheck {
  import opened Options
  import opened CspmSyntax
  import opened CspmStep
  import opened CspmSearch
  import opened CspmCodec
  import opened CspmEncodable
  import opened CspmProvider
  import opened CspmGuarded
  import opened CspmRecursion
  import opened CspmAssertions
  import opened CspmMeaning
  import DeadlockCheck
  import Determinism
  import DivergenceCheck
  import Lts
  import Minimize
  import RefineCheck
  import RefineSearch
  import Refinement
  import Replay
  import Shortlex

  /** The transition system of a program. */
  function System(p: Program, depth: nat): Lts.Lts<State>
    requires WellFormed(p) && BuildN(p, p.initial, map[], depth).Some?
  {
    Searched(p, Encoding, depth)
  }

  /** The refinement checker on two compiled programs: it passes exactly when the
      refinement holds between their transition systems, and otherwise reports
      events that still fail and from which none can be dropped. */
  method CheckPrograms(m: Refinement.Model, spec: Program, impl: Program, depth: nat,
                       ghost specNames: set<string>, ghost implNames: set<string>, ghost us: set<State>, ghost ui: set<State>)
    returns (out: RefineSearch.Outcome, events: Lts.Trace)
    requires ProgramFits(spec, specNames) && HoldsRuns(spec, us, depth)
    requires ProgramFits(impl, implNames) && HoldsRuns(impl, ui, depth)
    ensures out.Passes? <==> Refinement.Refines(m, System(spec, depth), System(impl, depth))
    ensures out.Fails? ==>
              && Replay.Minimal(m, System(spec, depth), System(impl, depth), out.kind, events)
              && Minimize.Subsequence(events, out.trace)
    ensures out.Fails? && m == Refinement.T ==>
              && !Lts.IsTrace(System(spec, depth), events)
              && forall tr | Lts.IsTrace(System(impl, depth), tr) && !Lts.IsTrace(System(spec, depth), tr) :: tr == events || Shortlex.ComesFirst(events, tr)
    ensures out.Fails? && m != Refinement.FD ==>
              && Lts.IsTrace(System(impl, depth), events)
              && (Lts.IsTrace(System(spec, depth), events) ==>
                    exists refused :: Lts.Failure(System(impl, depth), events, refused) && !Lts.Failure(System(spec, depth), events, refused))
  {
    hide ProgramFits, Refinement.Refines, Replay.Minimal, RefineSearch.IsOutcome, RefineSearch.OutcomeOf, Lts.Finite,
         Lts.IsTrace, Shortlex.AtMost, Minimize.Subsequence, BuildN, SearchN, Encoding;
    ProviderIsFinite(spec, specNames, us, depth);
    ProviderIsFinite(impl, implNames, ui, depth);
    var minimized, checks, hits, misses;
    out, events, minimized, checks, hits, misses :=
      RefineCheck.Check(m, System(spec, depth), System(impl, depth), Within(spec, us, specNames), Within(impl, ui, implNames));
  }

  // ----------------------------------------------------------------- modules

  /** What the checkers rely on: the runs of what the module compiles to stay in a
      finite set of states, and no search goes deeper than `depth` calls. */
  ghost predicate Searchable(m: Module, u: set<State>, depth: nat) {
    Compilable(m) ==> HoldsRuns(ProgramOf(m), u, depth)
  }

  /** The transition system of a module. */
  ghost function SystemOf(m: Module, depth: nat): Lts.Lts<State>
    requires Compilable(m) && BuildN(ProgramOf(m), ProgramOf(m).initial, map[], depth).Some?
  {
    System(ProgramOf(m), depth)
  }

  /** What the checkers rely on holds of every module without processes that need each
      other before their first event, as far as its states are finitely many. */
  lemma GuardedIsSearchable(m: Module, u: set<State>) returns (depth: nat)
    requires Compilable(m) && (forall names :: !EndlessNames(m, names)) && Guarded(ProgramOf(m))
    requires Lts.Bounded(Provider(ProgramOf(m), Encoding), u) && forall s | s in u :: ValidState(ProgramOf(m), s)
    ensures Searchable(m, u, depth)
    ensures SystemOf(m, depth).init == Provider(ProgramOf(m), Encoding).init
    ensures forall s | s in u :: SystemOf(m, depth).next(s) == Provider(ProgramOf(m), Encoding).next(s)
  {
    hide Compilable, EndlessNames, Guarded, BuildN, SearchN, Encoding;
    depth := GuardedHoldsRuns(ProgramOf(m), Encoding, u);
  }

  /** The events are a trace of the one source, and the other lacks it or a refusal after it. */
  ghost predicate ShowsOnSource(spec: Module, impl: Module, events: Lts.Trace) {
    && SourceTrace(impl, events)
    && (SourceTrace(spec, events) ==> exists refused :: SourceFailure(impl, events, refused) && !SourceFailure(spec, events, refused))
  }

  /** The events come first of all traces that the one source has and the other lacks. */
  ghost predicate LeastOnSource(spec: Module, impl: Module, events: Lts.Trace) {
    && SourceTrace(impl, events) && !SourceTrace(spec, events)
    && forall tr | SourceTrace(impl, tr) && !SourceTrace(spec, tr) :: tr == events || Shortlex.ComesFirst(events, tr)
  }

  lemma ShownOnSource(l: Lts.Lts<State>, k: Lts.Lts<State>, spec: Module, impl: Module, events: Lts.Trace)
    requires SameSemantics(l, spec) && SameSemantics(k, impl) && Lts.IsTrace(k, events)
    requires Lts.IsTrace(l, events) ==> exists refused :: Lts.Failure(k, events, refused) && !Lts.Failure(l, events, refused)
    ensures ShowsOnSource(spec, impl, events)
  {
    hide Lts.IsTrace, SourceTrace, Lts.Failure, SourceFailure, Lts.Divergence, SourceDivergence, DeadlockCheck.DeadlockFree, SourceDeadlock,
         DivergenceCheck.ReachableDivergence, SourceDivergent;
    if SourceTrace(spec, events) {
      var refused :| Lts.Failure(k, events, refused) && !Lts.Failure(l, events, refused);
      assert SourceFailure(impl, events, refused) && !SourceFailure(spec, events, refused);
    }
  }

  lemma LeastIsOnSource(l: Lts.Lts<State>, k: Lts.Lts<State>, spec: Module, impl: Module, events: Lts.Trace)
    requires SameSemantics(l, spec) && SameSemantics(k, impl) && Lts.IsTrace(k, events) && !Lts.IsTrace(l, events)
    requires forall tr | Lts.IsTrace(k, tr) && !Lts.IsTrace(l, tr) :: tr == events || Shortlex.ComesFirst(events, tr)
    ensures LeastOnSource(spec, impl, events)
  {
    hide Lts.IsTrace, SourceTrace, Lts.Failure, SourceFailure, Lts.Divergence, SourceDivergence, DeadlockCheck.DeadlockFree, SourceDeadlock,
         DivergenceCheck.ReachableDivergence, SourceDivergent, Shortlex.ComesFirst;
    forall tr | SourceTrace(impl, tr) && !SourceTrace(spec, tr) ensures tr == events || Shortlex.ComesFirst(events, tr) {
      assert Lts.IsTrace(k, tr) && !Lts.IsTrace(l, tr);
    }
  }

  lemma SystemMeansSource(m: Module, u: set<State>, depth: nat)
    requires Searchable(m, u, depth) && Compilable(m)
    ensures BuildN(ProgramOf(m), ProgramOf(m).initial, map[], depth).Some? && SameSemantics(SystemOf(m, depth), m)
  {
    hide Compilable, SameSemantics, BuildN, SearchN, Encoding;
    CompilesFaithfully(m, u, depth, Encoding);
  }

  datatype Verdict = InvalidInput | Pass | Fail(kind: Refinement.FailureKind, events: Lts.Trace)

  /** The refinement checker on two modules: it rejects exactly the modules that do not
      compile and passes exactly when the refinement holds between their sources. Otherwise
      it reports events that still fail and from which none can be dropped: in model T the
      first of all traces that the specification lacks, in model F a trace that it lacks or
      after which it lacks a refusal. */
  method CheckModules(m: Refinement.Model, spec: Module, impl: Module, depth: nat, ghost us: set<State>, ghost ui: set<State>)
    returns (v: Verdict)
    requires Searchable(spec, us, depth) && ModuleFits(spec)
    requires Searchable(impl, ui, depth) && ModuleFits(impl)
    ensures v.InvalidInput? <==> !Compilable(spec) || !Compilable(impl)
    ensures v.Pass? <==>
              Compilable(spec) && Compilable(impl) && Refinement.Refines(m, SystemOf(spec, depth), SystemOf(impl, depth))
    ensures v.Fail? ==> Replay.Minimal(m, SystemOf(spec, depth), SystemOf(impl, depth), v.kind, v.events)
    ensures v.Pass? <==> Compilable(spec) && Compilable(impl) && SourceRefines(m, spec, impl)
    ensures v.Fail? && m == Refinement.T ==> LeastOnSource(spec, impl, v.events)
    ensures v.Fail? && m != Refinement.FD ==> ShowsOnSource(spec, impl, v.events)
  {
    hide SourceRefines, LeastOnSource, ShowsOnSource, SameSemantics, Lts.IsTrace, Lts.Failure, Shortlex.ComesFirst, EntryStands, ProgramFits, ModuleFits, Refinement.Refines, Replay.Minimal, Minimize.Subsequence, BuildN, SearchN, Encoding, Compilable,
         CompilesTo, NamesFit, Expressions;
    var s := FromModule(spec, depth);
    if s.None? {
      return InvalidInput;
    }
    var i := FromModule(impl, depth);
    if i.None? {
      return InvalidInput;
    }
    ghost var specNames, implNames := NamesInAll(Expressions(spec)), NamesInAll(Expressions(impl));
    FittingModule(spec, s.value.program);
    FittingModule(impl, i.value.program);
    var out, events := CheckPrograms(m, s.value.program, i.value.program, depth, specNames, implNames, us, ui);
    v := if out.Passes? then Pass else Fail(out.kind, events);
    SystemMeansSource(spec, us, depth);
    SystemMeansSource(impl, ui, depth);
    RefinesAsSource(m, SystemOf(spec, depth), SystemOf(impl, depth), spec, impl);
    if out.Fails? && m == Refinement.T { LeastIsOnSource(SystemOf(spec, depth), SystemOf(impl, depth), spec, impl, events); }
    if out.Fails? && m != Refinement.FD { ShownOnSource(SystemOf(spec, depth), SystemOf(impl, depth), spec, impl, events); }
  }

  // --------------------------------------------------- assertions of a module

  datatype PropertyVerdict = Invalid | Holds | Violated(events: Lts.Trace)

  function Answered(found: Option<Lts.Trace>): PropertyVerdict {
    if found.None? then Holds else Violated(found.value)
  }

  lemma SourceDeadlockIs(m: Module, u: set<State>, depth: nat)
    requires Searchable(m, u, depth) && Compilable(m)
    ensures BuildN(ProgramOf(m), ProgramOf(m).initial, map[], depth).Some?
    ensures DeadlockCheck.DeadlockFree(SystemOf(m, depth)) <==> !SourceDeadlock(m)
  {
    hide Compilable, BuildN, SearchN, DeadlockCheck.DeadlockFree, SourceDeadlock;
    SystemMeansSource(m, u, depth);
  }

  lemma SourceDivergentIs(m: Module, u: set<State>, depth: nat)
    requires Searchable(m, u, depth) && Compilable(m)
    ensures BuildN(ProgramOf(m), ProgramOf(m).initial, map[], depth).Some?
    ensures DivergenceCheck.ReachableDivergence(SystemOf(m, depth)) <==> SourceDivergent(m)
  {
    hide Compilable, BuildN, SearchN, DivergenceCheck.ReachableDivergence, SourceDivergent;
    SystemMeansSource(m, u, depth);
  }

  /** The deadlock checker on a module, about the process that `ForProperty` selects. */
  method CheckDeadlock(m: Module, depth: nat, ghost u: set<State>) returns (v: PropertyVerdict)
    requires Searchable(ForProperty(m, DeadlockFree), u, depth)
    ensures v.Invalid? <==> !Compilable(ForProperty(m, DeadlockFree))
    ensures v.Holds? <==>
              var c := ForProperty(m, DeadlockFree);
              Compilable(c) && DeadlockCheck.DeadlockFree(SystemOf(c, depth))
    ensures v.Violated? ==> DeadlockCheck.ShortestDeadlock(SystemOf(ForProperty(m, DeadlockFree), depth), v.events)
    ensures v.Holds? <==> var c := ForProperty(m, DeadlockFree); Compilable(c) && !SourceDeadlock(c)
    ensures v.Violated? ==> SourceShortestDeadlock(ForProperty(m, DeadlockFree), v.events)
  {
    hide SourceDeadlock, SourceShortestDeadlock, EntryStands, BuildN, SearchN, Encoding, Compilable, CompilesTo, DeadlockCheck.DeadlockFree, DeadlockCheck.ShortestDeadlock;
    var checked := ModuleForPropertyCheck(m, DeadlockFree);
    var p := FromModule(checked, depth);
    if p.None? {
      return Invalid;
    }
    HoldingRunsBounds(p.value.program, Encoding, u, depth);
    var found := DeadlockCheck.DeadlockFreeCheck(System(p.value.program, depth), u);
    SourceDeadlockIs(checked, u, depth);
    if found.Some? { ShortestOnSource(checked, u, depth, Encoding, found.value); }
    v := Answered(found);
  }

  /** The divergence checker on a module. */
  method CheckDivergence(m: Module, depth: nat, ghost u: set<State>) returns (v: PropertyVerdict)
    requires Searchable(ForProperty(m, DivergenceFree), u, depth)
    ensures v.Invalid? <==> !Compilable(ForProperty(m, DivergenceFree))
    ensures v.Holds? <==>
              var c := ForProperty(m, DivergenceFree);
              Compilable(c) && !DivergenceCheck.ReachableDivergence(SystemOf(c, depth))
    ensures v.Violated? ==>
              && v.events != [] && v.events[|v.events| - 1] == Lts.TAU
              && Lts.DivergesAfter(SystemOf(ForProperty(m, DivergenceFree), depth), v.events[..|v.events| - 1])
              && DivergenceCheck.ShortestLoop(SystemOf(ForProperty(m, DivergenceFree), depth), v.events)
    ensures v.Holds? <==> var c := ForProperty(m, DivergenceFree); Compilable(c) && !SourceDivergent(c)
  {
    hide SourceDivergent, EntryStands, BuildN, SearchN, Encoding, Compilable, CompilesTo, DivergenceCheck.ReachableDivergence, DivergenceCheck.ShortestLoop, Lts.DivergesAfter;
    var checked := ModuleForPropertyCheck(m, DivergenceFree);
    var p := FromModule(checked, depth);
    if p.None? {
      return Invalid;
    }
    HoldingRunsBounds(p.value.program, Encoding, u, depth);
    var found := DivergenceCheck.DivergenceFreeCheck(System(p.value.program, depth), u);
    SourceDivergentIs(checked, u, depth);
    v := Answered(found);
  }

  /** The determinism checker on a module. */
  method CheckDeterminism(m: Module, depth: nat, ghost u: set<State>) returns (v: PropertyVerdict)
    requires Searchable(ForProperty(m, Deterministic), u, depth)
    ensures v.Invalid? <==> !Compilable(ForProperty(m, Deterministic))
    ensures v.Holds? <==>
              var c := ForProperty(m, Deterministic);
              Compilable(c) && Determinism.Deterministic(SystemOf(c, depth))
    ensures v.Violated? ==>
              && v.events != [] && Lts.IsTrace(SystemOf(ForProperty(m, Deterministic), depth), v.events)
              && Determinism.SplitsAfter(SystemOf(ForProperty(m, Deterministic), depth), v.events[..|v.events| - 1], v.events[|v.events| - 1])
              && Determinism.ShortestSplit(SystemOf(ForProperty(m, Deterministic), depth), v.events)
  {
    hide BuildN, SearchN, Encoding, Compilable, CompilesTo, Determinism.Deterministic, Determinism.SplitsAfter, Determinism.ShortestSplit, Lts.IsTrace;
    var checked := ModuleForPropertyCheck(m, Deterministic);
    var p := FromModule(checked, depth);
    if p.None? {
      return Invalid;
    }
    HoldingRunsBounds(p.value.program, Encoding, u, depth);
    var found := Determinism.DeterminismCheck(System(p.value.program, depth), u);
    v := Answered(found);
  }
}
