/** The refinement checker as a whole. */
module RefineCheck {
  import opened Lts
  import opened Refinement
  import opened RefineSearch
  import opened Shortlex
  import Caches
  import Minimize
  import Replay

  /** Passes exactly when the refinement holds in the chosen semantic model. A
      failure is the first fault, and is handed out minimised; in model T that is
      the least trace the specification lacks, and in model F a trace after which it
      lacks a refusal, unless it lacks the trace. The divergence cache answers every
      divergence check by a hit or a miss. */
  method Check<S(==,!new)>(m: Model, spec: Lts<S>, impl: Lts<S>, ghost us: set<S>, ghost ui: set<S>)
    returns (out: Outcome, events: Trace, minimized: bool, checks: nat, hits: nat, misses: nat)
    requires Finite(spec, us) && Finite(impl, ui)
    ensures out.Passes? <==> Refines(m, spec, impl)
    ensures IsOutcome(m, spec, impl, out) && out == OutcomeOf(m, spec, impl)
    ensures out.Fails? ==>
              minimized && Replay.Minimal(m, spec, impl, out.kind, events) && Minimize.Subsequence(events, out.trace)
    ensures out.Fails? && m == T ==>
              events == out.trace && forall tr | IsTrace(impl, tr) && !IsTrace(spec, tr) :: tr == events || ComesFirst(events, tr)
    ensures out.Fails? ==>
              MetFirst(m, spec, impl, out.kind, if out.kind == DivergenceMismatch then Front(out.trace) else out.trace)
    ensures out.Fails? && m != FD ==>
              && IsTrace(impl, events)
              && (IsTrace(spec, events) ==> exists refused :: Failure(impl, events, refused) && !Failure(spec, events, refused))
    ensures hits + misses == checks
  {
    hide Faultless, Refines, Failure, Replay.Minimal, FirstFault, MetFirst, Before, ComesFirst, IsTrace;
    var cache := new Caches.NextClosureCache<S>();
    var div := new Caches.DivergenceCache<S>();
    out, checks := BfsRefinement(m, spec, impl, us, ui, m == FD, cache, div);
    hits, misses, events, minimized := div.hits, div.misses, [], false;
    Exact(m, spec, impl, us, ui);
    if out.Fails? {
      FailsOnFault(m, spec, impl, out);
      OutcomeIsMetFirst(m, spec, impl, out);
      events, minimized := Replay.MinimizeCounterexample(m, spec, impl, us, ui, out.kind, out.trace);
      Replay.MinimizedCounterexample(Problem(m, spec, impl, us, ui), out, events, minimized);
      if m != FD { Replay.MinimizedIsViolation(m, spec, impl, out, events); }
      if m == T {
        ModelTFindsTraces(spec, impl, out);
        forall tr | IsTrace(impl, tr) && !IsTrace(spec, tr) ensures tr == events || ComesFirst(events, tr) {
          Replay.LeastInModelT(spec, impl, events, tr);
          BeforeIsFirst(events, tr);
        }
      }
    }
  }

  lemma OutcomeIsMetFirst<S(!new)>(m: Model, spec: Lts<S>, impl: Lts<S>, out: Outcome)
    requires out.Fails? && IsOutcome(m, spec, impl, out)
    ensures MetFirst(m, spec, impl, out.kind, if out.kind == DivergenceMismatch then Front(out.trace) else out.trace)
  {
    hide FirstFault, MetFirst;
    FirstIsMetFirst(m, spec, impl, out.kind, if out.kind == DivergenceMismatch then Front(out.trace) else out.trace);
  }

  lemma ModelTFindsTraces<S(!new)>(spec: Lts<S>, impl: Lts<S>, out: Outcome)
    requires out.Fails? && IsOutcome(T, spec, impl, out)
    ensures out.kind == TraceMismatch && FirstFault(T, spec, impl, TraceMismatch, out.trace)
  {
    hide Sooner, Explored;
  }
}
