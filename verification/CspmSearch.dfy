/** The search for the steps of a state as the program does it, call by call, with
    a bound on the depth of the calls: it runs out exactly where the program would
    not come back. */
module CspmSearch {
  import opened Options
  import opened CspmCompile
  import opened CspmStep
  import Lts

  /** All expressions in the state are in the table. */
  predicate Tabled(p: Program, s: State) {
    match s
    case Expr(id, _) => id < |p.exprs|
    case Par(_, l, r) => Tabled(p, l) && Tabled(p, r)
    case Hid(_, inner) => Tabled(p, inner)
  }

  /** The state of an expression, if `depth` nested calls are enough to build it. */
  function BuildN(p: Program, id: nat, env: Env, depth: nat): (r: Option<State>)
    requires WellFormed(p) && id < |p.exprs|
    ensures r.Some? ==> Tabled(p, r.value)
    decreases depth
  {
    if depth == 0 then None
    else
      assert ChildrenBelow(p.exprs[id], id);
      match p.exprs[id]
      case NRef(_) => BuildN(p, p.resolved[id], map[], depth - 1)
      case NParallel(l, r, sync) =>
        var left, right := BuildN(p, l, env, depth - 1), BuildN(p, r, env, depth - 1);
        if left.Some? && right.Some? then Some(Par(sync, left.value, right.value)) else None
      case NHide(inner, hidden) =>
        var i := BuildN(p, inner, env, depth - 1);
        if i.Some? then Some(MakeHide(hidden, i.value)) else None
      case _ => Some(Expr(id, env))
  }

  /** The steps after a prefix, one for each way its event can happen. */
  function PrefixStepsN(p: Program, next: nat, outcomes: seq<(Label, Env)>, depth: nat): Option<Steps>
    requires WellFormed(p) && next < |p.exprs|
  {
    if outcomes == [] then Some([])
    else
      var t, rest := BuildN(p, next, outcomes[0].1, depth), PrefixStepsN(p, next, outcomes[1..], depth);
      if t.Some? && rest.Some? then Some([(outcomes[0].0, t.value)] + rest.value) else None
  }

  /** The steps of a state, if `depth` nested calls are enough to find them. */
  function SearchN(p: Program, s: State, depth: nat): Option<Steps>
    requires WellFormed(p) && Tabled(p, s)
    decreases depth
  {
    if depth == 0 then None
    else
      var n := depth - 1;
      match s
      case Par(sync, l, r) =>
        var lefts, rights := SearchN(p, l, n), SearchN(p, r, n);
        if lefts.Some? && rights.Some? then Some(ParSteps(sync, l, r, lefts.value, rights.value)) else None
      case Hid(hidden, inner) =>
        var inners := SearchN(p, inner, n);
        if inners.Some? then Some(HideSteps(hidden, inners.value)) else None
      case Expr(id, env) =>
        assert ChildrenBelow(p.exprs[id], id);
        match p.exprs[id]
        case NStop => Some([])
        case NRef(_) =>
          var t := BuildN(p, p.resolved[id], map[], n);
          if t.Some? then SearchN(p, t.value, n) else None
        case NPrefix(e, next) => PrefixStepsN(p, next, EvalEvent(p.channels, e, env), n)
        case NExternal(l, r) =>
          var left, right := BuildN(p, l, env, n), BuildN(p, r, env, n);
          if left.None? || right.None? then None
          else
            var lefts, rights := SearchN(p, left.value, n), SearchN(p, right.value, n);
            if lefts.Some? && rights.Some? then Some(lefts.value + rights.value) else None
        case NInternal(l, r) =>
          var left, right := BuildN(p, l, env, n), BuildN(p, r, env, n);
          if left.Some? && right.Some? then Some([(Lts.TAU, left.value), (Lts.TAU, right.value)]) else None
        case NParallel(l, r, sync) =>
          var left, right := BuildN(p, l, env, n), BuildN(p, r, env, n);
          if left.Some? && right.Some? then SearchN(p, Par(sync, left.value, right.value), n) else None
        case NHide(inner, hidden) =>
          var i := BuildN(p, inner, env, n);
          if i.Some? then SearchN(p, Hid(hidden, i.value), n) else None
  }

  /** The search for the steps of the state comes back. */
  ghost predicate ComesBack(p: Program, s: State)
    requires WellFormed(p)
  {
    Tabled(p, s) && exists depth: nat :: SearchN(p, s, depth).Some?
  }

  // --------------------------------------------- guarded searches come back

  lemma {:induction false} ValidIsTabled(p: Program, s: State)
    requires ValidState(p, s)
    ensures Tabled(p, s)
  {
    match s
    case Expr(_, _) =>
    case Par(_, l, r) => ValidIsTabled(p, l); ValidIsTabled(p, r);
    case Hid(_, inner) => ValidIsTabled(p, inner);
  }

  lemma {:induction false} BuildEnds(p: Program, id: nat, env: Env, depth: nat)
    requires Guarded(p) && IsLive(p, id) && depth > WeightOf(p, id)
    ensures BuildN(p, id, env, depth) == Some(StateFromExpr(p, id, env))
    decreases WeightOf(p, id)
  {
    WeightDrops(p, id);
    match p.exprs[id]
    case NRef(_) => BuildEnds(p, p.resolved[id], map[], depth - 1);
    case NParallel(l, r, _) => BuildEnds(p, l, env, depth - 1); BuildEnds(p, r, env, depth - 1);
    case NHide(inner, _) => BuildEnds(p, inner, env, depth - 1);
    case _ =>
  }

  /** More than the weight of any expression. */
  ghost function Heaviest(w: seq<nat>): nat {
    if w == [] then 0 else Heaviest(w[1..]) + w[0] + 1
  }

  lemma {:induction false} BelowHeaviest(w: seq<nat>, id: nat)
    requires id < |w|
    ensures w[id] < Heaviest(w)
  {
    if id > 0 { BelowHeaviest(w[1..], id - 1); }
  }

  lemma {:induction false} PrefixStepsEnd(p: Program, next: nat, outcomes: seq<(Label, Env)>, depth: nat)
    requires Guarded(p) && IsLive(p, next) && depth > WeightOf(p, next)
    ensures PrefixStepsN(p, next, outcomes, depth) == Some(PrefixSteps(p, next, outcomes))
  {
    if outcomes != [] {
      BuildEnds(p, next, outcomes[0].1, depth);
      PrefixStepsEnd(p, next, outcomes[1..], depth);
    }
  }

  /** In a guarded program the search of every state comes back, with its steps. */
  lemma {:induction false} SearchEnds(p: Program, s: State, depth: nat)
    requires Guarded(p) && ValidState(p, s) && depth > StateWeight(p, s) + Heaviest(WeightsOf(p))
    ensures Tabled(p, s) && SearchN(p, s, depth) == Some(Transitions(p, s))
    decreases StateWeight(p, s), 1
  {
    hide Live, ParSteps, HideSteps, Heaviest, Weights, EvalEvent, MakeHide, BuildN, PrefixStepsN, StateFromExpr, WellFormed, WeightOf;
    ValidIsTabled(p, s);
    match s {
      case Par(sync, l, r) =>
        SearchEnds(p, l, depth - 1);
        SearchEnds(p, r, depth - 1);
      case Hid(hidden, inner) =>
        SearchEnds(p, inner, depth - 1);
      case Expr(id, env) =>
        ExprSearchEnds(p, id, env, depth);
    }
  }

  lemma {:induction false} ExprSearchEnds(p: Program, id: nat, env: Env, depth: nat)
    requires Guarded(p) && IsLive(p, id) && depth > WeightOf(p, id) + Heaviest(WeightsOf(p))
    ensures SearchN(p, Expr(id, env), depth) == Some(Transitions(p, Expr(id, env)))
    decreases WeightOf(p, id), 0
  {
    WeightDrops(p, id);
    hide EvalEvent, Live, ParSteps, HideSteps, MakeHide, Weights, WellFormed;
    var n := depth - 1;
    match p.exprs[id] {
      case NStop =>
      case NRef(_) =>
        BuiltSearchEnds(p, p.resolved[id], map[], n);
      case NPrefix(e, next) =>
        BelowHeaviest(WeightsOf(p), next);
        PrefixStepsEnd(p, next, EvalEvent(p.channels, e, env), n);
      case NExternal(l, r) =>
        BuiltSearchEnds(p, l, env, n);
        BuiltSearchEnds(p, r, env, n);
      case NInternal(l, r) =>
        BelowHeaviest(WeightsOf(p), l);
        BelowHeaviest(WeightsOf(p), r);
        BuildEnds(p, l, env, n);
        BuildEnds(p, r, env, n);
      case NParallel(l, r, sync) =>
        BuildEnds(p, l, env, n);
        BuildEnds(p, r, env, n);
        SearchEnds(p, Par(sync, StateFromExpr(p, l, env), StateFromExpr(p, r, env)), n);
      case NHide(inner, hidden) =>
        BuildEnds(p, inner, env, n);
        SearchEnds(p, Hid(hidden, StateFromExpr(p, inner, env)), n);
    }
  }

  lemma {:induction false} BuiltSearchEnds(p: Program, id: nat, env: Env, depth: nat)
    requires Guarded(p) && IsLive(p, id) && depth > WeightOf(p, id) + Heaviest(WeightsOf(p))
    ensures BuildN(p, id, env, depth) == Some(StateFromExpr(p, id, env))
    ensures Tabled(p, StateFromExpr(p, id, env))
    ensures SearchN(p, StateFromExpr(p, id, env), depth) == Some(Transitions(p, StateFromExpr(p, id, env)))
    decreases WeightOf(p, id), 2
  {
    BuildEnds(p, id, env, depth);
    SearchEnds(p, StateFromExpr(p, id, env), depth);
  }

  // ----------------------------------------------- endless searches do not

  /** The expressions that the search for the steps of an expression goes on to. */
  function Needs(p: Program, id: nat): set<nat> {
    if id >= |p.exprs| || id >= |p.resolved| then {}
    else
      match p.exprs[id]
      case NRef(_) => {p.resolved[id]}
      case NExternal(l, r) => {l, r}
      case NParallel(l, r, _) => {l, r}
      case NHide(inner, _) => {inner}
      case _ => {}
  }

  ghost predicate NeedsAnother(p: Program, t: set<nat>, id: nat) {
    id < |p.exprs| == |p.resolved| && exists c :: c in Needs(p, id) && c in t
  }

  /** Expressions among which the search can go on forever. */
  ghost predicate Endless(p: Program, t: set<nat>) {
    t != {} && forall id {:trigger NeedsAnother(p, t, id)} | id in t :: NeedsAnother(p, t, id)
  }

  /** The steps of the state are searched for through one of the expressions. */
  ghost predicate Stuck(t: set<nat>, s: State) {
    match s
    case Expr(id, _) => id in t
    case Par(_, l, r) => Stuck(t, l) || Stuck(t, r)
    case Hid(_, inner) => Stuck(t, inner)
  }

  lemma {:induction false} BuildsStuck(p: Program, t: set<nat>, id: nat, env: Env, depth: nat)
    requires WellFormed(p) && Endless(p, t) && id in t && id < |p.exprs| && BuildN(p, id, env, depth).Some?
    ensures Stuck(t, BuildN(p, id, env, depth).value)
    decreases depth
  {
    assert NeedsAnother(p, t, id) && ChildrenBelow(p.exprs[id], id);
    match p.exprs[id]
    case NRef(_) => BuildsStuck(p, t, p.resolved[id], map[], depth - 1);
    case NParallel(l, r, _) =>
      if l in t { BuildsStuck(p, t, l, env, depth - 1); } else { BuildsStuck(p, t, r, env, depth - 1); }
    case NHide(inner, _) => BuildsStuck(p, t, inner, env, depth - 1);
    case _ =>
  }

  /** From an expression of an endless set the search never comes back. */
  lemma {:induction false} StuckForever(p: Program, t: set<nat>, s: State, depth: nat)
    requires WellFormed(p) && Endless(p, t) && Tabled(p, s) && Stuck(t, s)
    ensures SearchN(p, s, depth).None?
    decreases depth, 1
  {
    if depth > 0 {
      match s {
        case Par(_, l, r) =>
          if Stuck(t, l) { StuckForever(p, t, l, depth - 1); } else { StuckForever(p, t, r, depth - 1); }
        case Hid(_, inner) =>
          StuckForever(p, t, inner, depth - 1);
        case Expr(id, env) =>
          ExprStuckForever(p, t, id, env, depth);
      }
    }
  }

  /** The search through a state built for an expression of the set does not come back either. */
  lemma {:induction false} BuiltStuckForever(p: Program, t: set<nat>, id: nat, env: Env, depth: nat)
    requires WellFormed(p) && Endless(p, t) && id in t && id < |p.exprs|
    ensures var s := BuildN(p, id, env, depth); s.Some? ==> Stuck(t, s.value) && SearchN(p, s.value, depth).None?
    decreases depth, 2
  {
    if BuildN(p, id, env, depth).Some? {
      BuildsStuck(p, t, id, env, depth);
      StuckForever(p, t, BuildN(p, id, env, depth).value, depth);
    }
  }

  lemma {:induction false} ExprStuckForever(p: Program, t: set<nat>, id: nat, env: Env, depth: nat)
    requires WellFormed(p) && Endless(p, t) && id in t && id < |p.exprs| && depth > 0
    ensures SearchN(p, Expr(id, env), depth).None?
    decreases depth, 0
  {
    hide EvalEvent;
    assert NeedsAnother(p, t, id) && ChildrenBelow(p.exprs[id], id);
    hide Endless;
    var n := depth - 1;
    match p.exprs[id] {
      case NRef(_) =>
        BuiltStuckForever(p, t, p.resolved[id], map[], n);
      case NExternal(l, r) =>
        if l in t { BuiltStuckForever(p, t, l, env, n); } else { BuiltStuckForever(p, t, r, env, n); }
      case NParallel(l, r, sync) =>
        if l in t { BuiltStuckForever(p, t, l, env, n); } else { BuiltStuckForever(p, t, r, env, n); }
        var left, right := BuildN(p, l, env, n), BuildN(p, r, env, n);
        if left.Some? && right.Some? { StuckForever(p, t, Par(sync, left.value, right.value), n); }
      case NHide(inner, hidden) =>
        BuiltStuckForever(p, t, inner, env, n);
        var i := BuildN(p, inner, env, n);
        if i.Some? { StuckForever(p, t, Hid(hidden, i.value), n); }
      case _ =>
    }
  }

  // ------------------------------------------ more depth changes no answer

  lemma {:induction false} BuildMore(p: Program, id: nat, env: Env, depth: nat, more: nat)
    requires WellFormed(p) && id < |p.exprs| && depth <= more && BuildN(p, id, env, depth).Some?
    ensures BuildN(p, id, env, more) == BuildN(p, id, env, depth)
    decreases depth
  {
    assert ChildrenBelow(p.exprs[id], id);
    match p.exprs[id]
    case NRef(_) => BuildMore(p, p.resolved[id], map[], depth - 1, more - 1);
    case NParallel(l, r, _) => BuildMore(p, l, env, depth - 1, more - 1); BuildMore(p, r, env, depth - 1, more - 1);
    case NHide(inner, _) => BuildMore(p, inner, env, depth - 1, more - 1);
    case _ =>
  }

  lemma {:induction false} PrefixStepsMore(p: Program, next: nat, outcomes: seq<(Label, Env)>, depth: nat, more: nat)
    requires WellFormed(p) && next < |p.exprs| && depth <= more && PrefixStepsN(p, next, outcomes, depth).Some?
    ensures PrefixStepsN(p, next, outcomes, more) == PrefixStepsN(p, next, outcomes, depth)
  {
    hide WellFormed;
    if outcomes != [] {
      BuildMore(p, next, outcomes[0].1, depth, more);
      PrefixStepsMore(p, next, outcomes[1..], depth, more);
    }
  }

  lemma {:induction false} SearchMore(p: Program, s: State, depth: nat, more: nat)
    requires WellFormed(p) && Tabled(p, s) && depth <= more && SearchN(p, s, depth).Some?
    ensures SearchN(p, s, more) == SearchN(p, s, depth)
    decreases depth, 1
  {
    match s {
      case Par(_, l, r) =>
        SearchMore(p, l, depth - 1, more - 1);
        SearchMore(p, r, depth - 1, more - 1);
      case Hid(_, inner) =>
        SearchMore(p, inner, depth - 1, more - 1);
      case Expr(id, env) =>
        ExprSearchMore(p, id, env, depth, more);
    }
  }

  lemma {:induction false} ExprSearchMore(p: Program, id: nat, env: Env, depth: nat, more: nat)
    requires WellFormed(p) && id < |p.exprs| && depth <= more && SearchN(p, Expr(id, env), depth).Some?
    ensures SearchN(p, Expr(id, env), more) == SearchN(p, Expr(id, env), depth)
    decreases depth, 0
  {
    hide EvalEvent;
    assert ChildrenBelow(p.exprs[id], id);
    var n, k := depth - 1, more - 1;
    match p.exprs[id] {
      case NStop =>
      case NRef(_) =>
        BuildMore(p, p.resolved[id], map[], n, k);
        SearchMore(p, BuildN(p, p.resolved[id], map[], n).value, n, k);
      case NPrefix(e, next) =>
        PrefixStepsMore(p, next, EvalEvent(p.channels, e, env), n, k);
      case NExternal(l, r) =>
        BuildMore(p, l, env, n, k);
        BuildMore(p, r, env, n, k);
        SearchMore(p, BuildN(p, l, env, n).value, n, k);
        SearchMore(p, BuildN(p, r, env, n).value, n, k);
      case NInternal(l, r) =>
        BuildMore(p, l, env, n, k);
        BuildMore(p, r, env, n, k);
      case NParallel(l, r, sync) =>
        BuildMore(p, l, env, n, k);
        BuildMore(p, r, env, n, k);
        SearchMore(p, Par(sync, BuildN(p, l, env, n).value, BuildN(p, r, env, n).value), n, k);
      case NHide(inner, hidden) =>
        BuildMore(p, inner, env, n, k);
        SearchMore(p, Hid(hidden, BuildN(p, inner, env, n).value), n, k);
    }
  }

  // ------------------------------------------------- the program as it runs

  function Answer(p: Program, s: State, depth: nat): Steps
    requires WellFormed(p)
  {
    if Tabled(p, s) && SearchN(p, s, depth).Some? then SearchN(p, s, depth).value else []
  }

  /** The program as a transition system, for a given codec and depth of calls. */
  function Searched(p: Program, enc: State -> Lts.Bytes, depth: nat): Lts.Lts<State>
    requires WellFormed(p) && BuildN(p, p.initial, map[], depth).Some?
  {
    Lts.Lts(BuildN(p, p.initial, map[], depth).value, s => Answer(p, s, depth), enc)
  }

  ghost predicate Answers(p: Program, u: set<State>, depth: nat, s: State)
    requires WellFormed(p)
  {
    Tabled(p, s) && SearchN(p, s, depth).Some? && forall e | e in SearchN(p, s, depth).value :: e.1 in u
  }

  /** The set holds the start of the program and all steps of its members, and in it
      no search needs more than `depth` nested calls. */
  ghost predicate HoldsRuns(p: Program, u: set<State>, depth: nat) {
    && WellFormed(p)
    && BuildN(p, p.initial, map[], depth).Some? && BuildN(p, p.initial, map[], depth).value in u
    && forall s | s in u :: Answers(p, u, depth, s)
  }

  lemma HoldingRunsBounds(p: Program, enc: State -> Lts.Bytes, u: set<State>, depth: nat)
    requires HoldsRuns(p, u, depth)
    ensures Lts.Bounded(Searched(p, enc, depth), u)
  {
    hide SearchN, BuildN;
    var l := Searched(p, enc, depth);
    forall s, e | s in u && e in l.next(s) ensures e.1 in u { assert Answers(p, u, depth, s); }
  }

  /** With more depth the program runs the same. */
  lemma MoreDepthRunsTheSame(p: Program, enc: State -> Lts.Bytes, u: set<State>, depth: nat, more: nat)
    requires HoldsRuns(p, u, depth) && depth <= more
    ensures HoldsRuns(p, u, more) && Searched(p, enc, more).init == Searched(p, enc, depth).init
    ensures forall s | s in u :: Searched(p, enc, more).next(s) == Searched(p, enc, depth).next(s)
  {
    BuildMore(p, p.initial, map[], depth, more);
    hide BuildN, SearchN;
    forall s | s in u ensures Answers(p, u, more, s) && Answer(p, s, more) == Answer(p, s, depth) {
      assert Answers(p, u, depth, s);
      SearchMore(p, s, depth, more);
    }
  }

  ghost predicate AnswersWithin(p: Program, w: set<State>, depth: nat)
    requires WellFormed(p)
  {
    forall s | s in w :: Tabled(p, s) && SearchN(p, s, depth).Some?
  }

  /** One depth is enough for finitely many searches that come back. */
  lemma {:induction false} DepthForAll(p: Program, w: set<State>) returns (depth: nat)
    requires WellFormed(p) && forall s | s in w :: ComesBack(p, s)
    ensures AnswersWithin(p, w, depth)
  {
    hide SearchN, Tabled, WellFormed;
    depth := 0;
    if s :| s in w {
      var rest := w - {s};
      var k := DepthForAll(p, rest);
      assert ComesBack(p, s);
      var n: nat :| SearchN(p, s, n).Some?;
      depth := k + n;
      SearchMore(p, s, n, depth);
      forall t | t in w ensures Tabled(p, t) && SearchN(p, t, depth).Some? {
        if t != s { assert t in rest; SearchMore(p, t, k, depth); }
      }
    }
  }
}
