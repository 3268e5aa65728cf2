/** Merging nested hiding does not change behaviour. */
module CspmHide {
  import opened CspmStep
  import Lts

  // -------------------------------------------- the semantics without merging

  /** The state of an expression with every hiding kept as written. */
  function PlainFromExpr(p: Program, id: nat, env: Env): (s: State)
    requires Guarded(p) && IsLive(p, id)
    ensures ValidState(p, s) && StateWeight(p, s) <= WeightOf(p, id)
    decreases WeightOf(p, id)
  {
    WeightDrops(p, id);
    match p.exprs[id]
    case NRef(_) => PlainFromExpr(p, p.resolved[id], map[])
    case NParallel(l, r, sync) => Par(sync, PlainFromExpr(p, l, env), PlainFromExpr(p, r, env))
    case NHide(inner, hidden) => Hid(hidden, PlainFromExpr(p, inner, env))
    case _ => Expr(id, env)
  }

  function PlainHideSteps(hidden: set<string>, inners: Steps): Steps {
    if inners == [] then []
    else [(Relabel(hidden, inners[0].0), Hid(hidden, inners[0].1))] + PlainHideSteps(hidden, inners[1..])
  }

  function PlainPrefixSteps(p: Program, next: nat, outcomes: seq<(Label, Env)>): Steps
    requires Guarded(p) && IsLive(p, next)
  {
    if outcomes == [] then []
    else [(outcomes[0].0, PlainFromExpr(p, next, outcomes[0].1))] + PlainPrefixSteps(p, next, outcomes[1..])
  }

  function PlainTransitions(p: Program, s: State): Steps
    requires Guarded(p) && ValidState(p, s)
    decreases StateWeight(p, s)
  {
    match s
    case Par(sync, l, r) => ParSteps(sync, l, r, PlainTransitions(p, l), PlainTransitions(p, r))
    case Hid(hidden, inner) => PlainHideSteps(hidden, PlainTransitions(p, inner))
    case Expr(id, env) =>
      WeightDrops(p, id);
      match p.exprs[id]
      case NStop => []
      case NRef(_) => PlainTransitions(p, PlainFromExpr(p, p.resolved[id], map[]))
      case NPrefix(e, next) => PlainPrefixSteps(p, next, EvalEvent(p.channels, e, env))
      case NExternal(l, r) => PlainTransitions(p, PlainFromExpr(p, l, env)) + PlainTransitions(p, PlainFromExpr(p, r, env))
      case NInternal(l, r) => [(Lts.TAU, PlainFromExpr(p, l, env)), (Lts.TAU, PlainFromExpr(p, r, env))]
      case NParallel(l, r, sync) => PlainTransitions(p, Par(sync, PlainFromExpr(p, l, env), PlainFromExpr(p, r, env)))
      case NHide(inner, hidden) => PlainTransitions(p, Hid(hidden, PlainFromExpr(p, inner, env)))
  }

  // ----------------------------------------------------------- normal forms

  function Norm(s: State): State {
    match s
    case Expr(_, _) => s
    case Par(sync, l, r) => Par(sync, Norm(l), Norm(r))
    case Hid(hidden, inner) => MakeHide(hidden, Norm(inner))
  }

  function NormSteps(steps: Steps): Steps {
    if steps == [] then [] else [(steps[0].0, Norm(steps[0].1))] + NormSteps(steps[1..])
  }

  /** No empty hiding, and no hiding directly inside hiding. */
  predicate Normal(s: State) {
    match s
    case Expr(_, _) => true
    case Par(_, l, r) => Normal(l) && Normal(r)
    case Hid(hidden, inner) => hidden != {} && !inner.Hid? && Normal(inner)
  }

  /** No expression of the program stands at a node that a state unfolds. */
  ghost predicate Unfolded(p: Program, s: State) {
    match s
    case Expr(id, _) => IsLive(p, id) && !p.exprs[id].NRef? && !p.exprs[id].NParallel? && !p.exprs[id].NHide?
    case Par(_, l, r) => Unfolded(p, l) && Unfolded(p, r)
    case Hid(_, inner) => Unfolded(p, inner)
  }

  lemma MakeHideNormal(p: Program, hidden: set<string>, s: State)
    ensures Normal(s) ==> Normal(MakeHide(hidden, s))
    ensures Unfolded(p, s) ==> Unfolded(p, MakeHide(hidden, s))
    ensures ValidState(p, s) ==> ValidState(p, MakeHide(hidden, s))
  {}

  lemma {:induction false} NormIsNormal(p: Program, s: State)
    ensures Normal(Norm(s))
    ensures ValidState(p, s) ==> ValidState(p, Norm(s))
  {
    match s
    case Expr(_, _) =>
    case Par(_, l, r) => NormIsNormal(p, l); NormIsNormal(p, r);
    case Hid(hidden, inner) => NormIsNormal(p, inner); MakeHideNormal(p, hidden, Norm(inner));
  }

  lemma {:induction false} FromExprIsNorm(p: Program, id: nat, env: Env)
    requires Guarded(p) && IsLive(p, id)
    ensures StateFromExpr(p, id, env) == Norm(PlainFromExpr(p, id, env))
    ensures Unfolded(p, StateFromExpr(p, id, env))
    decreases WeightOf(p, id)
  {
    WeightDrops(p, id);
    match p.exprs[id]
    case NRef(_) => FromExprIsNorm(p, p.resolved[id], map[]);
    case NParallel(l, r, _) => FromExprIsNorm(p, l, env); FromExprIsNorm(p, r, env);
    case NHide(inner, hidden) =>
      FromExprIsNorm(p, inner, env);
      MakeHideNormal(p, hidden, StateFromExpr(p, inner, env));
    case _ =>
  }

  // ---------------------------------------------------------- bisimulation

  lemma NormAppend(a: Steps, b: Steps)
    ensures NormSteps(a + b) == NormSteps(a) + NormSteps(b)
  {
    if a == [] {
      assert a + b == b;
    } else {
      NormAppend(a[1..], b);
      assert (a + b)[1..] == a[1..] + b;
    }
  }

  lemma {:induction false} NormSyncWith(sync: set<string>, a: Label, left: State, rights: Steps)
    ensures NormSteps(SyncWith(sync, a, left, rights)) == SyncWith(sync, a, Norm(left), NormSteps(rights))
  {
    if rights != [] {
      NormSyncWith(sync, a, left, rights[1..]);
      var one: Steps := if rights[0].0 == a then [(a, Par(sync, left, rights[0].1))] else [];
      NormAppend(one, SyncWith(sync, a, left, rights[1..]));
      assert NormSteps(rights)[1..] == NormSteps(rights[1..]);
    }
  }

  lemma {:induction false} NormLeftSteps(sync: set<string>, right: State, lefts: Steps, rights: Steps)
    ensures NormSteps(LeftSteps(sync, right, lefts, rights)) == LeftSteps(sync, Norm(right), NormSteps(lefts), NormSteps(rights))
  {
    if lefts != [] {
      var (a, l) := lefts[0];
      NormLeftSteps(sync, right, lefts[1..], rights);
      NormSyncWith(sync, a, l, rights);
      var first := if IsSync(sync, a) then SyncWith(sync, a, l, rights) else [(a, Par(sync, l, right))];
      NormAppend(first, LeftSteps(sync, right, lefts[1..], rights));
      assert NormSteps(lefts)[1..] == NormSteps(lefts[1..]);
    }
  }

  lemma {:induction false} NormRightSteps(sync: set<string>, left: State, rights: Steps)
    ensures NormSteps(RightSteps(sync, left, rights)) == RightSteps(sync, Norm(left), NormSteps(rights))
  {
    if rights != [] {
      var (a, r) := rights[0];
      NormRightSteps(sync, left, rights[1..]);
      var one: Steps := if IsSync(sync, a) then [] else [(a, Par(sync, left, r))];
      NormAppend(one, RightSteps(sync, left, rights[1..]));
      assert NormSteps(rights)[1..] == NormSteps(rights[1..]);
    }
  }

  lemma {:induction false} NormHideSteps(hidden: set<string>, inners: Steps)
    ensures NormSteps(PlainHideSteps(hidden, inners)) == HideSteps(hidden, NormSteps(inners))
  {
    if inners != [] {
      NormHideSteps(hidden, inners[1..]);
      assert PlainHideSteps(hidden, inners)[1..] == PlainHideSteps(hidden, inners[1..]);
      assert NormSteps(inners)[1..] == NormSteps(inners[1..]);
    }
  }

  lemma {:induction false} NormPrefixSteps(p: Program, next: nat, outcomes: seq<(Label, Env)>)
    requires Guarded(p) && IsLive(p, next)
    ensures NormSteps(PlainPrefixSteps(p, next, outcomes)) == PrefixSteps(p, next, outcomes)
  {
    if outcomes != [] {
      NormPrefixSteps(p, next, outcomes[1..]);
      FromExprIsNorm(p, next, outcomes[0].1);
      assert PlainPrefixSteps(p, next, outcomes)[1..] == PlainPrefixSteps(p, next, outcomes[1..]);
    }
  }

  lemma MakeHideTwice(h1: set<string>, h2: set<string>, s: State)
    requires h1 != {}
    ensures MakeHide(h1, MakeHide(h2, s)) == MakeHide(h1 + h2, s)
  {
    match s
    case Hid(h3, _) => assert h1 + (h2 + h3) == (h1 + h2) + h3; assert h1 + {} == h1;
    case _ => assert h1 + {} == h1;
  }

  lemma {:induction false} HideStepsTwice(h1: set<string>, h2: set<string>, inners: Steps)
    requires h1 != {}
    ensures HideSteps(h1, HideSteps(h2, inners)) == HideSteps(h1 + h2, inners)
  {
    if inners != [] {
      HideStepsTwice(h1, h2, inners[1..]);
      MakeHideTwice(h1, h2, inners[0].1);
      assert HideSteps(h2, inners)[1..] == HideSteps(h2, inners[1..]);
    }
  }

  lemma {:induction false} HideNothing(inners: Steps)
    ensures HideSteps({}, inners) == inners
  {
    if inners != [] { HideNothing(inners[1..]); }
  }

  /** The steps of a merged hiding are the steps of the hiding as written. */
  lemma MakeHideTransitions(p: Program, hidden: set<string>, s: State)
    requires Guarded(p) && ValidState(p, s)
    ensures ValidState(p, MakeHide(hidden, s))
    ensures Transitions(p, MakeHide(hidden, s)) == HideSteps(hidden, Transitions(p, s))
  {
    MakeHideNormal(p, hidden, s);
    if hidden == {} {
      HideNothing(Transitions(p, s));
    } else if s.Hid? {
      HideStepsTwice(hidden, s.hidden, Transitions(p, s.inner));
    }
  }

  /** Normalisation is a strong bisimulation, step for step and in the same order:
      the steps of the normal form are the normal forms of the plain steps. */
  lemma {:induction false} NormBisimulation(p: Program, s: State)
    requires Guarded(p) && ValidState(p, s)
    ensures ValidState(p, Norm(s)) && Transitions(p, Norm(s)) == NormSteps(PlainTransitions(p, s))
    decreases StateWeight(p, s)
  {
    NormIsNormal(p, s);
    match s {
      case Par(sync, l, r) =>
        NormBisimulation(p, l);
        NormBisimulation(p, r);
        var ls, rs := PlainTransitions(p, l), PlainTransitions(p, r);
        NormLeftSteps(sync, r, ls, rs);
        NormRightSteps(sync, l, rs);
        NormAppend(LeftSteps(sync, r, ls, rs), RightSteps(sync, l, rs));
      case Hid(hidden, inner) =>
        NormBisimulation(p, inner);
        MakeHideTransitions(p, hidden, Norm(inner));
        NormHideSteps(hidden, PlainTransitions(p, inner));
      case Expr(id, env) =>
        NormExprBisimulation(p, id, env);
    }
  }

  lemma {:induction false} NormExprBisimulation(p: Program, id: nat, env: Env)
    requires Guarded(p) && IsLive(p, id)
    ensures Transitions(p, Expr(id, env)) == NormSteps(PlainTransitions(p, Expr(id, env)))
    decreases WeightOf(p, id), 0
  {
    WeightDrops(p, id);
    match p.exprs[id] {
      case NStop =>
      case NRef(_) =>
        FromExprIsNorm(p, p.resolved[id], map[]);
        NormBisimulation(p, PlainFromExpr(p, p.resolved[id], map[]));
      case NPrefix(e, next) =>
        NormPrefixSteps(p, next, EvalEvent(p.channels, e, env));
      case NExternal(l, r) =>
        var pl, pr := PlainFromExpr(p, l, env), PlainFromExpr(p, r, env);
        FromExprIsNorm(p, l, env);
        FromExprIsNorm(p, r, env);
        NormBisimulation(p, pl);
        NormBisimulation(p, pr);
        NormAppend(PlainTransitions(p, pl), PlainTransitions(p, pr));
      case NInternal(l, r) =>
        FromExprIsNorm(p, l, env);
        FromExprIsNorm(p, r, env);
        var x: Steps, y: Steps := [(Lts.TAU, PlainFromExpr(p, l, env))], [(Lts.TAU, PlainFromExpr(p, r, env))];
        NormAppend(x, y);
        assert PlainTransitions(p, Expr(id, env)) == x + y;
      case NParallel(l, r, sync) =>
        FromExprIsNorm(p, l, env);
        FromExprIsNorm(p, r, env);
        NormBisimulation(p, Par(sync, PlainFromExpr(p, l, env), PlainFromExpr(p, r, env)));
      case NHide(inner, hidden) =>
        FromExprIsNorm(p, inner, env);
        var q := PlainFromExpr(p, inner, env);
        NormBisimulation(p, Hid(hidden, q));
        MakeHideTransitions(p, hidden, Norm(q));
    }
  }

  ghost predicate NormalState(p: Program, s: State) {
    Normal(s) && Unfolded(p, s) && ValidState(p, s)
  }
}
