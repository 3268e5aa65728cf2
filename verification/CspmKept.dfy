/** Conditions on states that every step keeps, whether or not the program is guarded. */
module CspmKept {
  import opened CspmCompile
  import opened CspmStep
  import opened CspmSearch
  import CspmHide
  import Lts

  /** Conditions on expressions with their bindings, on the sets that a state
      synchronises or hides, and on labels. */
  datatype Condition = Condition(on: (nat, Env) -> bool, sets: set<string> -> bool, labels: Label -> bool)

  predicate StaysExpr(n: ExprNode) {
    !n.NRef? && !n.NParallel? && !n.NHide?
  }

  /** The condition holds everywhere in the state, which is in normal form. */
  ghost predicate Good(p: Program, c: Condition, s: State) {
    match s
    case Expr(id, env) => id < |p.exprs| && StaysExpr(p.exprs[id]) && c.on(id, env)
    case Par(sync, l, r) => c.sets(sync) && Good(p, c, l) && Good(p, c, r)
    case Hid(hidden, inner) => c.sets(hidden) && hidden != {} && !inner.Hid? && Good(p, c, inner)
  }

  ghost predicate GoodSteps(p: Program, c: Condition, steps: Steps) {
    forall e | e in steps :: c.labels(e.0) && Good(p, c, e.1)
  }

  ghost predicate GoodOutcomes(p: Program, c: Condition, next: nat, outcomes: seq<(Label, Env)>) {
    next < |p.exprs| && forall o | o in outcomes :: c.labels(o.0) && c.on(next, o.1)
  }

  /** From an expression the condition carries over to the ones it mentions. */
  ghost predicate CarriesOver(p: Program, c: Condition, id: nat, env: Env)
    requires WellFormed(p)
  {
    && id < |p.exprs|
    && match p.exprs[id]
       case NStop => true
       case NRef(_) => c.on(p.resolved[id], map[])
       case NPrefix(e, next) => GoodOutcomes(p, c, next, EvalEvent(p.channels, e, env))
       case NExternal(l, r) => c.on(l, env) && c.on(r, env)
       case NInternal(l, r) => c.on(l, env) && c.on(r, env)
       case NParallel(l, r, sync) => c.sets(sync) && c.on(l, env) && c.on(r, env)
       case NHide(inner, hidden) => c.sets(hidden) && c.on(inner, env)
  }

  ghost predicate Kept(p: Program, c: Condition) {
    && WellFormed(p) && c.labels(Lts.TAU)
    && (forall some, more | c.sets(some) && c.sets(more) :: c.sets(some + more))
    && forall id, env | c.on(id, env) :: CarriesOver(p, c, id, env)
  }

  lemma MakeHideGood(p: Program, c: Condition, hidden: set<string>, s: State)
    requires Kept(p, c) && c.sets(hidden) && Good(p, c, s)
    ensures Good(p, c, MakeHide(hidden, s))
  {
    hide WellFormed, CarriesOver;
  }

  lemma {:induction false} GoodIsTabled(p: Program, c: Condition, s: State)
    requires Good(p, c, s)
    ensures Tabled(p, s)
  {
    match s
    case Expr(_, _) =>
    case Par(_, l, r) => GoodIsTabled(p, c, l); GoodIsTabled(p, c, r);
    case Hid(_, inner) => GoodIsTabled(p, c, inner);
  }

  lemma CarryOver(p: Program, c: Condition, id: nat, env: Env)
    requires Kept(p, c) && c.on(id, env)
    ensures WellFormed(p) && CarriesOver(p, c, id, env) && ChildrenBelow(p.exprs[id], id)
  {}

  lemma {:induction false} BuildKeeps(p: Program, c: Condition, id: nat, env: Env, depth: nat)
    requires Kept(p, c) && c.on(id, env)
    ensures id < |p.exprs| && var s := BuildN(p, id, env, depth); s.Some? ==> Good(p, c, s.value)
    decreases depth
  {
    CarryOver(p, c, id, env);
    hide Kept, WellFormed;
    if depth > 0 {
      match p.exprs[id]
      case NRef(_) => BuildKeeps(p, c, p.resolved[id], map[], depth - 1);
      case NParallel(l, r, _) => BuildKeeps(p, c, l, env, depth - 1); BuildKeeps(p, c, r, env, depth - 1);
      case NHide(inner, hidden) =>
        BuildKeeps(p, c, inner, env, depth - 1);
        var i := BuildN(p, inner, env, depth - 1);
        if i.Some? { MakeHideGood(p, c, hidden, i.value); }
      case _ =>
    }
  }

  lemma {:induction false} SyncWithGood(p: Program, c: Condition, sync: set<string>, a: Label, left: State, rights: Steps)
    requires c.sets(sync) && c.labels(a) && Good(p, c, left) && GoodSteps(p, c, rights)
    ensures GoodSteps(p, c, SyncWith(sync, a, left, rights))
  {
    if rights != [] { SyncWithGood(p, c, sync, a, left, rights[1..]); }
  }

  lemma {:induction false} LeftStepsGood(p: Program, c: Condition, sync: set<string>, right: State, lefts: Steps, rights: Steps)
    requires c.sets(sync) && Good(p, c, right) && GoodSteps(p, c, lefts) && GoodSteps(p, c, rights)
    ensures GoodSteps(p, c, LeftSteps(sync, right, lefts, rights))
  {
    if lefts != [] {
      assert lefts[0] in lefts;
      SyncWithGood(p, c, sync, lefts[0].0, lefts[0].1, rights);
      LeftStepsGood(p, c, sync, right, lefts[1..], rights);
    }
  }

  lemma {:induction false} RightStepsGood(p: Program, c: Condition, sync: set<string>, left: State, rights: Steps)
    requires c.sets(sync) && Good(p, c, left) && GoodSteps(p, c, rights)
    ensures GoodSteps(p, c, RightSteps(sync, left, rights))
  {
    if rights != [] {
      assert rights[0] in rights;
      RightStepsGood(p, c, sync, left, rights[1..]);
    }
  }

  lemma {:induction false} HideStepsGood(p: Program, c: Condition, hidden: set<string>, inners: Steps)
    requires Kept(p, c) && c.sets(hidden) && GoodSteps(p, c, inners)
    ensures GoodSteps(p, c, HideSteps(hidden, inners))
  {
    assert c.labels(Lts.TAU);
    hide Kept;
    if inners != [] {
      assert inners[0] in inners;
      MakeHideGood(p, c, hidden, inners[0].1);
      HideStepsGood(p, c, hidden, inners[1..]);
    }
  }

  lemma {:induction false} PrefixStepsGood(p: Program, c: Condition, next: nat, outcomes: seq<(Label, Env)>, depth: nat)
    requires Kept(p, c) && GoodOutcomes(p, c, next, outcomes)
    ensures var r := PrefixStepsN(p, next, outcomes, depth); r.Some? ==> GoodSteps(p, c, r.value)
  {
    if outcomes != [] {
      assert outcomes[0] in outcomes;
      BuildKeeps(p, c, next, outcomes[0].1, depth);
      hide Kept, WellFormed;
      PrefixStepsGood(p, c, next, outcomes[1..], depth);
    }
  }

  /** Every step leads from good states to good states. */
  lemma {:induction false} SearchKeeps(p: Program, c: Condition, s: State, depth: nat)
    requires Kept(p, c) && Good(p, c, s)
    ensures Tabled(p, s) && var r := SearchN(p, s, depth); r.Some? ==> GoodSteps(p, c, r.value)
    decreases depth, 1
  {
    GoodIsTabled(p, c, s);
    if depth > 0 && SearchN(p, s, depth).Some? {
      var n := depth - 1;
      match s {
        case Par(sync, l, r) =>
          SearchKeeps(p, c, l, n);
          SearchKeeps(p, c, r, n);
          LeftStepsGood(p, c, sync, r, SearchN(p, l, n).value, SearchN(p, r, n).value);
          RightStepsGood(p, c, sync, l, SearchN(p, r, n).value);
        case Hid(hidden, inner) =>
          SearchKeeps(p, c, inner, n);
          HideStepsGood(p, c, hidden, SearchN(p, inner, n).value);
        case Expr(id, env) =>
          ExprSearchKeeps(p, c, id, env, depth);
      }
    }
  }

  lemma GoodConcat(p: Program, c: Condition, x: Steps, y: Steps)
    requires GoodSteps(p, c, x) && GoodSteps(p, c, y)
    ensures GoodSteps(p, c, x + y)
  {}

  lemma GoodPair(p: Program, c: Condition, l: State, r: State)
    requires Good(p, c, l) && Good(p, c, r) && c.labels(Lts.TAU)
    ensures GoodSteps(p, c, [(Lts.TAU, l), (Lts.TAU, r)])
  {}

  lemma {:induction false} ExprSearchKeeps(p: Program, c: Condition, id: nat, env: Env, depth: nat)
    requires Kept(p, c) && Good(p, c, Expr(id, env)) && depth > 0
    ensures var r := SearchN(p, Expr(id, env), depth); r.Some? ==> GoodSteps(p, c, r.value)
    decreases depth, 0
  {
    assert StaysExpr(p.exprs[id]);
    CarryOver(p, c, id, env);
    assert c.labels(Lts.TAU);
    hide Kept, EvalEvent, WellFormed, Good, GoodSteps, ParSteps, HideSteps, MakeHide, GoodOutcomes;
    var n := depth - 1;
    match p.exprs[id] {
      case NStop =>
        NoSteps(p, c);
      case NPrefix(e, next) =>
        PrefixStepsGood(p, c, next, EvalEvent(p.channels, e, env), n);
      case NExternal(l, r) =>
        BuildKeeps(p, c, l, env, n);
        BuildKeeps(p, c, r, env, n);
        var left, right := BuildN(p, l, env, n), BuildN(p, r, env, n);
        if left.Some? && right.Some? {
          SearchKeeps(p, c, left.value, n);
          SearchKeeps(p, c, right.value, n);
          var lefts, rights := SearchN(p, left.value, n), SearchN(p, right.value, n);
          if lefts.Some? && rights.Some? { GoodConcat(p, c, lefts.value, rights.value); }
        }
      case NInternal(l, r) =>
        BuildKeeps(p, c, l, env, n);
        BuildKeeps(p, c, r, env, n);
        var left, right := BuildN(p, l, env, n), BuildN(p, r, env, n);
        if left.Some? && right.Some? { GoodPair(p, c, left.value, right.value); }
    }
  }

  lemma NoSteps(p: Program, c: Condition)
    ensures GoodSteps(p, c, [])
  {}

  // ------------------------------------------------------------ normal forms

  function Anywhere(p: Program): Condition {
    Condition((id, _) => IsLive(p, id), _ => true, _ => true)
  }

  lemma AnywhereIsKept(p: Program)
    requires WellFormed(p)
    ensures Kept(p, Anywhere(p))
  {
    hide Live, EvalEvent;
    forall id: nat, env | Anywhere(p).on(id, env) ensures CarriesOver(p, Anywhere(p), id, env) {
      LiveMentions(p, id);
      assert ChildrenBelow(p.exprs[id], id);
    }
  }

  lemma {:induction false} NormalIsGood(p: Program, s: State)
    ensures Good(p, Anywhere(p), s) <==> CspmHide.NormalState(p, s)
  {
    hide Live;
    match s
    case Expr(_, _) =>
    case Par(_, l, r) => NormalIsGood(p, l); NormalIsGood(p, r);
    case Hid(_, inner) => NormalIsGood(p, inner);
  }

  /** Steps lead from normal forms to normal forms. */
  lemma StepsStayNormal(p: Program, s: State, depth: nat)
    requires WellFormed(p) && CspmHide.NormalState(p, s)
    ensures Tabled(p, s)
    ensures SearchN(p, s, depth).Some? ==> forall e | e in SearchN(p, s, depth).value :: CspmHide.NormalState(p, e.1)
  {
    AnywhereIsKept(p);
    NormalIsGood(p, s);
    SearchKeeps(p, Anywhere(p), s, depth);
    hide Good, CspmHide.NormalState, SearchN;
    if SearchN(p, s, depth).Some? {
      forall e | e in SearchN(p, s, depth).value ensures CspmHide.NormalState(p, e.1) { NormalIsGood(p, e.1); }
    }
  }
}
