/** The step rules as a relation, and the proof that the steps computed for a state
    are exactly those the rules allow. */
module CspmRules {
  import opened CspmSyntax
  import opened CspmCompile
  import opened CspmStep
  import opened Numerals
  import Lts

  /** Event `e` can happen as `a`, leaving the bindings `env'`. */
  ghost predicate Happens(channels: Channels, e: EventPat, env: Env, a: Label, env': Env) {
    match e
    case PUnit(ch) => a == ch && env' == env
    case PInt(ch, v) => a == EventLabel(ch, v) && env' == env
    case PInConst(ch, v) => a == EventLabel(ch, v) && env' == env
    case POutVar(ch, x) => x in env && a == EventLabel(ch, env[x]) && env' == env
    case PInBind(ch, x) =>
      && ch in channels && channels[ch].IntRange? && x in env'
      && channels[ch].min <= env'[x] <= channels[ch].max
      && a == EventLabel(ch, env'[x]) && env' == env[x := env'[x]]
  }

  ghost predicate PrefixRule(p: Program, e: EventPat, next: nat, env: Env, a: Label, t: State)
    requires Guarded(p) && IsLive(p, next)
  {
    exists env' :: Happens(p.channels, e, env, a, env') && t == StateFromExpr(p, next, env')
  }

  /** `s` can perform `a` and become `t`. */
  ghost predicate Rule(p: Program, s: State, a: Label, t: State)
    requires Guarded(p) && ValidState(p, s)
    decreases StateWeight(p, s)
  {
    match s
    case Par(sync, l, r) =>
      && t.Par? && t.sync == sync
      && if IsSync(sync, a) then Rule(p, l, a, t.left) && Rule(p, r, a, t.right)
         else (Rule(p, l, a, t.left) && t.right == r) || (t.left == l && Rule(p, r, a, t.right))
    case Hid(hidden, inner) => exists b, t' :: Rule(p, inner, b, t') && a == Relabel(hidden, b) && t == MakeHide(hidden, t')
    case Expr(id, env) =>
      WeightDrops(p, id);
      match p.exprs[id]
      case NStop => false
      case NRef(_) => Rule(p, StateFromExpr(p, p.resolved[id], map[]), a, t)
      case NPrefix(e, next) => PrefixRule(p, e, next, env, a, t)
      case NExternal(l, r) => Rule(p, StateFromExpr(p, l, env), a, t) || Rule(p, StateFromExpr(p, r, env), a, t)
      case NInternal(l, r) => a == Lts.TAU && (t == StateFromExpr(p, l, env) || t == StateFromExpr(p, r, env))
      case NParallel(l, r, sync) => Rule(p, Par(sync, StateFromExpr(p, l, env), StateFromExpr(p, r, env)), a, t)
      case NHide(inner, hidden) => Rule(p, Hid(hidden, StateFromExpr(p, inner, env)), a, t)
  }

  // ------------------------------------------------------------- the operands

  lemma EvalsWhatHappens(channels: Channels, e: EventPat, env: Env, a: Label, env': Env)
    ensures (a, env') in EvalEvent(channels, e, env) <==> Happens(channels, e, env, a, env')
  {
    if e.PInBind? && Happens(channels, e, env, a, env') {
      var k := env'[e.x] - channels[e.channel].min;
      assert EvalEvent(channels, e, env)[k] == (a, env');
    }
  }

  lemma {:induction false} PrefixStepsExact(p: Program, next: nat, outcomes: seq<(Label, Env)>, a: Label, t: State)
    requires Guarded(p) && IsLive(p, next)
    ensures (a, t) in PrefixSteps(p, next, outcomes)
       <==> exists env' :: (a, env') in outcomes && t == StateFromExpr(p, next, env')
  {
    if outcomes != [] {
      PrefixStepsExact(p, next, outcomes[1..], a, t);
      assert outcomes == [outcomes[0]] + outcomes[1..];
      if (a, t) in PrefixSteps(p, next, outcomes[1..]) {
        var env' :| (a, env') in outcomes[1..] && t == StateFromExpr(p, next, env');
        assert (a, env') in outcomes;
      } else if env' :| (a, env') in outcomes && t == StateFromExpr(p, next, env') {
        assert outcomes[0] == (a, env');
      }
      assert outcomes[0] in outcomes;
    }
  }

  lemma {:induction false} SyncWithExact(sync: set<string>, b: Label, left: State, rights: Steps, a: Label, t: State)
    ensures (a, t) in SyncWith(sync, b, left, rights) <==> a == b && t.Par? && t.sync == sync && t.left == left && (a, t.right) in rights
  {
    if rights != [] {
      SyncWithExact(sync, b, left, rights[1..], a, t);
      assert rights == [rights[0]] + rights[1..];
    }
  }

  lemma {:induction false} LeftStepsExact(sync: set<string>, right: State, lefts: Steps, rights: Steps, a: Label, t: State)
    ensures (a, t) in LeftSteps(sync, right, lefts, rights)
       <==> t.Par? && t.sync == sync && (a, t.left) in lefts && if IsSync(sync, a) then (a, t.right) in rights else t.right == right
  {
    hide IsSync;
    if lefts != [] {
      LeftStepsExact(sync, right, lefts[1..], rights, a, t);
      SyncWithExact(sync, lefts[0].0, lefts[0].1, rights, a, t);
      assert lefts == [lefts[0]] + lefts[1..];
    }
  }

  lemma {:induction false} RightStepsExact(sync: set<string>, left: State, rights: Steps, a: Label, t: State)
    ensures (a, t) in RightSteps(sync, left, rights)
       <==> t.Par? && t.sync == sync && t.left == left && !IsSync(sync, a) && (a, t.right) in rights
  {
    hide IsSync;
    if rights != [] {
      RightStepsExact(sync, left, rights[1..], a, t);
      assert rights == [rights[0]] + rights[1..];
      var (b, r) := rights[0];
      if IsSync(sync, b) {
        assert RightSteps(sync, left, rights) == RightSteps(sync, left, rights[1..]);
      } else {
        assert RightSteps(sync, left, rights) == [(b, Par(sync, left, r))] + RightSteps(sync, left, rights[1..]);
      }
    }
  }

  lemma {:induction false} HideStepsExact(hidden: set<string>, inners: Steps, a: Label, t: State)
    ensures (a, t) in HideSteps(hidden, inners)
       <==> exists b, t' :: (b, t') in inners && a == Relabel(hidden, b) && t == MakeHide(hidden, t')
  {
    hide Relabel, MakeHide;
    if inners != [] {
      HideStepsExact(hidden, inners[1..], a, t);
      assert inners == [inners[0]] + inners[1..];
      if (a, t) in HideSteps(hidden, inners[1..]) {
        var b, t' :| (b, t') in inners[1..] && a == Relabel(hidden, b) && t == MakeHide(hidden, t');
        assert (b, t') in inners;
      } else if b, t' :| (b, t') in inners && a == Relabel(hidden, b) && t == MakeHide(hidden, t') {
        assert inners[0] == (b, t');
      }
      assert (inners[0].0, inners[0].1) in inners;
    }
  }

  // -------------------------------------------------------------- the theorem

  /** The computed steps are exactly those that the rules allow. */
  lemma {:induction false} StepsFollowRules(p: Program, s: State, a: Label, t: State)
    requires Guarded(p) && ValidState(p, s)
    ensures (a, t) in Transitions(p, s) <==> Rule(p, s, a, t)
    decreases StateWeight(p, s), 1
  {
    hide IsSync;
    match s {
      case Par(sync, l, r) =>
        LeftStepsExact(sync, r, Transitions(p, l), Transitions(p, r), a, t);
        RightStepsExact(sync, l, Transitions(p, r), a, t);
        if t.Par? {
          StepsFollowRules(p, l, a, t.left);
          StepsFollowRules(p, r, a, t.right);
        }
      case Hid(hidden, inner) =>
        HideFollowsRules(p, hidden, inner, a, t);
      case Expr(id, env) =>
        ExprFollowsRules(p, id, env, a, t);
    }
  }

  lemma {:induction false} HideFollowsRules(p: Program, hidden: set<string>, inner: State, a: Label, t: State)
    requires Guarded(p) && ValidState(p, inner)
    ensures (a, t) in HideSteps(hidden, Transitions(p, inner)) <==> Rule(p, Hid(hidden, inner), a, t)
    decreases StateWeight(p, inner), 2
  {
    hide Transitions, Relabel, MakeHide;
    HideStepsExact(hidden, Transitions(p, inner), a, t);
    forall b, t' ensures (b, t') in Transitions(p, inner) <==> Rule(p, inner, b, t') {
      StepsFollowRules(p, inner, b, t');
    }
  }

  lemma PrefixFollowsRules(p: Program, e: EventPat, next: nat, env: Env, a: Label, t: State)
    requires Guarded(p) && IsLive(p, next)
    ensures (a, t) in PrefixSteps(p, next, EvalEvent(p.channels, e, env)) <==> PrefixRule(p, e, next, env, a, t)
  {
    hide EvalEvent, Happens, StateFromExpr;
    PrefixStepsExact(p, next, EvalEvent(p.channels, e, env), a, t);
    forall env' ensures (a, env') in EvalEvent(p.channels, e, env) <==> Happens(p.channels, e, env, a, env') {
      EvalsWhatHappens(p.channels, e, env, a, env');
    }
  }

  lemma {:induction false} ExprFollowsRules(p: Program, id: nat, env: Env, a: Label, t: State)
    requires Guarded(p) && IsLive(p, id)
    ensures (a, t) in Transitions(p, Expr(id, env)) <==> Rule(p, Expr(id, env), a, t)
    decreases WeightOf(p, id), 0
  {
    hide IsSync, EvalEvent, PrefixRule;
    WeightDrops(p, id);
    match p.exprs[id] {
      case NStop =>
      case NRef(_) => StepsFollowRules(p, StateFromExpr(p, p.resolved[id], map[]), a, t);
      case NPrefix(e, next) => PrefixFollowsRules(p, e, next, env, a, t);
      case NExternal(l, r) =>
        StepsFollowRules(p, StateFromExpr(p, l, env), a, t);
        StepsFollowRules(p, StateFromExpr(p, r, env), a, t);
      case NInternal(l, r) =>
      case NParallel(l, r, sync) => StepsFollowRules(p, Par(sync, StateFromExpr(p, l, env), StateFromExpr(p, r, env)), a, t);
      case NHide(inner, hidden) => StepsFollowRules(p, Hid(hidden, StateFromExpr(p, inner, env)), a, t);
    }
  }

  // ---------------------------------------------------------------- labels

  lemma DecimalInjective(m: nat, n: nat)
    requires Decimal(m) == Decimal(n)
    ensures m == n
  {
    DecimalIsNumeral(m);
    DecimalIsNumeral(n);
  }

  lemma {:induction false} ChannelOfLabel(channel: string, rest: string)
    requires '.' !in channel && (rest == [] || rest[0] == '.')
    ensures LabelChannel(channel + rest) == channel
  {
    if channel != [] {
      assert (channel + rest)[1..] == channel[1..] + rest;
      ChannelOfLabel(channel[1..], rest);
    } else {
      assert channel + rest == rest;
    }
  }

  /** With channel names free of dots, a label is its channel and its value. */
  lemma LabelsAreEvents(ch: string, v: U64, ch': string, v': U64)
    requires '.' !in ch && '.' !in ch'
    ensures LabelChannel(EventLabel(ch, v)) == ch && LabelChannel(ch) == ch
    ensures EventLabel(ch, v) == EventLabel(ch', v') ==> ch == ch' && v == v'
    ensures EventLabel(ch, v) != ch'
  {
    var a, b := "." + Decimal(v), "." + Decimal(v');
    assert EventLabel(ch, v) == ch + a && EventLabel(ch', v') == ch' + b;
    ChannelOfLabel(ch, a);
    ChannelOfLabel(ch', b);
    ChannelOfLabel(ch, []);
    ChannelOfLabel(ch', []);
    assert ch + [] == ch && ch' + [] == ch';
    if ch + a == ch' + b {
      assert a == (ch + a)[|ch|..] && b == (ch' + b)[|ch|..];
      assert Decimal(v) == a[1..] && Decimal(v') == b[1..];
      DecimalInjective(v, v');
    }
    assert (ch + a)[|ch|] == '.';
  }

  /** Synchronising and hiding look at the channel only, and never at the internal action. */
  lemma ChannelDecides(names: set<string>, ch: string, v: U64)
    requires '.' !in ch
    ensures IsSync(names, EventLabel(ch, v)) <==> ch in names
    ensures Relabel(names, EventLabel(ch, v)) == if ch in names then Lts.TAU else EventLabel(ch, v)
    ensures ch != Lts.TAU ==> (IsSync(names, ch) <==> ch in names) && Relabel(names, ch) == if ch in names then Lts.TAU else ch
    ensures !IsSync(names, Lts.TAU) && Relabel(names, Lts.TAU) == Lts.TAU
  {
    LabelsAreEvents(ch, v, Lts.TAU, v);
  }
}
