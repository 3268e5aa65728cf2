/** Type soundness: what the type checker accepts never gets stuck on a value,
    and only performs events of its channels. */
module CspmSoundness {
  import opened Options
  import opened CspmSyntax
  import opened CspmCompile
  import opened CspmStep
  import opened CspmSearch
  import opened CspmKept
  import CspmHide
  import Lts

  // ------------------------------------------------------ typed expressions

  ghost predicate InDomain(v: U64, d: Domain) {
    d.IntRange? && d.min <= v <= d.max
  }

  ghost predicate EventTyped(channels: Channels, e: EventPat, vars: Vars) {
    && e.channel in channels
    && match e
       case PUnit(ch) => channels[ch] == Unit
       case PInt(ch, v) => InDomain(v, channels[ch])
       case PInConst(ch, v) => InDomain(v, channels[ch])
       case POutVar(ch, x) => channels[ch].IntRange? && x in vars && vars[x] == channels[ch]
       case PInBind(ch, _) => channels[ch].IntRange? && channels[ch].min <= channels[ch].max
  }

  ghost function Bound(channels: Channels, e: EventPat, vars: Vars): Vars {
    if e.PInBind? && e.channel in channels then vars[e.x := channels[e.channel]] else vars
  }

  ghost predicate TreeTyped(channels: Channels, t: Tree, vars: Vars) {
    match t
    case TStop => true
    case TRef(_) => true
    case TPrefix(e, next) => EventTyped(channels, e, vars) && TreeTyped(channels, next, Bound(channels, e, vars))
    case TExternal(l, r) => TreeTyped(channels, l, vars) && TreeTyped(channels, r, vars)
    case TInternal(l, r) => TreeTyped(channels, l, vars) && TreeTyped(channels, r, vars)
    case TParallel(l, r, _) => TreeTyped(channels, l, vars) && TreeTyped(channels, r, vars)
    case THide(inner, _) => TreeTyped(channels, inner, vars)
  }

  /** The domains are non-empty ranges, as the type checker demands of declarations. */
  ghost predicate DomainsOk(channels: Channels) {
    forall ch | ch in channels && channels[ch].IntRange? :: channels[ch].min <= channels[ch].max
  }

  /** Compilation carries the verdict of the type checker over to the tree. */
  lemma {:induction false} CheckedIsTyped(e: Process, channels: Channels, procIds: map<string, nat>, vars: Vars)
    requires DomainsOk(channels) && TypecheckProcess(e, channels, procIds.Keys, vars).Ok? && Core(e, procIds).Some?
    ensures TreeTyped(channels, Core(e, procIds).value, vars)
  {
    match e
    case Stop =>
    case Ref(_) =>
    case Prefix(event, next) => CheckedIsTyped(next, channels, procIds, TypecheckEvent(event, channels, vars).value);
    case Choice(_, l, r) => CheckedIsTyped(l, channels, procIds, vars); CheckedIsTyped(r, channels, procIds, vars);
    case Parallel(_, l, r, _) => CheckedIsTyped(l, channels, procIds, vars); CheckedIsTyped(r, channels, procIds, vars);
    case Hide(inner, _) => CheckedIsTyped(inner, channels, procIds, vars);
  }

  ghost predicate SyncSetsGiven(e: Process) {
    match e
    case Stop => true
    case Ref(_) => true
    case Prefix(_, next) => SyncSetsGiven(next)
    case Choice(_, l, r) => SyncSetsGiven(l) && SyncSetsGiven(r)
    case Parallel(kind, l, r, sync) => SyncSetsGiven(l) && SyncSetsGiven(r) && (kind == Interface ==> sync.Some?)
    case Hide(inner, _) => SyncSetsGiven(inner)
  }

  /** What the type checker accepts compiles, given the sets the parser supplies. */
  lemma {:induction false} CheckedCompiles(e: Process, channels: Channels, procIds: map<string, nat>, vars: Vars)
    requires TypecheckProcess(e, channels, procIds.Keys, vars).Ok? && SyncSetsGiven(e)
    ensures Core(e, procIds).Some?
  {
    match e
    case Stop =>
    case Ref(_) =>
    case Prefix(event, next) => CheckedCompiles(next, channels, procIds, TypecheckEvent(event, channels, vars).value);
    case Choice(_, l, r) => CheckedCompiles(l, channels, procIds, vars); CheckedCompiles(r, channels, procIds, vars);
    case Parallel(_, l, r, _) => CheckedCompiles(l, channels, procIds, vars); CheckedCompiles(r, channels, procIds, vars);
    case Hide(inner, _) => CheckedCompiles(inner, channels, procIds, vars);
  }

  // ------------------------------------------- what the type checker accepts

  /** Every channel set names declared channels only. */
  ghost predicate SetsDeclared(e: Process, channels: Channels) {
    match e
    case Stop => true
    case Ref(_) => true
    case Prefix(_, next) => SetsDeclared(next, channels)
    case Choice(_, l, r) => SetsDeclared(l, channels) && SetsDeclared(r, channels)
    case Parallel(_, l, r, sync) =>
      SetsDeclared(l, channels) && SetsDeclared(r, channels) && (sync.Some? ==> forall x | x in sync.value :: x in channels)
    case Hide(inner, hidden) => SetsDeclared(inner, channels) && forall x | x in hidden :: x in channels
  }

  /** No input binds a variable that is already bound. */
  ghost predicate NoRebinding(channels: Channels, t: Tree, vars: Vars) {
    match t
    case TStop => true
    case TRef(_) => true
    case TPrefix(e, next) => (e.PInBind? ==> e.x !in vars) && NoRebinding(channels, next, Bound(channels, e, vars))
    case TExternal(l, r) => NoRebinding(channels, l, vars) && NoRebinding(channels, r, vars)
    case TInternal(l, r) => NoRebinding(channels, l, vars) && NoRebinding(channels, r, vars)
    case TParallel(l, r, _) => NoRebinding(channels, l, vars) && NoRebinding(channels, r, vars)
    case THide(inner, _) => NoRebinding(channels, inner, vars)
  }

  /** The type checker accepts exactly the events that compile to typed patterns
      and do not rebind a variable. */
  lemma EventCheckedExactly(e: Event, channels: Channels, vars: Vars)
    requires DomainsOk(channels)
    ensures var pat, r := CompileEventPat(e), TypecheckEvent(e, channels, vars);
            && (r.Ok? <==> pat.Some? && EventTyped(channels, pat.value, vars) && (pat.value.PInBind? ==> pat.value.x !in vars))
            && (r.Ok? ==> r.value == Bound(channels, pat.value, vars))
  {}

  /** The type checker accepts exactly the expressions that compile to typed trees
      without rebinding, over declared channels. */
  lemma {:induction false} CheckedExactly(e: Process, channels: Channels, procIds: map<string, nat>, vars: Vars)
    requires DomainsOk(channels) && SyncSetsGiven(e)
    ensures TypecheckProcess(e, channels, procIds.Keys, vars).Ok? <==>
              && Core(e, procIds).Some? && SetsDeclared(e, channels)
              && TreeTyped(channels, Core(e, procIds).value, vars) && NoRebinding(channels, Core(e, procIds).value, vars)
  {
    hide TypecheckEvent, CompileEventPat, EventTyped, Bound;
    match e
    case Stop =>
    case Ref(_) =>
    case Prefix(event, next) =>
      EventCheckedExactly(event, channels, vars);
      if TypecheckEvent(event, channels, vars).Ok? {
        CheckedExactly(next, channels, procIds, TypecheckEvent(event, channels, vars).value);
      }
    case Choice(_, l, r) => CheckedExactly(l, channels, procIds, vars); CheckedExactly(r, channels, procIds, vars);
    case Parallel(_, l, r, _) => CheckedExactly(l, channels, procIds, vars); CheckedExactly(r, channels, procIds, vars);
    case Hide(inner, _) => CheckedExactly(inner, channels, procIds, vars);
  }

  // ------------------------------------------------------------ typed states

  ghost predicate HasType(env: Env, vars: Vars) {
    forall x | x in vars :: x in env && InDomain(env[x], vars[x])
  }

  ghost predicate TypedNode(p: Program, id: nat, vars: Vars) {
    Ordered(p.exprs) && id < |p.exprs| && IsLive(p, id) && TreeTyped(p.channels, Unfold(p.exprs, id), vars)
  }

  /** Every live reference resolves to an expression that is typed without variables. */
  ghost predicate TypedProgram(p: Program) {
    && WellFormed(p) && DomainsOk(p.channels)
    && forall id: nat | IsLive(p, id) && p.exprs[id].NRef? :: TypedNode(p, p.resolved[id], map[])
  }

  /** Every expression in the state has an environment binding all variables it
      outputs, with values in the domains of their channels. */
  ghost predicate TypedState(p: Program, s: State) {
    match s
    case Expr(id, env) => exists vars :: TypedNode(p, id, vars) && HasType(env, vars)
    case Par(_, l, r) => TypedState(p, l) && TypedState(p, r)
    case Hid(_, inner) => TypedState(p, inner)
  }

  /** The internal action, an event of a unit channel, or a value of a channel's range. */
  ghost predicate LabelTyped(channels: Channels, a: Label) {
    || a == Lts.TAU
    || (a in channels && channels[a] == Unit)
    || exists ch, v :: ch in channels && InDomain(v, channels[ch]) && a == EventLabel(ch, v)
  }

  /** A typed event is offered, only with values in its channel's range, and the
      environments it leads to have the extended type. */
  lemma EventOffers(channels: Channels, e: EventPat, env: Env, vars: Vars)
    requires EventTyped(channels, e, vars) && HasType(env, vars)
    ensures EvalEvent(channels, e, env) != []
    ensures forall o | o in EvalEvent(channels, e, env) :: LabelTyped(channels, o.0) && HasType(o.1, Bound(channels, e, vars))
  {
    forall o | o in EvalEvent(channels, e, env) ensures LabelTyped(channels, o.0) && HasType(o.1, Bound(channels, e, vars)) {
      match e
      case PUnit(_) =>
      case PInt(ch, v) => assert o.0 == EventLabel(ch, v);
      case PInConst(ch, v) => assert o.0 == EventLabel(ch, v);
      case POutVar(ch, x) => assert o.0 == EventLabel(ch, env[x]);
      case PInBind(ch, x) =>
        var k :| 0 <= k < |EvalEvent(channels, e, env)| && EvalEvent(channels, e, env)[k] == o;
        assert o.0 == EventLabel(ch, channels[ch].min + k);
    }
  }

  lemma ChildrenTyped(p: Program, id: nat, vars: Vars)
    requires WellFormed(p) && TypedNode(p, id, vars)
    ensures match p.exprs[id]
            case NPrefix(e, next) => EventTyped(p.channels, e, vars) && TypedNode(p, next, Bound(p.channels, e, vars))
            case NExternal(l, r) => TypedNode(p, l, vars) && TypedNode(p, r, vars)
            case NInternal(l, r) => TypedNode(p, l, vars) && TypedNode(p, r, vars)
            case NParallel(l, r, _) => TypedNode(p, l, vars) && TypedNode(p, r, vars)
            case NHide(inner, _) => TypedNode(p, inner, vars)
            case _ => true
  {
    hide Live;
    LiveMentions(p, id);
    assert ChildrenBelow(p.exprs[id], id);
  }

  // ----------------------------------------------------------- every step

  /** What a state of a run keeps: it is well typed and in normal form. */
  ghost predicate Sound(p: Program, s: State) {
    TypedState(p, s) && CspmHide.NormalState(p, s)
  }

  ghost predicate SoundSteps(p: Program, steps: Steps) {
    forall e | e in steps :: LabelTyped(p.channels, e.0) && Sound(p, e.1)
  }

  ghost predicate Bindable(p: Program, id: nat, env: Env) {
    exists vars :: TypedNode(p, id, vars) && HasType(env, vars)
  }

  ghost function Typed(p: Program): Condition {
    Condition((id, env) => Bindable(p, id, env), _ => true, a => LabelTyped(p.channels, a))
  }

  lemma TypedIsKept(p: Program)
    requires TypedProgram(p)
    ensures Kept(p, Typed(p))
  {
    hide Live, LabelTyped, EvalEvent, TreeTyped, HasType;
    var c := Typed(p);
    TauTyped(p.channels);
    forall id, env | c.on(id, env) ensures CarriesOver(p, c, id, env) {
      var vars :| TypedNode(p, id, vars) && HasType(env, vars);
      TypedCarriesOver(p, id, env, vars);
    }
  }

  lemma TypedCarriesOver(p: Program, id: nat, env: Env, vars: Vars)
    requires TypedProgram(p) && TypedNode(p, id, vars) && HasType(env, vars)
    ensures CarriesOver(p, Typed(p), id, env)
  {
    hide Live, LabelTyped, EvalEvent, TreeTyped, HasType, Unfold;
    ChildrenTyped(p, id, vars);
    match p.exprs[id]
    case NRef(_) => EmptyHasType();
    case NPrefix(e, next) => EventOffers(p.channels, e, env, vars);
    case _ =>
  }

  lemma {:induction false} SoundIsGood(p: Program, s: State)
    ensures Good(p, Typed(p), s) <==> Sound(p, s)
  {
    hide Live, LabelTyped, HasType, TreeTyped;
    match s
    case Expr(_, _) =>
    case Par(_, l, r) => SoundIsGood(p, l); SoundIsGood(p, r);
    case Hid(_, inner) => SoundIsGood(p, inner);
  }

  lemma EmptyHasType()
    ensures HasType(map[], map[])
  {}

  lemma TauTyped(channels: Channels)
    ensures LabelTyped(channels, Lts.TAU)
  {}

  /** Subject reduction: typed states only take typed steps to typed states. */
  lemma StepsAreTyped(p: Program, s: State, depth: nat)
    requires TypedProgram(p) && Sound(p, s)
    ensures Tabled(p, s) && (SearchN(p, s, depth).Some? ==> SoundSteps(p, SearchN(p, s, depth).value))
  {
    TypedIsKept(p);
    SoundIsGood(p, s);
    SearchKeeps(p, Typed(p), s, depth);
    hide Good, Sound, SearchN, LabelTyped;
    if SearchN(p, s, depth).Some? {
      forall e | e in SearchN(p, s, depth).value ensures Sound(p, e.1) { SoundIsGood(p, e.1); }
    }
  }

  /** What is built from a typed expression is typed and in normal form. */
  lemma BuiltIsSound(p: Program, id: nat, env: Env, vars: Vars, depth: nat)
    requires TypedProgram(p) && TypedNode(p, id, vars) && HasType(env, vars)
    ensures var s := BuildN(p, id, env, depth); s.Some? ==> Sound(p, s.value)
  {
    TypedIsKept(p);
    hide Kept, TypedProgram, TypedNode, HasType, Good, Sound;
    assert Bindable(p, id, env);
    BuildKeeps(p, Typed(p), id, env, depth);
    if BuildN(p, id, env, depth).Some? { SoundIsGood(p, BuildN(p, id, env, depth).value); }
  }

  /** The event of a typed prefix can happen, and the prefix is never found without a step. */
  lemma TypedPrefixMoves(p: Program, id: nat, env: Env, depth: nat)
    requires TypedProgram(p) && TypedState(p, Expr(id, env)) && p.exprs[id].NPrefix?
    ensures EvalEvent(p.channels, p.exprs[id].event, env) != [] && SearchN(p, Expr(id, env), depth) != Some([])
  {
    var vars :| TypedNode(p, id, vars) && HasType(env, vars);
    ChildrenTyped(p, id, vars);
    EventOffers(p.channels, p.exprs[id].event, env, vars);
  }
}
