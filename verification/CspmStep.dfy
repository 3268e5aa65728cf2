/** The operational semantics of compiled CSPM programs. */
module CspmStep {
  import opened CspmSyntax
  import opened CspmCompile
  import opened Numerals
  import Lts

  type Label = Lts.Label
  type Env = map<string, U64>

  /** A compiled program and the expression of its entry. */
  datatype Program = Program(channels: Channels, exprs: seq<ExprNode>, resolved: seq<nat>, initial: nat)

  datatype State =
    | Expr(expr: nat, env: Env)
    | Par(sync: set<string>, left: State, right: State)
    | Hid(hidden: set<string>, inner: State)

  type Steps = seq<(Label, State)>

  // ------------------------------------------------------------ programs

  ghost predicate WellFormed(p: Program) {
    && Ordered(p.exprs)
    && p.initial < |p.exprs|
    && |p.resolved| == |p.exprs|
    && forall id | 0 <= id < |p.exprs| :: p.resolved[id] < |p.exprs| && !p.exprs[p.resolved[id]].NRef?
  }

  // ------------------------------------------------- what a run can come to

  /** The expressions that an expression mentions. */
  function Mentions(p: Program, id: nat): set<nat> {
    if id >= |p.exprs| || id >= |p.resolved| then {}
    else
      match p.exprs[id]
      case NStop => {}
      case NRef(_) => {p.resolved[id]}
      case NPrefix(_, next) => {next}
      case NExternal(l, r) => {l, r}
      case NInternal(l, r) => {l, r}
      case NParallel(l, r, _) => {l, r}
      case NHide(inner, _) => {inner}
  }

  function Spread(p: Program, ids: set<nat>): set<nat> {
    ids + set id, c | id in ids && c in Mentions(p, id) :: c
  }

  function SpreadTimes(p: Program, ids: set<nat>, n: nat): set<nat>
    decreases n
  {
    if n == 0 then ids else SpreadTimes(p, Spread(p, ids), n - 1)
  }

  /** The expressions that can be reached from the entry of the program. */
  function Live(p: Program): set<nat> {
    SpreadTimes(p, {p.initial}, |p.exprs|)
  }

  predicate IsLive(p: Program, id: nat) {
    id < |p.exprs| && id in Live(p)
  }

  ghost predicate InTable(p: Program, ids: set<nat>) {
    forall id | id in ids :: id < |p.exprs|
  }

  ghost function Positions(n: nat): (r: set<nat>)
    ensures |r| == n && forall id: nat :: id in r <==> id < n
  {
    if n == 0 then {} else Positions(n - 1) + {n - 1}
  }

  lemma MentionsInTable(p: Program, id: nat)
    requires WellFormed(p) && id < |p.exprs|
    ensures InTable(p, Mentions(p, id))
  {
    assert ChildrenBelow(p.exprs[id], id);
  }

  lemma SpreadInTable(p: Program, ids: set<nat>)
    requires WellFormed(p) && InTable(p, ids)
    ensures InTable(p, Spread(p, ids))
  {
    hide WellFormed, Mentions;
    forall id, c | id in ids && c in Mentions(p, id) ensures c < |p.exprs| { MentionsInTable(p, id); }
  }

  lemma {:induction false} SpreadStops(p: Program, ids: set<nat>, n: nat)
    requires Spread(p, ids) == ids
    ensures SpreadTimes(p, ids, n) == ids
  {
    if n > 0 { SpreadStops(p, ids, n - 1); }
  }

  /** Spreading adds something each time, until nothing is left to add. */
  lemma {:induction false} SpreadGrows(p: Program, ids: set<nat>, n: nat)
    requires WellFormed(p) && InTable(p, ids)
    ensures ids <= SpreadTimes(p, ids, n) && InTable(p, SpreadTimes(p, ids, n))
    ensures Spread(p, SpreadTimes(p, ids, n)) == SpreadTimes(p, ids, n) || |SpreadTimes(p, ids, n)| >= |ids| + n
    decreases n
  {
    hide WellFormed, Mentions;
    SpreadInTable(p, ids);
    var more := Spread(p, ids);
    if more == ids {
      SpreadStops(p, ids, n);
    } else if n > 0 {
      Bigger(ids, more);
      SpreadGrows(p, more, n - 1);
    }
  }

  lemma Bigger(a: set<nat>, b: set<nat>)
    requires a <= b && a != b
    ensures |a| < |b|
  {
    var x :| x in b && x !in a;
    assert a + {x} <= b;
    assert b == (a + {x}) + (b - a - {x});
  }

  /** What a live expression mentions is live. */
  lemma LiveClosed(p: Program)
    requires WellFormed(p)
    ensures IsLive(p, p.initial) && InTable(p, Live(p)) && Spread(p, Live(p)) == Live(p)
  {
    hide Mentions, Spread;
    SpreadGrows(p, {p.initial}, |p.exprs|);
    var all := Positions(|p.exprs|);
    if |Live(p)| >= |p.exprs| + 1 {
      assert Live(p) <= all;
      if Live(p) != all { Bigger(Live(p), all); }
    }
  }

  lemma LiveMentions(p: Program, id: nat)
    requires WellFormed(p) && IsLive(p, id)
    ensures forall c | c in Mentions(p, id) :: IsLive(p, c)
  {
    hide Mentions, Live, WellFormed;
    LiveClosed(p);
    forall c | c in Mentions(p, id) ensures IsLive(p, c) { assert c in Spread(p, Live(p)); }
  }

  /** Weights that decrease wherever one step unfolds a live expression into others. */
  ghost predicate Weights(p: Program, w: seq<nat>)
    requires WellFormed(p)
  {
    && |w| == |p.exprs|
    && forall id | IsLive(p, id) :: WeightOk(p, w, id)
  }

  ghost predicate WeightOk(p: Program, w: seq<nat>, id: nat)
    requires WellFormed(p) && |w| == |p.exprs| && id < |p.exprs|
  {
    assert ChildrenBelow(p.exprs[id], id);
    match p.exprs[id]
    case NRef(_) => w[p.resolved[id]] < w[id]
    case NExternal(l, r) => w[l] + w[r] < w[id]
    case NParallel(l, r, _) => w[l] + w[r] + 1 < w[id]
    case NHide(inner, _) => w[inner] + 1 < w[id]
    case _ => true
  }

  /** No recursion that the entry can come to without passing a prefix or an
      internal choice. */
  ghost predicate Guarded(p: Program) {
    WellFormed(p) && exists w :: Weights(p, w)
  }

  ghost function WeightsOf(p: Program): (w: seq<nat>)
    requires Guarded(p)
    ensures Weights(p, w)
  {
    var w :| Weights(p, w); w
  }

  ghost function WeightOf(p: Program, id: nat): nat
    requires Guarded(p) && id < |p.exprs|
  {
    WeightsOf(p)[id]
  }

  /** What a live expression unfolds into is live and lighter. */
  lemma WeightDrops(p: Program, id: nat)
    requires Guarded(p) && IsLive(p, id)
    ensures ChildrenBelow(p.exprs[id], id)
    ensures match p.exprs[id]
            case NStop => true
            case NRef(_) => IsLive(p, p.resolved[id]) && WeightOf(p, p.resolved[id]) < WeightOf(p, id)
            case NPrefix(_, next) => IsLive(p, next)
            case NExternal(l, r) => IsLive(p, l) && IsLive(p, r) && WeightOf(p, l) + WeightOf(p, r) < WeightOf(p, id)
            case NInternal(l, r) => IsLive(p, l) && IsLive(p, r)
            case NParallel(l, r, _) => IsLive(p, l) && IsLive(p, r) && WeightOf(p, l) + WeightOf(p, r) + 1 < WeightOf(p, id)
            case NHide(inner, _) => IsLive(p, inner) && WeightOf(p, inner) + 1 < WeightOf(p, id)
  {
    hide Live;
    LiveMentions(p, id);
    assert WeightOk(p, WeightsOf(p), id);
  }

  predicate ValidState(p: Program, s: State) {
    match s
    case Expr(id, _) => IsLive(p, id)
    case Par(_, l, r) => ValidState(p, l) && ValidState(p, r)
    case Hid(_, inner) => ValidState(p, inner)
  }

  ghost function StateWeight(p: Program, s: State): nat
    requires Guarded(p) && ValidState(p, s)
  {
    match s
    case Expr(id, _) => WeightOf(p, id)
    case Par(_, l, r) => StateWeight(p, l) + StateWeight(p, r) + 1
    case Hid(_, inner) => StateWeight(p, inner) + 1
  }

  // --------------------------------------------------------------- states

  /** Hiding nothing is dropped and nested hiding is merged. */
  function MakeHide(hidden: set<string>, inner: State): State {
    if hidden == {} then inner
    else
      match inner
      case Hid(h, i) => Hid(hidden + h, i)
      case _ => Hid(hidden, inner)
  }

  function StateFromExpr(p: Program, id: nat, env: Env): (s: State)
    requires Guarded(p) && IsLive(p, id)
    ensures ValidState(p, s) && StateWeight(p, s) <= WeightOf(p, id)
    decreases WeightOf(p, id)
  {
    WeightDrops(p, id);
    match p.exprs[id]
    case NRef(_) => StateFromExpr(p, p.resolved[id], map[])
    case NParallel(l, r, sync) => Par(sync, StateFromExpr(p, l, env), StateFromExpr(p, r, env))
    case NHide(inner, hidden) => MakeHide(hidden, StateFromExpr(p, inner, env))
    case _ => Expr(id, env)
  }

  // ---------------------------------------------------------------- labels

  function EventLabel(channel: string, value: U64): Label {
    channel + "." + Decimal(value)
  }

  /** The part of a label before its first dot. */
  function LabelChannel(a: Label): string {
    if a == [] || a[0] == '.' then [] else [a[0]] + LabelChannel(a[1..])
  }

  predicate IsSync(sync: set<string>, a: Label) {
    a != Lts.TAU && LabelChannel(a) in sync
  }

  function Relabel(hidden: set<string>, a: Label): Label {
    if a != Lts.TAU && LabelChannel(a) in hidden then Lts.TAU else a
  }

  // ------------------------------------------------------------ step rules

  function EvalEvent(channels: Channels, e: EventPat, env: Env): seq<(Label, Env)> {
    match e
    case PUnit(ch) => [(ch, env)]
    case PInt(ch, v) => [(EventLabel(ch, v), env)]
    case POutVar(ch, x) => if x in env then [(EventLabel(ch, env[x]), env)] else []
    case PInConst(ch, v) => [(EventLabel(ch, v), env)]
    case PInBind(ch, x) =>
      if ch in channels && channels[ch].IntRange? && channels[ch].min <= channels[ch].max then
        var (min, max) := (channels[ch].min, channels[ch].max);
        seq(max - min + 1, i requires 0 <= i < max - min + 1 => (EventLabel(ch, min + i), env[x := min + i]))
      else []
  }

  function SyncWith(sync: set<string>, a: Label, left: State, rights: Steps): Steps {
    if rights == [] then []
    else (if rights[0].0 == a then [(a, Par(sync, left, rights[0].1))] else []) + SyncWith(sync, a, left, rights[1..])
  }

  /** The steps of the left operand, alone or together with the right one. */
  function LeftSteps(sync: set<string>, right: State, lefts: Steps, rights: Steps): Steps {
    if lefts == [] then []
    else
      var (a, l) := lefts[0];
      (if IsSync(sync, a) then SyncWith(sync, a, l, rights) else [(a, Par(sync, l, right))])
      + LeftSteps(sync, right, lefts[1..], rights)
  }

  /** The steps of the right operand alone. */
  function RightSteps(sync: set<string>, left: State, rights: Steps): Steps {
    if rights == [] then []
    else
      var (a, r) := rights[0];
      (if IsSync(sync, a) then [] else [(a, Par(sync, left, r))]) + RightSteps(sync, left, rights[1..])
  }

  function ParSteps(sync: set<string>, left: State, right: State, lefts: Steps, rights: Steps): Steps {
    LeftSteps(sync, right, lefts, rights) + RightSteps(sync, left, rights)
  }

  function HideSteps(hidden: set<string>, inners: Steps): Steps {
    if inners == [] then []
    else [(Relabel(hidden, inners[0].0), MakeHide(hidden, inners[0].1))] + HideSteps(hidden, inners[1..])
  }

  function PrefixSteps(p: Program, next: nat, outcomes: seq<(Label, Env)>): Steps
    requires Guarded(p) && IsLive(p, next)
  {
    if outcomes == [] then []
    else [(outcomes[0].0, StateFromExpr(p, next, outcomes[0].1))] + PrefixSteps(p, next, outcomes[1..])
  }

  function Transitions(p: Program, s: State): Steps
    requires Guarded(p) && ValidState(p, s)
    decreases StateWeight(p, s)
  {
    match s
    case Par(sync, l, r) => ParSteps(sync, l, r, Transitions(p, l), Transitions(p, r))
    case Hid(hidden, inner) => HideSteps(hidden, Transitions(p, inner))
    case Expr(id, env) =>
      WeightDrops(p, id);
      match p.exprs[id]
      case NStop => []
      case NRef(_) => Transitions(p, StateFromExpr(p, p.resolved[id], map[]))
      case NPrefix(e, next) => PrefixSteps(p, next, EvalEvent(p.channels, e, env))
      case NExternal(l, r) => Transitions(p, StateFromExpr(p, l, env)) + Transitions(p, StateFromExpr(p, r, env))
      case NInternal(l, r) => [(Lts.TAU, StateFromExpr(p, l, env)), (Lts.TAU, StateFromExpr(p, r, env))]
      case NParallel(l, r, sync) => Transitions(p, Par(sync, StateFromExpr(p, l, env), StateFromExpr(p, r, env)))
      case NHide(inner, hidden) => Transitions(p, Hid(hidden, StateFromExpr(p, inner, env)))
  }
}
