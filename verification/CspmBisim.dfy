/** The system that a module compiles to does what its source says: the states of the one
    and the processes of the other simulate each other, from the entry on. */
module CspmBisim {
  import opened Options
  import opened CspmSyntax
  import opened CspmCompile
  import opened CspmStep
  import opened CspmSearch
  import opened CspmProvider
  import opened CspmSource
  import opened Numerals
  import CspmHide
  import CspmRecursion
  import CspmRules
  import Lts

  // ------------------------------------------------------------------ labels

  lemma SaysIsLabel(a: string, ch: string, v: U64)
    ensures Says(a, ch, v) <==> a == EventLabel(ch, v)
  {
    DecimalIsNumeral(v);
    if numeral :| IsNumeral(numeral, v) && a == ch + "." + numeral { NumeralIsDecimal(numeral, v); }
  }

  lemma ChannelIs(a: string, ch: string)
    requires '.' !in ch && (a == ch || ch + "." <= a)
    ensures LabelChannel(a) == ch
  {
    var rest := a[|ch|..];
    assert a == ch + rest;
    CspmRules.ChannelOfLabel(ch, rest);
  }

  lemma OnIsSync(a: string, names: set<string>)
    ensures On(a, names) <==> IsSync(names, a)
  {
    hide LabelChannel;
    ChannelStarts(a);
    if ch :| ch in names && '.' !in ch && (a == ch || ch + "." <= a) { ChannelIs(a, ch); }
  }

  /** The channel of a label has no dot, and the label goes on with one or ends. */
  lemma {:induction false} ChannelStarts(a: string)
    ensures var ch := LabelChannel(a); '.' !in ch && (a == ch || ch + "." <= a)
  {
    if a != [] && a[0] != '.' {
      ChannelStarts(a[1..]);
      assert a == [a[0]] + a[1..];
    }
  }

  // ------------------------------------------------------------------ events

  ghost predicate ChannelsOf(m: Module, p: Program) {
    ChannelFacts(m.channels, p.channels)
  }

  lemma CarriedIsInRange(m: Module, p: Program, ch: string, v: U64)
    requires ChannelsOf(m, p)
    ensures Carries(m.channels, ch, v) <==> ch in p.channels && p.channels[ch].IntRange? && p.channels[ch].min <= v <= p.channels[ch].max
  {
    hide Declares;
  }

  /** The compiled event can happen as the source event does. */
  lemma OccursAsCompiled(m: Module, p: Program, event: Event, env: Env, a: string, env': Env)
    requires ChannelsOf(m, p) && CompileEventPat(event).Some?
    ensures Occurs(m, event, env, a, env') <==> (a, env') in EvalEvent(p.channels, CompileEventPat(event).value, env)
  {
    CspmRules.EvalsWhatHappens(p.channels, CompileEventPat(event).value, env, a, env');
    hide EvalEvent, Says, EventLabel, ChannelsOf;
    forall v: U64 ensures Says(a, event.channel, v) <==> a == EventLabel(event.channel, v) { SaysIsLabel(a, event.channel, v); }
    match event.seg {
      case Some(In(Bind(x))) => BindsAsCompiled(m, p, event, x, env, a, env');
      case _ =>
    }
  }

  lemma BindsAsCompiled(m: Module, p: Program, event: Event, x: string, env: Env, a: string, env': Env)
    requires ChannelsOf(m, p) && event.seg == Some(In(Bind(x)))
    ensures Occurs(m, event, env, a, env') <==> CspmRules.Happens(p.channels, PInBind(event.channel, x), env, a, env')
  {
    hide Says, Carries, EventLabel, ChannelsOf;
    var ch := event.channel;
    forall v: U64
      ensures Says(a, ch, v) <==> a == EventLabel(ch, v)
      ensures Carries(m.channels, ch, v) <==> ch in p.channels && p.channels[ch].IntRange? && p.channels[ch].min <= v <= p.channels[ch].max
    {
      SaysIsLabel(a, ch, v);
      CarriedIsInRange(m, p, ch, v);
    }
    if Occurs(m, event, env, a, env') {
      var v: U64 :| Carries(m.channels, ch, v) && Says(a, ch, v) && env' == env[x := v];
      assert env'[x] == v;
    }
    if CspmRules.Happens(p.channels, PInBind(ch, x), env, a, env') {
      assert Carries(m.channels, ch, env'[x]) && Says(a, ch, env'[x]) && env' == env[x := env'[x]];
    }
  }

  /** What is offered for an event with a payload is the channel and, after a dot, a value
      in decimal: the one it outputs, or for an input one in the range of its channel. */
  lemma OffersSay(channels: Channels, e: EventPat, env: Env, a: string, env': Env) returns (v: U64)
    requires !e.PUnit? && (a, env') in EvalEvent(channels, e, env)
    ensures Says(a, e.channel, v)
    ensures match e
            case PInt(_, value) => v == value
            case PInConst(_, value) => v == value
            case POutVar(_, x) => x in env && v == env[x]
            case PInBind(ch, x) => ch in channels && channels[ch].IntRange? && channels[ch].min <= v <= channels[ch].max && env' == env[x := v]
            case PUnit(_) => true
  {
    CspmRules.EvalsWhatHappens(channels, e, env, a, env');
    match e
    case PInt(_, value) => v := value; SaysIsLabel(a, e.channel, v);
    case PInConst(_, value) => v := value; SaysIsLabel(a, e.channel, v);
    case POutVar(_, x) => v := env[x]; SaysIsLabel(a, e.channel, v);
    case PInBind(_, x) => v := env'[x]; SaysIsLabel(a, e.channel, v);
  }

  // ------------------------------------------------------- states and processes

  /** The state is what is built for the process, with at most `n` nested calls. */
  ghost predicate MeansN(p: Program, ids: map<string, nat>, q: Config, s: State, n: nat)
    requires WellFormed(p)
  {
    match q
    case Proc(e, env) => exists id: nat :: Stands(p.exprs, id, e, ids) && BuildN(p, id, env, n) == Some(s)
    case Together(sync, l, r) => s.Par? && s.sync == sync && MeansN(p, ids, l, s.left, n) && MeansN(p, ids, r, s.right, n)
    case Hiding(hidden, inner) => exists t :: s == MakeHide(hidden, t) && MeansN(p, ids, inner, t, n)
  }

  ghost predicate Means(p: Program, ids: map<string, nat>, q: Config, s: State)
    requires WellFormed(p)
  {
    exists n: nat :: MeansN(p, ids, q, s, n)
  }

  lemma {:induction false} MeansMore(p: Program, ids: map<string, nat>, q: Config, s: State, n: nat, k: nat)
    requires WellFormed(p) && MeansN(p, ids, q, s, n) && n <= k
    ensures MeansN(p, ids, q, s, k)
  {
    match q
    case Proc(e, env) =>
      var id: nat :| Stands(p.exprs, id, e, ids) && BuildN(p, id, env, n) == Some(s);
      BuildMore(p, id, env, n, k);
    case Together(_, l, r) =>
      MeansMore(p, ids, l, s.left, n, k);
      MeansMore(p, ids, r, s.right, n, k);
    case Hiding(hidden, inner) =>
      var t :| s == MakeHide(hidden, t) && MeansN(p, ids, inner, t, n);
      MeansMore(p, ids, inner, t, n, k);
  }

  lemma MeansTogether(p: Program, ids: map<string, nat>, sync: set<string>, l: Config, r: Config, s: State, t: State)
    requires WellFormed(p) && Means(p, ids, l, s) && Means(p, ids, r, t)
    ensures Means(p, ids, Together(sync, l, r), Par(sync, s, t))
  {
    hide WellFormed;
    var n: nat :| MeansN(p, ids, l, s, n);
    var k: nat :| MeansN(p, ids, r, t, k);
    MeansMore(p, ids, l, s, n, n + k);
    MeansMore(p, ids, r, t, k, n + k);
    assert MeansN(p, ids, Together(sync, l, r), Par(sync, s, t), n + k);
  }

  lemma MeansApart(p: Program, ids: map<string, nat>, q: Config, s: State)
    requires WellFormed(p) && q.Together? && Means(p, ids, q, s)
    ensures s.Par? && s.sync == q.sync && Means(p, ids, q.left, s.left) && Means(p, ids, q.right, s.right)
  {
    var n: nat :| MeansN(p, ids, q, s, n);
    assert MeansN(p, ids, q.left, s.left, n) && MeansN(p, ids, q.right, s.right, n);
  }

  lemma MeansHiding(p: Program, ids: map<string, nat>, hidden: set<string>, q: Config, t: State)
    requires WellFormed(p) && Means(p, ids, q, t)
    ensures Means(p, ids, Hiding(hidden, q), MakeHide(hidden, t))
  {
    var n: nat :| MeansN(p, ids, q, t, n);
    assert MeansN(p, ids, Hiding(hidden, q), MakeHide(hidden, t), n);
  }

  lemma MeansBuilt(p: Program, ids: map<string, nat>, e: Process, env: Env, id: nat, n: nat, s: State)
    requires WellFormed(p) && Stands(p.exprs, id, e, ids) && BuildN(p, id, env, n) == Some(s)
    ensures Means(p, ids, Proc(e, env), s)
  {
    assert MeansN(p, ids, Proc(e, env), s, n);
  }

  /** Some step of the state answers the step of the process. */
  ghost predicate Answered(p: Program, ids: map<string, nat>, steps: Steps, a: string, q': Config)
    requires WellFormed(p)
  {
    exists t :: (a, t) in steps && Means(p, ids, q', t)
  }

  /** Some step of the process answers the step of the state. */
  ghost predicate Explained(m: Module, p: Program, ids: map<string, nat>, q: Config, a: string, t: State)
    requires WellFormed(p)
  {
    exists q' :: Step(m, q, a, q') && Means(p, ids, q', t)
  }

  /** The steps are those of the process, up to what the states mean. */
  ghost predicate Matched(m: Module, p: Program, ids: map<string, nat>, q: Config, steps: Steps)
    requires WellFormed(p)
  {
    && (forall a, q' | Step(m, q, a, q') :: Answered(p, ids, steps, a, q'))
    && forall a, t | (a, t) in steps :: Explained(m, p, ids, q, a, t)
  }

  lemma SameStepsMatch(m: Module, p: Program, ids: map<string, nat>, q: Config, via: Config, steps: Steps)
    requires WellFormed(p) && Matched(m, p, ids, via, steps) && forall a, q' :: Step(m, q, a, q') <==> Step(m, via, a, q')
    ensures Matched(m, p, ids, q, steps)
  {
    hide WellFormed, Step, Means;
    forall a, t | (a, t) in steps ensures Explained(m, p, ids, q, a, t) {
      assert Explained(m, p, ids, via, a, t);
    }
  }

  // ---------------------------------------------- the steps of compound states

  lemma TogetherMatches(m: Module, p: Program, ids: map<string, nat>, q: Config, s: State, lefts: Steps, rights: Steps)
    requires WellFormed(p) && q.Together? && Means(p, ids, q, s) && s.Par?
    requires Matched(m, p, ids, q.left, lefts) && Matched(m, p, ids, q.right, rights)
    ensures Matched(m, p, ids, q, ParSteps(s.sync, s.left, s.right, lefts, rights))
  {
    MeansApart(p, ids, q, s);
    hide WellFormed, Means, Step, On, IsSync, LeftSteps, RightSteps;
    var steps := ParSteps(s.sync, s.left, s.right, lefts, rights);
    forall a, q' | Step(m, q, a, q') ensures Answered(p, ids, steps, a, q') {
      TogetherAnswers(m, p, ids, q, s, lefts, rights, a, q');
    }
    forall a, t | (a, t) in steps ensures Explained(m, p, ids, q, a, t) {
      TogetherExplains(m, p, ids, q, s, lefts, rights, a, t);
    }
  }

  lemma InParSteps(sync: set<string>, left: State, right: State, lefts: Steps, rights: Steps, a: Label, t: State)
    ensures (a, t) in ParSteps(sync, left, right, lefts, rights) <==>
              && t.Par? && t.sync == sync
              && if On(a, sync) then (a, t.left) in lefts && (a, t.right) in rights
                 else ((a, t.left) in lefts && t.right == right) || (t.left == left && (a, t.right) in rights)
  {
    OnIsSync(a, sync);
    CspmRules.LeftStepsExact(sync, right, lefts, rights, a, t);
    CspmRules.RightStepsExact(sync, left, rights, a, t);
  }

  lemma TogetherAnswers(m: Module, p: Program, ids: map<string, nat>, q: Config, s: State, lefts: Steps, rights: Steps, a: string, q': Config)
    requires WellFormed(p) && q.Together? && s.Par? && s.sync == q.sync && Means(p, ids, q.left, s.left) && Means(p, ids, q.right, s.right)
    requires Matched(m, p, ids, q.left, lefts) && Matched(m, p, ids, q.right, rights) && Step(m, q, a, q')
    ensures Answered(p, ids, ParSteps(s.sync, s.left, s.right, lefts, rights), a, q')
  {
    hide WellFormed, Means, Step, On, ParSteps;
    TogetherStep(m, q.sync, q.left, q.right, a, q');
    var l, r := s.left, s.right;
    if On(a, q.sync) {
      assert Answered(p, ids, lefts, a, q'.left) && Answered(p, ids, rights, a, q'.right);
      l :| (a, l) in lefts && Means(p, ids, q'.left, l);
      r :| (a, r) in rights && Means(p, ids, q'.right, r);
    } else if Step(m, q.left, a, q'.left) && q'.right == q.right {
      assert Answered(p, ids, lefts, a, q'.left);
      l :| (a, l) in lefts && Means(p, ids, q'.left, l);
    } else {
      assert Answered(p, ids, rights, a, q'.right);
      r :| (a, r) in rights && Means(p, ids, q'.right, r);
    }
    InParSteps(s.sync, s.left, s.right, lefts, rights, a, Par(s.sync, l, r));
    MeansTogether(p, ids, q.sync, q'.left, q'.right, l, r);
    assert q' == Together(q.sync, q'.left, q'.right);
  }

  lemma TogetherExplains(m: Module, p: Program, ids: map<string, nat>, q: Config, s: State, lefts: Steps, rights: Steps, a: string, t: State)
    requires WellFormed(p) && q.Together? && s.Par? && s.sync == q.sync && Means(p, ids, q.left, s.left) && Means(p, ids, q.right, s.right)
    requires Matched(m, p, ids, q.left, lefts) && Matched(m, p, ids, q.right, rights)
    requires (a, t) in ParSteps(s.sync, s.left, s.right, lefts, rights)
    ensures Explained(m, p, ids, q, a, t)
  {
    hide WellFormed, Means, Step, On, ParSteps;
    InParSteps(s.sync, s.left, s.right, lefts, rights, a, t);
    var l, r := q.left, q.right;
    if On(a, q.sync) {
      assert Explained(m, p, ids, q.left, a, t.left) && Explained(m, p, ids, q.right, a, t.right);
      l :| Step(m, q.left, a, l) && Means(p, ids, l, t.left);
      r :| Step(m, q.right, a, r) && Means(p, ids, r, t.right);
    } else if (a, t.left) in lefts && t.right == s.right {
      assert Explained(m, p, ids, q.left, a, t.left);
      l :| Step(m, q.left, a, l) && Means(p, ids, l, t.left);
    } else {
      assert Explained(m, p, ids, q.right, a, t.right);
      r :| Step(m, q.right, a, r) && Means(p, ids, r, t.right);
    }
    TogetherStep(m, q.sync, q.left, q.right, a, Together(q.sync, l, r));
    MeansTogether(p, ids, q.sync, l, r, t.left, t.right);
    assert t == Par(q.sync, t.left, t.right);
  }

  lemma InHideSteps(hidden: set<string>, inners: Steps, a: Label, t: State)
    ensures (a, t) in HideSteps(hidden, inners) <==>
            exists b, t' :: (b, t') in inners && a == (if On(b, hidden) then "tau" else b) && t == MakeHide(hidden, t')
  {
    CspmRules.HideStepsExact(hidden, inners, a, t);
    forall b ensures Relabel(hidden, b) == if On(b, hidden) then "tau" else b { OnIsSync(b, hidden); }
    hide Relabel, On, MakeHide;
  }

  lemma HidingMatches(m: Module, p: Program, ids: map<string, nat>, hidden: set<string>, q: Config, inners: Steps)
    requires WellFormed(p) && Matched(m, p, ids, q, inners)
    ensures Matched(m, p, ids, Hiding(hidden, q), HideSteps(hidden, inners))
  {
    forall a, q' | Step(m, Hiding(hidden, q), a, q') ensures Answered(p, ids, HideSteps(hidden, inners), a, q') {
      HidingAnswers(m, p, ids, hidden, q, inners, a, q');
    }
    forall a, t | (a, t) in HideSteps(hidden, inners) ensures Explained(m, p, ids, Hiding(hidden, q), a, t) {
      HidingExplains(m, p, ids, hidden, q, inners, a, t);
    }
    hide *;
    MakeMatched(m, p, ids, Hiding(hidden, q), HideSteps(hidden, inners));
  }

  lemma MakeMatched(m: Module, p: Program, ids: map<string, nat>, q: Config, steps: Steps)
    requires WellFormed(p)
    requires forall a, q' | Step(m, q, a, q') :: Answered(p, ids, steps, a, q')
    requires forall a, t | (a, t) in steps :: Explained(m, p, ids, q, a, t)
    ensures Matched(m, p, ids, q, steps)
  {
    hide WellFormed, Step, Answered, Explained;
  }

  lemma HidingAnswers(m: Module, p: Program, ids: map<string, nat>, hidden: set<string>, q: Config, inners: Steps, a: string, q': Config)
    requires WellFormed(p) && Matched(m, p, ids, q, inners) && Step(m, Hiding(hidden, q), a, q')
    ensures Answered(p, ids, HideSteps(hidden, inners), a, q')
  {
    hide WellFormed, Means, Step, On, HideSteps, MakeHide;
    HidingStep(m, hidden, q, a, q');
    var b :| Step(m, q, b, q'.inner) && a == if On(b, hidden) then "tau" else b;
    assert Answered(p, ids, inners, b, q'.inner);
    var t :| (b, t) in inners && Means(p, ids, q'.inner, t);
    InHideSteps(hidden, inners, a, MakeHide(hidden, t));
    MeansHiding(p, ids, hidden, q'.inner, t);
    assert q' == Hiding(hidden, q'.inner);
  }

  lemma HidingExplains(m: Module, p: Program, ids: map<string, nat>, hidden: set<string>, q: Config, inners: Steps, a: string, t: State)
    requires WellFormed(p) && Matched(m, p, ids, q, inners) && (a, t) in HideSteps(hidden, inners)
    ensures Explained(m, p, ids, Hiding(hidden, q), a, t)
  {
    hide WellFormed, Means, Step, On, HideSteps, MakeHide;
    InHideSteps(hidden, inners, a, t);
    var b, t' :| (b, t') in inners && a == (if On(b, hidden) then "tau" else b) && t == MakeHide(hidden, t');
    assert Explained(m, p, ids, q, b, t');
    var q' :| Step(m, q, b, q') && Means(p, ids, q', t');
    HidingStep(m, hidden, q, a, Hiding(hidden, q'));
    MeansHiding(p, ids, hidden, q', t');
  }

  // -------------------------------------------------- the steps of expressions

  /** Where an expression stands, its parts stand at the children. */
  lemma PartsStand(exprs: seq<ExprNode>, id: nat, e: Process, ids: map<string, nat>)
    requires Stands(exprs, id, e, ids)
    ensures ChildrenBelow(exprs[id], id)
    ensures match e
            case Stop => exprs[id] == NStop
            case Ref(x) => x in ids && exprs[id] == NRef(ids[x])
            case Prefix(event, next) =>
              exprs[id].NPrefix? && CompileEventPat(event) == Some(exprs[id].event) && Stands(exprs, exprs[id].next, next, ids)
            case Choice(External, l, r) => exprs[id].NExternal? && Stands(exprs, exprs[id].left, l, ids) && Stands(exprs, exprs[id].right, r, ids)
            case Choice(Internal, l, r) => exprs[id].NInternal? && Stands(exprs, exprs[id].left, l, ids) && Stands(exprs, exprs[id].right, r, ids)
            case Parallel(kind, l, r, sync) =>
              && exprs[id].NParallel? && Stands(exprs, exprs[id].left, l, ids) && Stands(exprs, exprs[id].right, r, ids)
              && (kind == Interface ==> sync.Some?) && exprs[id].sync == if kind == Interface then NamesOf(sync.value) else {}
            case Hide(inner, hidden) => exprs[id].NHide? && Stands(exprs, exprs[id].inner, inner, ids) && exprs[id].hidden == NamesOf(hidden)
  {
    hide CompileEventPat;
    assert ChildrenBelow(exprs[id], id);
  }

  lemma StopMatches(m: Module, p: Program, ids: map<string, nat>, env: Env)
    requires WellFormed(p)
    ensures Matched(m, p, ids, Proc(Stop, env), [])
  {
    forall a, q' ensures !Step(m, Proc(Stop, env), a, q') {}
  }

  lemma {:induction false} InPrefixSteps(p: Program, next: nat, outcomes: seq<(Label, Env)>, depth: nat, a: Label, t: State)
    requires WellFormed(p) && next < |p.exprs| && PrefixStepsN(p, next, outcomes, depth).Some?
    ensures (a, t) in PrefixStepsN(p, next, outcomes, depth).value
       <==> exists env :: (a, env) in outcomes && BuildN(p, next, env, depth) == Some(t)
  {
    hide WellFormed, BuildN;
    if outcomes != [] {
      InPrefixSteps(p, next, outcomes[1..], depth, a, t);
      assert outcomes == [outcomes[0]] + outcomes[1..];
      var rest := PrefixStepsN(p, next, outcomes[1..], depth).value;
      if (a, t) in rest {
        var env :| (a, env) in outcomes[1..] && BuildN(p, next, env, depth) == Some(t);
        assert (a, env) in outcomes;
      }
      if env :| (a, env) in outcomes && BuildN(p, next, env, depth) == Some(t) {
        if (a, env) != outcomes[0] { assert (a, env) in outcomes[1..]; }
      }
      assert (outcomes[0].0, outcomes[0].1) in outcomes;
    }
  }

  lemma {:induction false} PrefixBuilds(p: Program, next: nat, outcomes: seq<(Label, Env)>, depth: nat, o: (Label, Env))
    requires WellFormed(p) && next < |p.exprs| && PrefixStepsN(p, next, outcomes, depth).Some? && o in outcomes
    ensures BuildN(p, next, o.1, depth).Some?
  {
    hide WellFormed, BuildN;
    if o != outcomes[0] { PrefixBuilds(p, next, outcomes[1..], depth, o); }
  }

  lemma PrefixMatches(m: Module, p: Program, ids: map<string, nat>, event: Event, next: Process, pat: EventPat, id: nat, env: Env, depth: nat)
    requires WellFormed(p) && ChannelsOf(m, p) && CompileEventPat(event) == Some(pat) && Stands(p.exprs, id, next, ids)
    requires PrefixStepsN(p, id, EvalEvent(p.channels, pat, env), depth).Some?
    ensures Matched(m, p, ids, Proc(Prefix(event, next), env), PrefixStepsN(p, id, EvalEvent(p.channels, pat, env), depth).value)
  {
    assert id < |p.exprs|;
    hide WellFormed, Means, Step, Occurs, EvalEvent, BuildN, PrefixStepsN, Stands, CompileEventPat, ChannelsOf;
    var q, outcomes := Proc(Prefix(event, next), env), EvalEvent(p.channels, pat, env);
    var steps := PrefixStepsN(p, id, outcomes, depth).value;
    forall a, q' | Step(m, q, a, q') ensures Answered(p, ids, steps, a, q') {
      PrefixStep(m, event, next, env, a, q');
      OccursAsCompiled(m, p, event, env, a, q'.env);
      PrefixBuilds(p, id, outcomes, depth, (a, q'.env));
      var t := BuildN(p, id, q'.env, depth).value;
      InPrefixSteps(p, id, outcomes, depth, a, t);
      MeansBuilt(p, ids, next, q'.env, id, depth, t);
      assert q' == Proc(next, q'.env);
    }
    forall a, t | (a, t) in steps ensures Explained(m, p, ids, q, a, t) {
      InPrefixSteps(p, id, outcomes, depth, a, t);
      var env' :| (a, env') in outcomes && BuildN(p, id, env', depth) == Some(t);
      OccursAsCompiled(m, p, event, env, a, env');
      PrefixStep(m, event, next, env, a, Proc(next, env'));
      MeansBuilt(p, ids, next, env', id, depth, t);
    }
  }

  lemma MoreStepsAnswer(p: Program, ids: map<string, nat>, some: Steps, steps: Steps, a: string, q': Config)
    requires WellFormed(p) && Answered(p, ids, some, a, q') && forall e | e in some :: e in steps
    ensures Answered(p, ids, steps, a, q')
  {
    hide WellFormed, Means;
  }

  lemma MoreStepsExplain(m: Module, p: Program, ids: map<string, nat>, via: Config, q: Config, a: string, t: State)
    requires WellFormed(p) && Explained(m, p, ids, via, a, t) && forall q' | Step(m, via, a, q') :: Step(m, q, a, q')
    ensures Explained(m, p, ids, q, a, t)
  {
    hide WellFormed, Means, Step;
  }

  lemma ExternalMatches(m: Module, p: Program, ids: map<string, nat>, l: Process, r: Process, env: Env, lefts: Steps, rights: Steps)
    requires WellFormed(p) && Matched(m, p, ids, Proc(l, env), lefts) && Matched(m, p, ids, Proc(r, env), rights)
    ensures Matched(m, p, ids, Proc(Choice(External, l, r), env), lefts + rights)
  {
    hide WellFormed, Answered, Explained, Step;
    var q := Proc(Choice(External, l, r), env);
    forall a, q' ensures Step(m, q, a, q') <==> Step(m, Proc(l, env), a, q') || Step(m, Proc(r, env), a, q') {
      ExternalStep(m, l, r, env, a, q');
    }
    forall a, q' | Step(m, q, a, q') ensures Answered(p, ids, lefts + rights, a, q') {
      MoreStepsAnswer(p, ids, if Step(m, Proc(l, env), a, q') then lefts else rights, lefts + rights, a, q');
    }
    forall a, t | (a, t) in lefts + rights ensures Explained(m, p, ids, q, a, t) {
      MoreStepsExplain(m, p, ids, if (a, t) in lefts then Proc(l, env) else Proc(r, env), q, a, t);
    }
  }

  lemma InternalMatches(m: Module, p: Program, ids: map<string, nat>, l: Process, r: Process, env: Env, s: State, t: State)
    requires WellFormed(p) && Means(p, ids, Proc(l, env), s) && Means(p, ids, Proc(r, env), t)
    ensures Matched(m, p, ids, Proc(Choice(Internal, l, r), env), [(Lts.TAU, s), (Lts.TAU, t)])
  {
    hide WellFormed, Means, Step;
    var q, steps := Proc(Choice(Internal, l, r), env), [(Lts.TAU, s), (Lts.TAU, t)];
    assert (Lts.TAU, s) in steps && (Lts.TAU, t) in steps;
    forall a, q' ensures Step(m, q, a, q') <==> a == "tau" && (q' == Proc(l, env) || q' == Proc(r, env)) {
      InternalStep(m, l, r, env, a, q');
    }
  }

  // ------------------------------------------------------------ references

  /** A reference to `x` does what the expression does. */
  ghost predicate DoesAs(m: Module, x: string, e: Process) {
    forall env, a, q' :: Step(m, Proc(Ref(x), env), a, q') <==> Step(m, Proc(e, map[]), a, q')
  }

  lemma DoesAsBody(m: Module, x: string, d: ProcessDecl)
    requires DistinctNames(m.declarations) && d in m.declarations && d.name == x
    ensures DoesAs(m, x, d.expr)
  {
    hide Step, DistinctNames;
    forall env, a, q' ensures Step(m, Proc(Ref(x), env), a, q') <==> Step(m, Proc(d.expr, map[]), a, q') {
      ReferenceStep(m, x, env, d, a, q');
    }
  }

  lemma DoesAsThrough(m: Module, x: string, y: string, e: Process)
    requires DoesAs(m, x, Ref(y)) && DoesAs(m, y, e)
    ensures DoesAs(m, x, e)
  {
    hide Step;
    forall env, a, q' ensures Step(m, Proc(Ref(x), env), a, q') <==> Step(m, Proc(e, map[]), a, q') {
      assert Step(m, Proc(Ref(x), env), a, q') <==> Step(m, Proc(Ref(y), map[]), a, q');
    }
  }

  /** A reference does what the body does at which its chain of references ends. */
  lemma {:induction false} RefEnds(m: Module, p: Program, ids: map<string, nat>, roots: seq<nat>, x: string, n: nat) returns (d: ProcessDecl)
    requires CspmRecursion.Compilation(m, p, ids, roots) && x in ids && DistinctNames(m.declarations)
    requires !p.exprs[Follow(p.exprs, roots, roots[ids[x]], n)].NRef?
    ensures Stands(p.exprs, CspmRecursion.EndOf(p, ids, roots, x), d.expr, ids) && DoesAs(m, x, d.expr)
    decreases n
  {
    hide Step, Stands, WellFormed, DoesAs, Follow, DistinctNames;
    d := RootOf(m, p.channels, p.exprs, ids, roots, p.initial, x);
    DoesAsBody(m, x, d);
    RefOrEnd(m, p, ids, roots, x, d);
    if d.expr.Ref? {
      var y := d.expr.name;
      RefFollowed(m, p, ids, roots, x, y, n);
      d := RefEnds(m, p, ids, roots, y, n - 1);
      DoesAsThrough(m, x, y, d.expr);
    }
  }

  /** A body that is a reference ends where that one ends, any other at itself. */
  lemma RefOrEnd(m: Module, p: Program, ids: map<string, nat>, roots: seq<nat>, x: string, d: ProcessDecl)
    requires CspmRecursion.Compilation(m, p, ids, roots) && x in ids && d.name == x && RootAt(p.exprs, roots, d, ids)
    ensures if d.expr.Ref? then
              d.expr.name in ids && p.exprs[roots[ids[x]]] == NRef(ids[d.expr.name])
              && CspmRecursion.EndOf(p, ids, roots, x) == CspmRecursion.EndOf(p, ids, roots, d.expr.name)
            else Stands(p.exprs, CspmRecursion.EndOf(p, ids, roots, x), d.expr, ids)
  {
    hide Compiled;
    PartsStand(p.exprs, roots[ids[x]], d.expr, ids);
    CspmRecursion.ResolvedAlike(m, p, ids, roots, roots[ids[x]]);
  }

  lemma RefFollowed(m: Module, p: Program, ids: map<string, nat>, roots: seq<nat>, x: string, y: string, n: nat)
    requires CspmRecursion.Compilation(m, p, ids, roots) && x in ids && y in ids && p.exprs[roots[ids[x]]] == NRef(ids[y])
    requires !p.exprs[Follow(p.exprs, roots, roots[ids[x]], n)].NRef?
    ensures n > 0 && !p.exprs[Follow(p.exprs, roots, roots[ids[y]], n - 1)].NRef?
  {
    hide Compiled;
    assert n > 0;
    FollowOne(p.exprs, roots, roots[ids[x]], n - 1);
  }

  lemma RefMeans(m: Module, p: Program, ids: map<string, nat>, roots: seq<nat>, x: string, env: Env, s: State, id: nat, n: nat)
    returns (d: ProcessDecl)
    requires CspmRecursion.Compilation(m, p, ids, roots) && DistinctNames(m.declarations)
    requires Stands(p.exprs, id, Ref(x), ids) && BuildN(p, id, env, n) == Some(s)
    ensures n > 0 && MeansN(p, ids, Proc(d.expr, map[]), s, n - 1) && DoesAs(m, x, d.expr)
  {
    PartsStand(p.exprs, id, Ref(x), ids);
    hide Compiled, Step, Stands;
    CspmRecursion.ResolvedAlike(m, p, ids, roots, id);
    var k := CspmRecursion.ChainLength(m, p, ids, roots, roots[ids[x]]);
    CspmRecursion.EndIsNoReference(m, p, ids, roots, roots[ids[x]]);
    d := RefEnds(m, p, ids, roots, x, k);
  }

  // ---------------------------------------------------------- the theorem

  /** The searched steps of a state are those of the process it means. */
  lemma {:induction false} StepsMatch(m: Module, p: Program, ids: map<string, nat>, roots: seq<nat>, q: Config, s: State, n: nat, depth: nat)
    requires CspmRecursion.Compilation(m, p, ids, roots) && DistinctNames(m.declarations) && ChannelsOf(m, p)
    requires MeansN(p, ids, q, s, n) && Tabled(p, s) && SearchN(p, s, depth).Some?
    ensures Matched(m, p, ids, q, SearchN(p, s, depth).value)
    decreases depth, n, q, 2
  {
    hide CspmRecursion.Compilation, DistinctNames, ChannelsOf, Matched, Step, WellFormed, Compiled;
    assert WellFormed(p) by { CompilationIsWellFormed(m, p, ids, roots); }
    match q {
      case Proc(e, env) =>
        var id: nat :| Stands(p.exprs, id, e, ids) && BuildN(p, id, env, n) == Some(s);
        ProcessMatches(m, p, ids, roots, e, env, id, s, n, depth);
      case Together(_, l, r) =>
        MeansMore(p, ids, q, s, n, n);
        assert Means(p, ids, q, s);
        StepsMatch(m, p, ids, roots, l, s.left, n, depth - 1);
        StepsMatch(m, p, ids, roots, r, s.right, n, depth - 1);
        TogetherMatches(m, p, ids, q, s, SearchN(p, s.left, depth - 1).value, SearchN(p, s.right, depth - 1).value);
      case Hiding(hidden, inner) =>
        var t :| s == MakeHide(hidden, t) && MeansN(p, ids, inner, t, n);
        HiddenMatches(m, p, ids, roots, hidden, inner, t, n, depth);
    }
  }

  lemma CompilationIsWellFormed(m: Module, p: Program, ids: map<string, nat>, roots: seq<nat>)
    requires CspmRecursion.Compilation(m, p, ids, roots)
    ensures WellFormed(p)
  {}

  lemma {:induction false} HiddenMatches(m: Module, p: Program, ids: map<string, nat>, roots: seq<nat>, hidden: set<string>, q: Config, t: State,
                                         n: nat, depth: nat)
    requires CspmRecursion.Compilation(m, p, ids, roots) && DistinctNames(m.declarations) && ChannelsOf(m, p)
    requires MeansN(p, ids, q, t, n) && Tabled(p, MakeHide(hidden, t)) && SearchN(p, MakeHide(hidden, t), depth).Some?
    ensures Matched(m, p, ids, Hiding(hidden, q), SearchN(p, MakeHide(hidden, t), depth).value)
    decreases depth, n, Hiding(hidden, q), 1
  {
    hide CspmRecursion.Compilation, DistinctNames, ChannelsOf, Matched, Step, WellFormed, HideSteps;
    assert WellFormed(p) by { CompilationIsWellFormed(m, p, ids, roots); }
    var k, inners := SearchedInside(p, hidden, t, depth);
    StepsMatch(m, p, ids, roots, q, t, n, k);
    HidingMatches(m, p, ids, hidden, q, inners);
  }

  /** The steps of a merged hiding come from a search of what is hidden. */
  lemma SearchedInside(p: Program, hidden: set<string>, t: State, depth: nat) returns (k: nat, inners: Steps)
    requires WellFormed(p) && Tabled(p, MakeHide(hidden, t)) && SearchN(p, MakeHide(hidden, t), depth).Some?
    ensures k <= depth && Tabled(p, t) && SearchN(p, t, k) == Some(inners)
    ensures SearchN(p, MakeHide(hidden, t), depth).value == HideSteps(hidden, inners)
  {
    hide WellFormed;
    if hidden == {} {
      k, inners := depth, SearchN(p, t, depth).value;
      CspmHide.HideNothing(inners);
    } else if t.Hid? {
      k, inners := depth, HideSteps(t.hidden, SearchN(p, t.inner, depth - 1).value);
      CspmHide.HideStepsTwice(hidden, t.hidden, SearchN(p, t.inner, depth - 1).value);
    } else {
      k, inners := depth - 1, SearchN(p, t, depth - 1).value;
    }
  }

  lemma {:induction false} ProcessMatches(m: Module, p: Program, ids: map<string, nat>, roots: seq<nat>, e: Process, env: Env, id: nat, s: State,
                                          n: nat, depth: nat)
    requires CspmRecursion.Compilation(m, p, ids, roots) && DistinctNames(m.declarations) && ChannelsOf(m, p)
    requires WellFormed(p) && Stands(p.exprs, id, e, ids) && BuildN(p, id, env, n) == Some(s) && Tabled(p, s) && SearchN(p, s, depth).Some?
    ensures Matched(m, p, ids, Proc(e, env), SearchN(p, s, depth).value)
    decreases depth, n, Proc(e, env), 1
  {
    PartsStand(p.exprs, id, e, ids);
    BuiltAsItIs(p, id, env, s, n);
    hide CspmRecursion.Compilation, DistinctNames, ChannelsOf, Matched, Step, Stands, CompileEventPat, EvalEvent, Compiled, SearchN, BuildN, WellFormed;
    match e {
      case Stop => StopMatchesSearch(m, p, ids, env, id, depth);
      case Ref(x) => ReferenceMatches(m, p, ids, roots, x, env, id, s, n, depth);
      case Prefix(event, next) => PrefixMatchesSearch(m, p, ids, event, next, env, id, depth);
      case Choice(External, l, r) => ChoiceMatches(m, p, ids, roots, l, r, env, id, depth);
      case Choice(Internal, l, r) => InternalChoiceMatches(m, p, ids, l, r, env, id, depth);
      case Parallel(kind, l, r, sync) => ParallelMatches(m, p, ids, roots, kind, l, r, sync, env, id, s, n, depth);
      case Hide(inner, hidden) => HideMatches(m, p, ids, roots, inner, hidden, env, id, s, n, depth);
    }
  }

  lemma BuiltAsItIs(p: Program, id: nat, env: Env, s: State, n: nat)
    requires WellFormed(p) && id < |p.exprs| && BuildN(p, id, env, n) == Some(s)
    ensures n > 0 && (p.exprs[id].NRef? || p.exprs[id].NParallel? || p.exprs[id].NHide? || s == Expr(id, env))
  {}

  lemma StopMatchesSearch(m: Module, p: Program, ids: map<string, nat>, env: Env, id: nat, depth: nat)
    requires WellFormed(p) && id < |p.exprs| && p.exprs[id] == NStop && SearchN(p, Expr(id, env), depth).Some?
    ensures Matched(m, p, ids, Proc(Stop, env), SearchN(p, Expr(id, env), depth).value)
  {
    hide Matched;
    StopMatches(m, p, ids, env);
  }

  lemma PrefixMatchesSearch(m: Module, p: Program, ids: map<string, nat>, event: Event, next: Process, env: Env, id: nat, depth: nat)
    requires WellFormed(p) && ChannelsOf(m, p) && id < |p.exprs| && p.exprs[id].NPrefix? && SearchN(p, Expr(id, env), depth).Some?
    requires CompileEventPat(event) == Some(p.exprs[id].event) && Stands(p.exprs, p.exprs[id].next, next, ids)
    ensures Matched(m, p, ids, Proc(Prefix(event, next), env), SearchN(p, Expr(id, env), depth).value)
  {
    hide Matched, Stands, CompileEventPat, EvalEvent, ChannelsOf;
    PrefixMatches(m, p, ids, event, next, p.exprs[id].event, p.exprs[id].next, env, depth - 1);
  }

  lemma {:induction false} ReferenceMatches(m: Module, p: Program, ids: map<string, nat>, roots: seq<nat>, x: string, env: Env, id: nat, s: State,
                                            n: nat, depth: nat)
    requires CspmRecursion.Compilation(m, p, ids, roots) && DistinctNames(m.declarations) && ChannelsOf(m, p)
    requires WellFormed(p) && Stands(p.exprs, id, Ref(x), ids) && BuildN(p, id, env, n) == Some(s) && Tabled(p, s) && SearchN(p, s, depth).Some?
    ensures Matched(m, p, ids, Proc(Ref(x), env), SearchN(p, s, depth).value)
    decreases depth, n, Proc(Ref(x), env), 0
  {
    hide CspmRecursion.Compilation, DistinctNames, ChannelsOf, Matched, Step, Stands, SearchN, BuildN, WellFormed, Compiled, MeansN;
    var d := RefMeans(m, p, ids, roots, x, env, s, id, n);
    StepsMatch(m, p, ids, roots, Proc(d.expr, map[]), s, n - 1, depth);
    DoesAsIs(m, x, d.expr, env);
    SameStepsMatch(m, p, ids, Proc(Ref(x), env), Proc(d.expr, map[]), SearchN(p, s, depth).value);
  }

  lemma DoesAsIs(m: Module, x: string, e: Process, env: Env)
    requires DoesAs(m, x, e)
    ensures forall a, q' :: Step(m, Proc(Ref(x), env), a, q') <==> Step(m, Proc(e, map[]), a, q')
  {
    hide Step;
  }

  lemma InternalChoiceMatches(m: Module, p: Program, ids: map<string, nat>, l: Process, r: Process, env: Env, id: nat, depth: nat)
    requires WellFormed(p) && id < |p.exprs| && p.exprs[id].NInternal? && SearchN(p, Expr(id, env), depth).Some?
    requires Stands(p.exprs, p.exprs[id].left, l, ids) && Stands(p.exprs, p.exprs[id].right, r, ids)
    ensures Matched(m, p, ids, Proc(Choice(Internal, l, r), env), SearchN(p, Expr(id, env), depth).value)
  {
    hide Matched, Stands, Means;
    assert ChildrenBelow(p.exprs[id], id);
    var k := depth - 1;
    var left, right := BuildN(p, p.exprs[id].left, env, k).value, BuildN(p, p.exprs[id].right, env, k).value;
    MeansBuilt(p, ids, l, env, p.exprs[id].left, k, left);
    MeansBuilt(p, ids, r, env, p.exprs[id].right, k, right);
    InternalMatches(m, p, ids, l, r, env, left, right);
  }

  lemma {:induction false} ParallelMatches(m: Module, p: Program, ids: map<string, nat>, roots: seq<nat>, kind: ParallelKind, l: Process, r: Process,
                                           sync: Option<seq<string>>, env: Env, id: nat, s: State, n: nat, depth: nat)
    requires CspmRecursion.Compilation(m, p, ids, roots) && DistinctNames(m.declarations) && ChannelsOf(m, p)
    requires WellFormed(p) && id < |p.exprs| && p.exprs[id].NParallel? && (kind == Interface ==> sync.Some?)
    requires p.exprs[id].sync == (if kind == Interface then NamesOf(sync.value) else {})
    requires Stands(p.exprs, p.exprs[id].left, l, ids) && Stands(p.exprs, p.exprs[id].right, r, ids)
    requires BuildN(p, id, env, n) == Some(s) && Tabled(p, s) && SearchN(p, s, depth).Some?
    ensures Matched(m, p, ids, Proc(Parallel(kind, l, r, sync), env), SearchN(p, s, depth).value)
    decreases depth, n, Proc(Parallel(kind, l, r, sync), env), 0
  {
    hide CspmRecursion.Compilation, DistinctNames, ChannelsOf, Matched, Step, Stands, SearchN;
    var q, via := Proc(Parallel(kind, l, r, sync), env), Together(p.exprs[id].sync, Proc(l, env), Proc(r, env));
    BuiltApart(p, ids, l, r, via.sync, env, id, s, n);
    hide BuildN, MeansN, WellFormed;
    StepsMatch(m, p, ids, roots, via, s, n - 1, depth);
    forall a, q' ensures Step(m, q, a, q') <==> Step(m, via, a, q') { ParallelStep(m, kind, l, r, sync, env, a, q'); }
    SameStepsMatch(m, p, ids, q, via, SearchN(p, s, depth).value);
  }

  lemma {:induction false} HideMatches(m: Module, p: Program, ids: map<string, nat>, roots: seq<nat>, inner: Process, hidden: seq<string>,
                                       env: Env, id: nat, s: State, n: nat, depth: nat)
    requires CspmRecursion.Compilation(m, p, ids, roots) && DistinctNames(m.declarations) && ChannelsOf(m, p)
    requires WellFormed(p) && id < |p.exprs| && p.exprs[id].NHide? && p.exprs[id].hidden == NamesOf(hidden)
    requires Stands(p.exprs, p.exprs[id].inner, inner, ids)
    requires BuildN(p, id, env, n) == Some(s) && Tabled(p, s) && SearchN(p, s, depth).Some?
    ensures Matched(m, p, ids, Proc(Hide(inner, hidden), env), SearchN(p, s, depth).value)
    decreases depth, n, Proc(Hide(inner, hidden), env), 0
  {
    hide CspmRecursion.Compilation, DistinctNames, ChannelsOf, Matched, Step, Stands, SearchN;
    var q, via := Proc(Hide(inner, hidden), env), Hiding(NamesOf(hidden), Proc(inner, env));
    BuiltHidden(p, ids, inner, via.hidden, env, id, s, n);
    hide BuildN, MeansN, WellFormed;
    StepsMatch(m, p, ids, roots, via, s, n - 1, depth);
    forall a, q' ensures Step(m, q, a, q') <==> Step(m, via, a, q') { HideStep(m, inner, hidden, env, a, q'); }
    SameStepsMatch(m, p, ids, q, via, SearchN(p, s, depth).value);
  }

  lemma BuiltApart(p: Program, ids: map<string, nat>, l: Process, r: Process, sync: set<string>, env: Env, id: nat, s: State, n: nat)
    requires WellFormed(p) && id < |p.exprs| && p.exprs[id].NParallel? && p.exprs[id].sync == sync && BuildN(p, id, env, n) == Some(s)
    requires Stands(p.exprs, p.exprs[id].left, l, ids) && Stands(p.exprs, p.exprs[id].right, r, ids)
    ensures n > 0 && MeansN(p, ids, Together(sync, Proc(l, env), Proc(r, env)), s, n - 1)
  {
    hide Stands;
  }

  lemma BuiltHidden(p: Program, ids: map<string, nat>, inner: Process, hidden: set<string>, env: Env, id: nat, s: State, n: nat)
    requires WellFormed(p) && id < |p.exprs| && p.exprs[id].NHide? && p.exprs[id].hidden == hidden && BuildN(p, id, env, n) == Some(s)
    requires Stands(p.exprs, p.exprs[id].inner, inner, ids)
    ensures n > 0 && MeansN(p, ids, Hiding(hidden, Proc(inner, env)), s, n - 1)
  {
    hide Stands;
    assert ChildrenBelow(p.exprs[id], id);
    var t := BuildN(p, p.exprs[id].inner, env, n - 1).value;
    assert MeansN(p, ids, Proc(inner, env), t, n - 1);
  }

  lemma {:induction false} ChoiceMatches(m: Module, p: Program, ids: map<string, nat>, roots: seq<nat>, l: Process, r: Process, env: Env, id: nat, depth: nat)
    requires CspmRecursion.Compilation(m, p, ids, roots) && DistinctNames(m.declarations) && ChannelsOf(m, p)
    requires WellFormed(p) && id < |p.exprs| && p.exprs[id].NExternal? && SearchN(p, Expr(id, env), depth).Some?
    requires Stands(p.exprs, p.exprs[id].left, l, ids) && Stands(p.exprs, p.exprs[id].right, r, ids)
    ensures Matched(m, p, ids, Proc(Choice(External, l, r), env), SearchN(p, Expr(id, env), depth).value)
    decreases depth, 0
  {
    hide CspmRecursion.Compilation, DistinctNames, ChannelsOf, Matched, Step, Stands, Compiled;
    assert ChildrenBelow(p.exprs[id], id);
    var k := depth - 1;
    var left, right := BuildN(p, p.exprs[id].left, env, k).value, BuildN(p, p.exprs[id].right, env, k).value;
    assert MeansN(p, ids, Proc(l, env), left, k) && MeansN(p, ids, Proc(r, env), right, k);
    StepsMatch(m, p, ids, roots, Proc(l, env), left, k, k);
    StepsMatch(m, p, ids, roots, Proc(r, env), right, k, k);
    ExternalMatches(m, p, ids, l, r, env, SearchN(p, left, k).value, SearchN(p, right, k).value);
  }
}
