/** What the processes of a module do, said of their source alone: a relation between
    processes with bindings, with nothing in it of tables, positions or labels' parts. */
module CspmSource {
  import opened Options
  import opened CspmSyntax
  import opened Numerals

  type Bindings = map<string, U64>

  /** A process on its way: an expression with bindings, two processes side by side, or
      one with events hidden. */
  datatype Config =
    | Proc(e: Process, env: Bindings)
    | Together(sync: set<string>, left: Config, right: Config)
    | Hiding(hidden: set<string>, inner: Config)

  /** The channel, a dot and the value in decimal. */
  ghost predicate Says(a: string, ch: string, v: U64) {
    exists numeral :: IsNumeral(numeral, v) && a == ch + "." + numeral
  }

  /** The event can happen as `a` and leaves the bindings `env'`. */
  ghost predicate Occurs(m: Module, event: Event, env: Bindings, a: string, env': Bindings) {
    match event.seg
    case None => a == event.channel && env' == env
    case Some(Dot(Int(v))) => Says(a, event.channel, v) && env' == env
    case Some(Dot(Ident(_))) => false
    case Some(Out(Int(v))) => Says(a, event.channel, v) && env' == env
    case Some(Out(Ident(x))) => x in env && Says(a, event.channel, env[x]) && env' == env
    case Some(In(Const(v))) => Says(a, event.channel, v) && env' == env
    case Some(In(Bind(x))) => exists v: U64 :: Carries(m.channels, event.channel, v) && Says(a, event.channel, v) && env' == env[x := v]
  }

  /** A visible label on one of the channels: the channel alone, or with a dot after it. */
  ghost predicate On(a: string, channels: set<string>) {
    a != "tau" && exists ch :: ch in channels && '.' !in ch && (a == ch || ch + "." <= a)
  }

  function NamesOf(names: seq<string>): set<string> {
    set x | x in names
  }

  /** `q` takes the step `a` to `q'`, by rules nested at most `n` deep. */
  ghost predicate StepN(m: Module, q: Config, a: string, q': Config, n: nat)
    decreases n
  {
    && n > 0
    && match q
       case Proc(e, env) =>
         (match e
          case Stop => false
          case Ref(x) => exists d :: d in m.declarations && d.name == x && StepN(m, Proc(d.expr, map[]), a, q', n - 1)
          case Prefix(event, next) => q'.Proc? && q'.e == next && Occurs(m, event, env, a, q'.env)
          case Choice(External, l, r) => StepN(m, Proc(l, env), a, q', n - 1) || StepN(m, Proc(r, env), a, q', n - 1)
          case Choice(Internal, l, r) => a == "tau" && (q' == Proc(l, env) || q' == Proc(r, env))
          case Parallel(Interleaving, l, r, _) => StepN(m, Together({}, Proc(l, env), Proc(r, env)), a, q', n - 1)
          case Parallel(Interface, l, r, Some(sync)) =>
            StepN(m, Together(NamesOf(sync), Proc(l, env), Proc(r, env)), a, q', n - 1)
          case Parallel(Interface, _, _, None) => false
          case Hide(inner, hidden) => StepN(m, Hiding(NamesOf(hidden), Proc(inner, env)), a, q', n - 1))
       case Together(sync, l, r) =>
         && q'.Together? && q'.sync == sync
         && if On(a, sync) then StepN(m, l, a, q'.left, n - 1) && StepN(m, r, a, q'.right, n - 1)
            else (StepN(m, l, a, q'.left, n - 1) && q'.right == r) || (q'.left == l && StepN(m, r, a, q'.right, n - 1))
       case Hiding(hidden, inner) =>
         && q'.Hiding? && q'.hidden == hidden
         && exists b :: StepN(m, inner, b, q'.inner, n - 1) && a == if On(b, hidden) then "tau" else b
  }

  ghost predicate Step(m: Module, q: Config, a: string, q': Config) {
    exists n: nat :: StepN(m, q, a, q', n)
  }

  lemma {:induction false} StepMore(m: Module, q: Config, a: string, q': Config, n: nat, k: nat)
    requires StepN(m, q, a, q', n) && n <= k
    ensures StepN(m, q, a, q', k)
    decreases n
  {
    match q {
      case Proc(e, env) =>
        match e {
          case Ref(x) =>
            var d :| d in m.declarations && d.name == x && StepN(m, Proc(d.expr, map[]), a, q', n - 1);
            StepMore(m, Proc(d.expr, map[]), a, q', n - 1, k - 1);
          case Choice(External, l, r) =>
            if StepN(m, Proc(l, env), a, q', n - 1) {
              StepMore(m, Proc(l, env), a, q', n - 1, k - 1);
            } else {
              StepMore(m, Proc(r, env), a, q', n - 1, k - 1);
            }
          case Parallel(Interleaving, l, r, _) => StepMore(m, Together({}, Proc(l, env), Proc(r, env)), a, q', n - 1, k - 1);
          case Parallel(Interface, l, r, Some(sync)) =>
            StepMore(m, Together(NamesOf(sync), Proc(l, env), Proc(r, env)), a, q', n - 1, k - 1);
          case Hide(inner, hidden) => StepMore(m, Hiding(NamesOf(hidden), Proc(inner, env)), a, q', n - 1, k - 1);
          case _ =>
        }
      case Together(sync, l, r) =>
        if StepN(m, l, a, q'.left, n - 1) { StepMore(m, l, a, q'.left, n - 1, k - 1); }
        if StepN(m, r, a, q'.right, n - 1) { StepMore(m, r, a, q'.right, n - 1, k - 1); }
      case Hiding(hidden, inner) =>
        var b :| StepN(m, inner, b, q'.inner, n - 1) && a == if On(b, hidden) then "tau" else b;
        StepMore(m, inner, b, q'.inner, n - 1, k - 1);
    }
  }

  // ------------------------------------------------------ the rules, one by one

  lemma StepsBy(m: Module, q: Config, via: Config, a: string, q': Config)
    requires forall n: nat | n > 0 :: StepN(m, q, a, q', n) <==> StepN(m, via, a, q', n - 1)
    ensures Step(m, q, a, q') <==> Step(m, via, a, q')
  {
    hide StepN;
    if n: nat :| StepN(m, via, a, q', n) { assert StepN(m, q, a, q', n + 1); }
    if n: nat :| StepN(m, q, a, q', n) {
      StepMore(m, q, a, q', n, n + 1);
      assert StepN(m, via, a, q', n);
    }
  }

  lemma ReferenceStep(m: Module, x: string, env: Bindings, d: ProcessDecl, a: string, q': Config)
    requires DistinctNames(m.declarations) && d in m.declarations && d.name == x
    ensures Step(m, Proc(Ref(x), env), a, q') <==> Step(m, Proc(d.expr, map[]), a, q')
  {
    assert forall e | e in m.declarations && e.name == x :: e == d;
    StepsBy(m, Proc(Ref(x), env), Proc(d.expr, map[]), a, q');
  }

  lemma PrefixStep(m: Module, event: Event, next: Process, env: Bindings, a: string, q': Config)
    ensures Step(m, Proc(Prefix(event, next), env), a, q') <==> q'.Proc? && q'.e == next && Occurs(m, event, env, a, q'.env)
  {
    if q'.Proc? && q'.e == next && Occurs(m, event, env, a, q'.env) {
      assert StepN(m, Proc(Prefix(event, next), env), a, q', 1);
    }
  }

  lemma ExternalStep(m: Module, l: Process, r: Process, env: Bindings, a: string, q': Config)
    ensures Step(m, Proc(Choice(External, l, r), env), a, q') <==> Step(m, Proc(l, env), a, q') || Step(m, Proc(r, env), a, q')
  {
    var q := Proc(Choice(External, l, r), env);
    if n: nat :| StepN(m, q, a, q', n) {
      assert StepN(m, Proc(l, env), a, q', n - 1) || StepN(m, Proc(r, env), a, q', n - 1);
    }
    if n: nat :| StepN(m, Proc(l, env), a, q', n) { assert StepN(m, q, a, q', n + 1); }
    if n: nat :| StepN(m, Proc(r, env), a, q', n) { assert StepN(m, q, a, q', n + 1); }
  }

  lemma InternalStep(m: Module, l: Process, r: Process, env: Bindings, a: string, q': Config)
    ensures Step(m, Proc(Choice(Internal, l, r), env), a, q') <==> a == "tau" && (q' == Proc(l, env) || q' == Proc(r, env))
  {
    if a == "tau" && (q' == Proc(l, env) || q' == Proc(r, env)) {
      assert StepN(m, Proc(Choice(Internal, l, r), env), a, q', 1);
    }
  }

  lemma ParallelStep(m: Module, kind: ParallelKind, l: Process, r: Process, sync: Option<seq<string>>, env: Bindings, a: string, q': Config)
    requires kind == Interface ==> sync.Some?
    ensures Step(m, Proc(Parallel(kind, l, r, sync), env), a, q')
       <==> Step(m, Together(if kind == Interface then NamesOf(sync.value) else {}, Proc(l, env), Proc(r, env)), a, q')
  {
    StepsBy(m, Proc(Parallel(kind, l, r, sync), env),
            Together(if kind == Interface then NamesOf(sync.value) else {}, Proc(l, env), Proc(r, env)), a, q');
  }

  lemma HideStep(m: Module, inner: Process, hidden: seq<string>, env: Bindings, a: string, q': Config)
    ensures Step(m, Proc(Hide(inner, hidden), env), a, q') <==> Step(m, Hiding(NamesOf(hidden), Proc(inner, env)), a, q')
  {
    StepsBy(m, Proc(Hide(inner, hidden), env), Hiding(NamesOf(hidden), Proc(inner, env)), a, q');
  }

  lemma TogetherStep(m: Module, sync: set<string>, l: Config, r: Config, a: string, q': Config)
    ensures Step(m, Together(sync, l, r), a, q') <==>
            && q'.Together? && q'.sync == sync
            && if On(a, sync) then Step(m, l, a, q'.left) && Step(m, r, a, q'.right)
               else (Step(m, l, a, q'.left) && q'.right == r) || (q'.left == l && Step(m, r, a, q'.right))
  {
    hide On;
    var q := Together(sync, l, r);
    if n: nat :| StepN(m, q, a, q', n) {
      assert if On(a, sync) then StepN(m, l, a, q'.left, n - 1) && StepN(m, r, a, q'.right, n - 1)
             else (StepN(m, l, a, q'.left, n - 1) && q'.right == r) || (q'.left == l && StepN(m, r, a, q'.right, n - 1));
    }
    if q'.Together? && q'.sync == sync {
      if On(a, sync) {
        if Step(m, l, a, q'.left) && Step(m, r, a, q'.right) {
          var i: nat :| StepN(m, l, a, q'.left, i);
          var j: nat :| StepN(m, r, a, q'.right, j);
          StepMore(m, l, a, q'.left, i, i + j);
          StepMore(m, r, a, q'.right, j, i + j);
          assert StepN(m, q, a, q', i + j + 1);
        }
      } else {
        if i: nat :| StepN(m, l, a, q'.left, i) && q'.right == r { assert StepN(m, q, a, q', i + 1); }
        if j: nat :| StepN(m, r, a, q'.right, j) && q'.left == l { assert StepN(m, q, a, q', j + 1); }
      }
    }
  }

  lemma HidingStep(m: Module, hidden: set<string>, inner: Config, a: string, q': Config)
    ensures Step(m, Hiding(hidden, inner), a, q') <==>
            && q'.Hiding? && q'.hidden == hidden
            && exists b :: Step(m, inner, b, q'.inner) && a == if On(b, hidden) then "tau" else b
  {
    hide On;
    if n: nat :| StepN(m, Hiding(hidden, inner), a, q', n) {
      var b :| StepN(m, inner, b, q'.inner, n - 1) && a == if On(b, hidden) then "tau" else b;
      assert Step(m, inner, b, q'.inner);
    }
    if q'.Hiding? && q'.hidden == hidden {
      if b :| Step(m, inner, b, q'.inner) && a == if On(b, hidden) then "tau" else b {
        var n: nat :| StepN(m, inner, b, q'.inner, n);
        assert StepN(m, Hiding(hidden, inner), a, q', n + 1);
      }
    }
  }
}
