/** Programs whose names fit the codec give transition systems in which states
    are told apart by their encodings, as the checkers need. */
module CspmEncodable {
  import opened Seqs
  import opened CspmSyntax
  import opened CspmProvider
  import opened CspmCompile
  import opened CspmStep
  import opened CspmSearch
  import opened CspmKept
  import opened CspmCodec
  import Lts

  ghost predicate NodeUses(n: ExprNode, names: set<string>) {
    match n
    case NPrefix(PInBind(_, x), _) => x in names
    case NParallel(_, _, sync) => sync <= names
    case NHide(_, hidden) => hidden <= names
    case _ => true
  }

  /** The program has few enough expressions and names, and short enough names. */
  ghost predicate ProgramFits(p: Program, names: set<string>) {
    |p.exprs| <= 0x1_0000_0000 && NamesFit(names) && forall n | n in p.exprs :: NodeUses(n, names)
  }

  // ---------------------------------------------------- modules that fit

  function Size(e: Process): nat {
    match e
    case Stop => 1
    case Ref(_) => 1
    case Prefix(_, next) => Size(next) + 1
    case Choice(_, l, r) => Size(l) + Size(r) + 1
    case Parallel(_, l, r, _) => Size(l) + Size(r) + 1
    case Hide(inner, _) => Size(inner) + 1
  }

  /** The variables the expression binds and the channels it synchronises or hides. */
  function NamesIn(e: Process): set<string> {
    match e
    case Stop => {}
    case Ref(_) => {}
    case Prefix(event, next) => NamesIn(next) + BoundBy(event)
    case Choice(_, l, r) => NamesIn(l) + NamesIn(r)
    case Parallel(kind, l, r, sync) => NamesIn(l) + NamesIn(r) + SyncSet(kind, sync)
    case Hide(inner, hidden) => NamesIn(inner) + Members(hidden)
  }

  function BoundBy(event: Event): set<string> {
    match event.seg
    case Some(In(Bind(x))) => {x}
    case _ => {}
  }

  function SizeOfAll(bodies: seq<Process>): nat {
    if bodies == [] then 0 else SizeOfAll(bodies[..|bodies| - 1]) + Size(bodies[|bodies| - 1])
  }

  function NamesInAll(bodies: seq<Process>): set<string> {
    if bodies == [] then {} else NamesInAll(bodies[..|bodies| - 1]) + NamesIn(bodies[|bodies| - 1])
  }

  /** The entry and all bodies. */
  ghost function Expressions(m: Module): seq<Process> {
    (if InitialExpr(m).Some? then [InitialExpr(m).value] else []) + BodiesInOrder(m)
  }

  /** A module with few enough expressions and names, and short enough names. */
  ghost predicate ModuleFits(m: Module) {
    SizeOfAll(Expressions(m)) <= 0x1_0000_0000 && NamesFit(NamesInAll(Expressions(m)))
  }

  /** The table grows by no more than the size of the expression, and only by nodes
      with its names. */
  ghost predicate GrowsBy(before: seq<ExprNode>, after: seq<ExprNode>, size: nat, names: set<string>) {
    |after| <= |before| + size && forall n | n in after :: n in before || NodeUses(n, names)
  }

  lemma GrowsMore(before: seq<ExprNode>, between: seq<ExprNode>, after: seq<ExprNode>, size: nat, more: nat, names: set<string>, others: set<string>)
    requires GrowsBy(before, between, size, names) && GrowsBy(between, after, more, others)
    ensures GrowsBy(before, after, size + more, names + others)
  {
    forall n | n in after && n !in before ensures NodeUses(n, names + others) {
      if n in between { assert NodeUses(n, names); } else { assert NodeUses(n, others); }
    }
  }

  lemma EnterGrows(exprs: seq<ExprNode>, node: ExprNode, names: set<string>)
    requires NodeUses(node, names)
    ensures GrowsBy(exprs, Enter(exprs, node).0, 1, names)
  {}

  lemma {:induction false} CompileGrows(exprs: seq<ExprNode>, e: Process, procIds: map<string, nat>)
    requires Compile(exprs, e, procIds).Some?
    ensures GrowsBy(exprs, Compile(exprs, e, procIds).value.0, Size(e), NamesIn(e))
    decreases e
  {
    hide GrowsBy, Enter;
    match e
    case Stop => EnterGrows(exprs, NStop, {});
    case Ref(name) => EnterGrows(exprs, NRef(procIds[name]), {});
    case Prefix(event, next) =>
      CompileGrows(exprs, next, procIds);
      var n := Compile(exprs, next, procIds).value;
      var node := NPrefix(CompileEventPat(event).value, n.1);
      EnterGrows(n.0, node, BoundBy(event));
      GrowsMore(exprs, n.0, Enter(n.0, node).0, Size(next), 1, NamesIn(next), BoundBy(event));
    case Choice(kind, left, right) =>
      CompileGrows(exprs, left, procIds);
      var l := Compile(exprs, left, procIds).value;
      CompileGrows(l.0, right, procIds);
      var r := Compile(l.0, right, procIds).value;
      var node := ChoiceNode(kind, l.1, r.1);
      EnterGrows(r.0, node, {});
      GrowsMore(exprs, l.0, r.0, Size(left), Size(right), NamesIn(left), NamesIn(right));
      GrowsMore(exprs, r.0, Enter(r.0, node).0, Size(left) + Size(right), 1, NamesIn(e), {});
      assert NamesIn(e) + {} == NamesIn(e);
    case Parallel(kind, left, right, sync) =>
      CompileGrows(exprs, left, procIds);
      var l := Compile(exprs, left, procIds).value;
      CompileGrows(l.0, right, procIds);
      var r := Compile(l.0, right, procIds).value;
      var node := NParallel(l.1, r.1, SyncSet(kind, sync));
      EnterGrows(r.0, node, SyncSet(kind, sync));
      GrowsMore(exprs, l.0, r.0, Size(left), Size(right), NamesIn(left), NamesIn(right));
      GrowsMore(exprs, r.0, Enter(r.0, node).0, Size(left) + Size(right), 1, NamesIn(left) + NamesIn(right), SyncSet(kind, sync));
    case Hide(inner, hidden) =>
      CompileGrows(exprs, inner, procIds);
      var n := Compile(exprs, inner, procIds).value;
      var node := NHide(n.1, Members(hidden));
      EnterGrows(n.0, node, Members(hidden));
      GrowsMore(exprs, n.0, Enter(n.0, node).0, Size(inner), 1, NamesIn(inner), Members(hidden));
  }

  lemma {:induction false} CompileBodiesGrows(exprs: seq<ExprNode>, bodies: seq<Process>, procIds: map<string, nat>)
    requires CompileBodies(exprs, bodies, procIds).Some?
    ensures GrowsBy(exprs, CompileBodies(exprs, bodies, procIds).value.0, SizeOfAll(bodies), NamesInAll(bodies))
  {
    hide Compile, NodeUses, Size, NamesIn;
    if bodies != [] {
      var n := |bodies| - 1;
      CompileBodiesGrows(exprs, bodies[..n], procIds);
      var before := CompileBodies(exprs, bodies[..n], procIds).value.0;
      CompileGrows(before, bodies[n], procIds);
      GrowsMore(exprs, before, Compile(before, bodies[n], procIds).value.0,
                SizeOfAll(bodies[..n]), Size(bodies[n]), NamesInAll(bodies[..n]), NamesIn(bodies[n]));
    }
  }

  lemma {:induction false} AllOfThem(e: Process, bodies: seq<Process>)
    ensures SizeOfAll([e] + bodies) == Size(e) + SizeOfAll(bodies) && NamesInAll([e] + bodies) == NamesIn(e) + NamesInAll(bodies)
    decreases |bodies|
  {
    var all := [e] + bodies;
    if bodies == [] {
      assert all == [e] && all[..0] == [];
    } else {
      AllOfThem(e, bodies[..|bodies| - 1]);
      assert all[..|all| - 1] == [e] + bodies[..|bodies| - 1];
    }
  }

  /** A module that fits compiles to a program that fits. */
  lemma FittingModule(m: Module, p: Program)
    requires CompilesTo(m, p) && ModuleFits(m)
    ensures ProgramFits(p, NamesInAll(Expressions(m)))
  {
    hide NamesFit, Built, Buildable, AllResolved, Compile, CompileBodies, NodeUses, Size, NamesIn;
    var e, bodies, ids := InitialExpr(m).value, BodiesInOrder(m), IdsOf(m);
    var first := Compile([], e, ids).value;
    CompileGrows([], e, ids);
    CompileBodiesGrows(first.0, bodies, ids);
    GrowsMore([], first.0, p.exprs, Size(e), SizeOfAll(bodies), NamesIn(e), NamesInAll(bodies));
    AllOfThem(e, bodies);
  }

  // ------------------------------------------------------- states that fit

  /** Expressions within reach, with bindings and sets among the names. */
  ghost function Using(p: Program, names: set<string>): Condition {
    Condition((id: nat, env: Env) => IsLive(p, id) && env.Keys <= names, (some: set<string>) => some <= names, _ => true)
  }

  lemma SubsetFits(some: set<string>, names: set<string>)
    requires some <= names && NamesFit(names)
    ensures NamesFit(some)
  {
    hide NameFits;
    assert names == some + (names - some);
  }

  lemma {:induction false} UsingFits(p: Program, s: State, names: set<string>)
    requires ProgramFits(p, names) && Good(p, Using(p, names), s)
    ensures Fits(s)
  {
    hide NamesFit, Live;
    match s
    case Expr(_, env) => SubsetFits(env.Keys, names);
    case Par(sync, l, r) => SubsetFits(sync, names); UsingFits(p, l, names); UsingFits(p, r, names);
    case Hid(hidden, inner) => SubsetFits(hidden, names); UsingFits(p, inner, names);
  }

  lemma UsingIsKept(p: Program, names: set<string>)
    requires WellFormed(p) && ProgramFits(p, names)
    ensures Kept(p, Using(p, names))
  {
    hide Live, EvalEvent, NamesFit;
    var c := Using(p, names);
    forall id: nat, env | c.on(id, env) ensures CarriesOver(p, c, id, env) {
      LiveMentions(p, id);
      assert ChildrenBelow(p.exprs[id], id) && NodeUses(p.exprs[id], names);
      match p.exprs[id]
      case NPrefix(e, next) => OffersUse(p.channels, e, env, names);
      case _ =>
    }
  }

  lemma OffersUse(channels: Channels, e: EventPat, env: Env, names: set<string>)
    requires env.Keys <= names && (e.PInBind? ==> e.x in names)
    ensures forall o | o in EvalEvent(channels, e, env) :: o.1.Keys <= names
  {}

  ghost function Within(p: Program, u: set<State>, names: set<string>): set<State> {
    set s | s in u && Good(p, Using(p, names), s)
  }

  /** A compiled program with the codec is a transition system as the checkers
      want it, on every finite set of states that holds its runs. */
  lemma ProviderIsFinite(p: Program, names: set<string>, u: set<State>, depth: nat)
    requires ProgramFits(p, names) && HoldsRuns(p, u, depth)
    ensures Lts.Finite(Searched(p, Encoding, depth), Within(p, u, names))
  {
    hide Encoding, SearchN, BuildN, Live, Kept, Good;
    var l := Searched(p, Encoding, depth);
    var kept := Within(p, u, names);
    LiveClosed(p);
    UsingIsKept(p, names);
    hide ProgramFits;
    BuildKeeps(p, Using(p, names), p.initial, map[], depth);
    assert l.init in kept;
    forall s, e | s in kept && e in l.next(s) ensures e.1 in kept {
      assert Answers(p, u, depth, s);
      SearchKeeps(p, Using(p, names), s, depth);
    }
    forall s, t | s in kept && t in kept && l.enc(s) == l.enc(t) ensures s == t {
      UsingFits(p, s, names);
      UsingFits(p, t, names);
      PrefixFree(s, t);
    }
  }
}
