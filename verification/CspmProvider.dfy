/** From a parsed module to a transition system, and what holds in every run. */
module CspmProvider {
  import opened Options
  import opened CspmSyntax
  import opened Seqs
  import opened CspmCompile
  import opened CspmStep
  import opened CspmSearch
  import opened CspmSoundness
  import opened Names
  import TauCycles
  import Lts

  function InitialExpr(m: Module): (r: Option<Process>)
    ensures forall e :: r == Some(e) <==> IsEntry(m, e)
  {
    if m.entry.Some? then m.entry
    else if |m.declarations| == 1 then Some(m.declarations[0].expr)
    else None
  }

  // ------------------------------------------------- numbering the processes

  /** Every name with its place in the row. */
  function Numbered(names: seq<string>): (ids: map<string, nat>)
    requires Distinct(names)
  {
    map i | 0 <= i < |names| :: names[i] := i
  }

  lemma SortedIsDistinct(names: set<string>)
    ensures Distinct(Sorted(names))
  {
    hide NameLess, Sorted;
    var s := Sorted(names);
    forall i, j | 0 <= i < j < |s| ensures s[i] != s[j] {
      SortedAscends(names, i, j);
      NamesCompare(s[i], s[j]);
    }
  }

  lemma NumberedFacts(names: seq<string>)
    requires Distinct(names)
    ensures Injective(Numbered(names)) && Numbered(names).Keys == Members(names)
    ensures |Numbered(names)| == |names|
    ensures forall i | 0 <= i < |names| :: names[i] in Numbered(names) && Numbered(names)[names[i]] == i
    ensures forall x | x in Numbered(names) :: Numbered(names)[x] < |names|
  {
    var ids := Numbered(names);
    assert ids.Keys == Members(names);
    DistinctSize(names);
  }

  lemma {:induction false} DistinctSize(names: seq<string>)
    requires Distinct(names)
    ensures |Members(names)| == |names|
  {
    if names != [] {
      var n := |names| - 1;
      DistinctSize(names[..n]);
      assert names == names[..n] + [names[n]];
      assert Members(names) == Members(names[..n]) + {names[n]};
    }
  }

  /** The processes in the order of their names. */
  ghost function NamesInOrder(m: Module): (names: seq<string>)
    ensures Distinct(names) && Members(names) == ProcessNames(m)
  {
    SortedIsDistinct(ProcessNames(m));
    Sorted(ProcessNames(m))
  }

  ghost function IdsOf(m: Module): map<string, nat> {
    Numbered(NamesInOrder(m))
  }

  lemma IdsAreNumbered(m: Module)
    ensures IdsOf(m) == Numbered(NamesInOrder(m))
  {}

  ghost function BodyOf(decls: seq<ProcessDecl>, x: string): (e: Process)
    requires exists d :: d in decls && d.name == x
  {
    var d :| d in decls && d.name == x; d.expr
  }

  ghost function BodiesInOrder(m: Module): (bodies: seq<Process>)
    ensures |bodies| == |NamesInOrder(m)|
  {
    var names := NamesInOrder(m);
    seq(|names|, i requires 0 <= i < |names| =>
      assert names[i] in Members(names); BodyOf(m.declarations, names[i]))
  }

  /** Position `id` unfolds to the expression `e`. */
  ghost predicate Stands(exprs: seq<ExprNode>, id: nat, e: Process, procIds: map<string, nat>) {
    Ordered(exprs) && id < |exprs| && Core(e, procIds) == Some(Unfold(exprs, id))
  }

  ghost predicate RootAt(exprs: seq<ExprNode>, roots: seq<nat>, d: ProcessDecl, procIds: map<string, nat>) {
    d.name in procIds && procIds[d.name] < |roots| && Stands(exprs, roots[procIds[d.name]], d.expr, procIds)
  }

  ghost predicate Injective(ids: map<string, nat>) {
    forall x, y | x in ids && y in ids && ids[x] == ids[y] :: x == y
  }

  /** The compiled table holds every process body where its name points. */
  ghost predicate Built(m: Module, channels: Channels, exprs: seq<ExprNode>, procIds: map<string, nat>, roots: seq<nat>, initial: nat) {
    && Ordered(exprs) && Distinct(exprs) && RootsOk(exprs, roots) && |roots| == |procIds|
    && channels == Keyed(Declared(m.channels))
    && procIds.Keys == ProcessNames(m) && Injective(procIds) && (forall x | x in procIds :: procIds[x] < |roots|)
    && (forall d | d in m.declarations :: RootAt(exprs, roots, d, procIds))
    && (forall n | n in exprs && n.NRef? :: n.proc in procIds.Values)
    && InitialExpr(m).Some? && Stands(exprs, initial, InitialExpr(m).value, procIds)
  }

  ghost predicate AllResolved(exprs: seq<ExprNode>, roots: seq<nat>, resolved: seq<nat>)
    requires RootsOk(exprs, roots)
  {
    |resolved| == |exprs| && forall id | 0 <= id < |exprs| :: ResolvesTo(exprs, roots, id, resolved[id])
  }

  /** The program is the table of the module, with every reference resolved. */
  ghost predicate Compiled(m: Module, p: Program, procIds: map<string, nat>, roots: seq<nat>) {
    Built(m, p.channels, p.exprs, procIds, roots, p.initial) && AllResolved(p.exprs, roots, p.resolved)
  }

  // ---------------------------------------------------- which modules compile

  /** A name after a dot, which is neither an output nor an input. */
  ghost predicate DotsName(event: Event) {
    event.seg.Some? && event.seg.value.Dot? && event.seg.value.value.Ident?
  }

  /** The expression means a process: its references are declared and its events
      and parallel compositions are of the supported forms. */
  ghost predicate Meaningful(e: Process, names: set<string>) {
    match e
    case Stop => true
    case Ref(name) => name in names
    case Prefix(event, next) => !DotsName(event) && Meaningful(next, names)
    case Choice(_, l, r) => Meaningful(l, names) && Meaningful(r, names)
    case Parallel(kind, l, r, sync) => Meaningful(l, names) && Meaningful(r, names) && (kind == Interface ==> sync.Some?)
    case Hide(inner, _) => Meaningful(inner, names)
  }

  lemma {:induction false} MeaningfulIsCore(e: Process, procIds: map<string, nat>)
    ensures Meaningful(e, procIds.Keys) <==> Core(e, procIds).Some?
  {
    match e
    case Stop =>
    case Ref(_) =>
    case Prefix(_, next) => MeaningfulIsCore(next, procIds);
    case Choice(_, l, r) => MeaningfulIsCore(l, procIds); MeaningfulIsCore(r, procIds);
    case Parallel(_, l, r, _) => MeaningfulIsCore(l, procIds); MeaningfulIsCore(r, procIds);
    case Hide(inner, _) => MeaningfulIsCore(inner, procIds);
  }

  ghost predicate Buildable(m: Module) {
    && NoChannelTwice(m.channels) && DomainsFit(m.channels, false)
    && DistinctNames(m.declarations)
    && (exists e :: IsEntry(m, e)) && (forall e | IsEntry(m, e) :: Meaningful(e, ProcessNames(m)))
    && forall d | d in m.declarations :: Meaningful(d.expr, ProcessNames(m))
  }

  lemma BuildableEntry(m: Module)
    ensures (exists e :: IsEntry(m, e)) && (forall e | IsEntry(m, e) :: Meaningful(e, ProcessNames(m)))
       <==> InitialExpr(m).Some? && Meaningful(InitialExpr(m).value, ProcessNames(m))
  {
    hide Meaningful;
    if InitialExpr(m).Some? { assert IsEntry(m, InitialExpr(m).value); }
    if e :| IsEntry(m, e) { assert InitialExpr(m) == Some(e); }
  }

  // ------------------------------------------------------- the table of a module

  datatype Table = Table(exprs: seq<ExprNode>, roots: seq<nat>, initial: nat)

  /** The entry is entered first, then the bodies. */
  ghost function Assemble(entry: Process, bodies: seq<Process>, procIds: map<string, nat>): Option<Table> {
    var first := Compile([], entry, procIds);
    if first.None? then None
    else
      var rest := CompileBodies(first.value.0, bodies, procIds);
      if rest.None? then None else Some(Table(rest.value.0, rest.value.1, first.value.1))
  }

  /** The table of a module, its bodies in the order of their names. */
  ghost function TableOf(m: Module): Option<Table> {
    if InitialExpr(m).None? then None else Assemble(InitialExpr(m).value, BodiesInOrder(m), IdsOf(m))
  }

  ghost predicate Assembled(t: Table, entry: Process, bodies: seq<Process>, procIds: map<string, nat>) {
    && TableOk(t.exprs, procIds) && Stands(t.exprs, t.initial, entry, procIds)
    && |t.roots| == |bodies| && forall k | 0 <= k < |t.roots| :: Stands(t.exprs, t.roots[k], bodies[k], procIds)
  }

  lemma AssembleMeans(entry: Process, bodies: seq<Process>, procIds: map<string, nat>)
    ensures Assemble(entry, bodies, procIds).Some? <==> Core(entry, procIds).Some? && forall b | b in bodies :: Core(b, procIds).Some?
    ensures Assemble(entry, bodies, procIds).Some? ==> Assembled(Assemble(entry, bodies, procIds).value, entry, bodies, procIds)
  {
    hide Core, Unfold, Compile, CompileBodies;
    CompileMeans([], entry, procIds);
    var first := Compile([], entry, procIds);
    if first.Some? {
      CompileBodiesMean(first.value.0, bodies, procIds);
      var rest := CompileBodies(first.value.0, bodies, procIds);
      if rest.Some? { UnfoldStable(first.value.0, rest.value.0, first.value.1); }
    }
  }

  ghost predicate HasTable(m: Module, t: Table) {
    TableOf(m) == Some(t) && Built(m, Keyed(Declared(m.channels)), t.exprs, IdsOf(m), t.roots, t.initial)
  }

  lemma BodiesAreDeclared(m: Module)
    requires DistinctNames(m.declarations)
    ensures forall k | 0 <= k < |BodiesInOrder(m)| :: ProcessDecl(NamesInOrder(m)[k], BodiesInOrder(m)[k]) in m.declarations
    ensures forall d | d in m.declarations :: d.name in IdsOf(m) && IdsOf(m)[d.name] < |BodiesInOrder(m)| && BodiesInOrder(m)[IdsOf(m)[d.name]] == d.expr
  {
    hide ProcessNames, Distinct, Sorted;
    forall k | 0 <= k < |BodiesInOrder(m)| ensures ProcessDecl(NamesInOrder(m)[k], BodiesInOrder(m)[k]) in m.declarations {
      BodyAt(m, k);
    }
    forall d | d in m.declarations
      ensures d.name in IdsOf(m) && IdsOf(m)[d.name] < |BodiesInOrder(m)| && BodiesInOrder(m)[IdsOf(m)[d.name]] == d.expr
    {
      PlaceOf(m, d);
    }
  }

  lemma BodyAt(m: Module, k: nat)
    requires k < |BodiesInOrder(m)|
    ensures ProcessDecl(NamesInOrder(m)[k], BodiesInOrder(m)[k]) in m.declarations
  {
    var names, bodies := NamesInOrder(m), BodiesInOrder(m);
    assert names[k] in Members(names);
    var d :| d in m.declarations && d.name == names[k] && BodyOf(m.declarations, names[k]) == d.expr;
    assert d == ProcessDecl(names[k], bodies[k]);
  }

  lemma PlaceOf(m: Module, d: ProcessDecl)
    requires DistinctNames(m.declarations) && d in m.declarations
    ensures d.name in IdsOf(m) && IdsOf(m)[d.name] < |BodiesInOrder(m)| && BodiesInOrder(m)[IdsOf(m)[d.name]] == d.expr
  {
    var names := NamesInOrder(m);
    assert d.name in Members(names);
    var k := NumberAt(names, d.name);
    IdsAreNumbered(m);
    hide NamesInOrder, IdsOf, BodiesInOrder, Numbered;
    BodyAt(m, k);
  }

  lemma NumberAt(names: seq<string>, x: string) returns (k: nat)
    requires Distinct(names) && x in names
    ensures k < |names| && names[k] == x && x in Numbered(names) && Numbered(names)[x] == k
  {
    k :| 0 <= k < |names| && names[k] == x;
  }

  lemma IdsFacts(m: Module)
    ensures IdsOf(m).Keys == ProcessNames(m) && Injective(IdsOf(m)) && |IdsOf(m)| == |BodiesInOrder(m)|
    ensures forall x | x in IdsOf(m) :: IdsOf(m)[x] < |IdsOf(m)|
  {
    NumberedFacts(NamesInOrder(m));
  }

  lemma RootsStand(m: Module, t: Table)
    requires DistinctNames(m.declarations) && InitialExpr(m).Some?
    requires Assembled(t, InitialExpr(m).value, BodiesInOrder(m), IdsOf(m))
    ensures forall d | d in m.declarations :: RootAt(t.exprs, t.roots, d, IdsOf(m))
  {
    BodiesAreDeclared(m);
    hide Stands, TableOk, BodiesInOrder, NamesInOrder, IdsOf, DistinctNames;
  }

  lemma AssembledFacts(t: Table, entry: Process, bodies: seq<Process>, procIds: map<string, nat>)
    requires Assembled(t, entry, bodies, procIds)
    ensures Ordered(t.exprs) && Distinct(t.exprs) && (forall n | n in t.exprs && n.NRef? :: n.proc in procIds.Values)
    ensures Stands(t.exprs, t.initial, entry, procIds)
    ensures |t.roots| == |bodies| && forall k | 0 <= k < |t.roots| :: t.roots[k] < |t.exprs|
  {
    hide Core, Unfold, Distinct, Ordered;
  }

  lemma MakeBuilt(m: Module, channels: Channels, exprs: seq<ExprNode>, procIds: map<string, nat>, roots: seq<nat>, initial: nat)
    requires Ordered(exprs) && Distinct(exprs) && RootsOk(exprs, roots) && |roots| == |procIds| && channels == Keyed(Declared(m.channels))
    requires procIds.Keys == ProcessNames(m) && Injective(procIds) && forall x | x in procIds :: procIds[x] < |roots|
    requires forall d | d in m.declarations :: RootAt(exprs, roots, d, procIds)
    requires forall n | n in exprs && n.NRef? :: n.proc in procIds.Values
    requires InitialExpr(m).Some? && Stands(exprs, initial, InitialExpr(m).value, procIds)
    ensures Built(m, channels, exprs, procIds, roots, initial)
  {
    hide Ordered, Distinct, RootsOk, Keyed, Declared, ProcessNames, Injective, RootAt, Stands;
  }

  /** A table in which the entry and the bodies stand where they should is built. */
  lemma AssembledIsBuilt(m: Module, t: Table)
    requires DistinctNames(m.declarations) && InitialExpr(m).Some?
    requires Assembled(t, InitialExpr(m).value, BodiesInOrder(m), IdsOf(m))
    ensures Built(m, Keyed(Declared(m.channels)), t.exprs, IdsOf(m), t.roots, t.initial)
  {
    hide *;
    IdsFacts(m);
    RootsStand(m, t);
    AssembledFacts(t, InitialExpr(m).value, BodiesInOrder(m), IdsOf(m));
    BuilderRootsOk(t.exprs, t.roots, IdsOf(m));
    MakeBuilt(m, Keyed(Declared(m.channels)), t.exprs, IdsOf(m), t.roots, t.initial);
  }

  lemma AllBodiesMean(m: Module)
    requires DistinctNames(m.declarations)
    ensures (forall b | b in BodiesInOrder(m) :: Core(b, IdsOf(m)).Some?) <==> forall d | d in m.declarations :: Core(d.expr, IdsOf(m)).Some?
  {
    BodiesAreDeclared(m);
    hide Core, BodiesInOrder, NamesInOrder, IdsOf;
  }

  /** The module has a table exactly when all its expressions mean something, and then
      the table holds them where the names point. */
  lemma TableIsBuilt(m: Module)
    requires DistinctNames(m.declarations)
    ensures TableOf(m).Some? <==>
              && InitialExpr(m).Some? && Core(InitialExpr(m).value, IdsOf(m)).Some?
              && forall d | d in m.declarations :: Core(d.expr, IdsOf(m)).Some?
    ensures TableOf(m).Some? ==> HasTable(m, TableOf(m).value)
  {
    AllBodiesMean(m);
    hide Core, Assemble, Assembled, IdsOf, BodiesInOrder, Built;
    if InitialExpr(m).Some? {
      AssembleMeans(InitialExpr(m).value, BodiesInOrder(m), IdsOf(m));
      if TableOf(m).Some? { AssembledIsBuilt(m, TableOf(m).value); }
    }
  }

  /** The program that the module compiles to. */
  ghost predicate CompilesTo(m: Module, p: Program) {
    && Buildable(m) && TableOf(m).Some? && HasTable(m, TableOf(m).value)
    && p.channels == Keyed(Declared(m.channels))
    && p.exprs == TableOf(m).value.exprs && p.initial == TableOf(m).value.initial
    && AllResolved(p.exprs, TableOf(m).value.roots, p.resolved)
  }

  lemma CompilesToIsCompiled(m: Module, p: Program)
    requires CompilesTo(m, p)
    ensures Compiled(m, p, IdsOf(m), TableOf(m).value.roots)
  {}

  /** A module compiles to one program at most. */
  lemma CompilesToOne(m: Module, p: Program, q: Program)
    requires CompilesTo(m, p) && CompilesTo(m, q)
    ensures p == q
  {
    hide Built, Buildable, TableOf, ResolvesTo;
    var roots := TableOf(m).value.roots;
    assert RootsOk(p.exprs, roots) by { BuiltRoots(m, p.channels, p.exprs, IdsOf(m), roots, p.initial); }
    forall id | 0 <= id < |p.exprs| ensures p.resolved[id] == q.resolved[id] {
      ResolvesOnce(p.exprs, roots, id, p.resolved[id], q.resolved[id]);
    }
    assert p.resolved == q.resolved;
  }

  /** A module compiles when it can be built and no processes are only words for each other. */
  ghost predicate Compilable(m: Module) {
    Buildable(m) && forall names :: !RefCycle(m, names)
  }

  /** The body of `x` is nothing but a reference to `y`. */
  ghost predicate IsBareRef(m: Module, x: string, y: string) {
    exists d :: d in m.declarations && d.name == x && d.expr == Ref(y)
  }

  /** Process names of which each is only another word for the next, back to the first. */
  ghost predicate RefCycle(m: Module, names: seq<string>) {
    |names| >= 2 && names[0] == names[|names| - 1] && forall i | 0 <= i < |names| - 1 :: IsBareRef(m, names[i], names[i + 1])
  }

  /** What the type checker accepts, with an entry and the sets the parser supplies,
      can be built. */
  lemma AcceptedIsBuildable(m: Module)
    requires Accepted(m) && InitialExpr(m).Some? && SyncSetsGiven(InitialExpr(m).value)
    requires forall d | d in m.declarations :: SyncSetsGiven(d.expr)
    ensures Buildable(m)
  {
    DistinctIsNoTwice(m.channels);
    SupportedIsFit(m.channels, true);
    hide SyncSetsGiven, NoChannelTwice, Declared, DistinctKeys, Meaningful, TypecheckProcess;
    BuildableEntry(m);
    forall d | d in m.declarations ensures Meaningful(d.expr, ProcessNames(m)) { TypedIsMeaningful(m, d.expr); }
    if m.entry.None? { assert m.declarations[0] in m.declarations; }
    TypedIsMeaningful(m, InitialExpr(m).value);
  }

  lemma TypedIsMeaningful(m: Module, e: Process)
    requires TypedIn(e, m) && SyncSetsGiven(e)
    ensures Meaningful(e, ProcessNames(m))
  {
    var procIds := map x | x in ProcessNames(m) :: 0 as nat;
    assert procIds.Keys == ProcessNames(m);
    CheckedCompiles(e, Keyed(Declared(m.channels)), procIds, map[]);
    MeaningfulIsCore(e, procIds);
  }

  // ------------------------------------------ references that never end

  ghost function NameOf(procIds: map<string, nat>, k: nat): (x: string)
    requires k in procIds.Values
    ensures x in procIds && procIds[x] == k
  {
    var x :| x in procIds && procIds[x] == k; x
  }

  lemma RootOf(m: Module, channels: Channels, exprs: seq<ExprNode>, procIds: map<string, nat>, roots: seq<nat>, initial: nat, x: string)
    returns (d: ProcessDecl)
    requires Built(m, channels, exprs, procIds, roots, initial) && x in procIds
    ensures d in m.declarations && d.name == x && RootAt(exprs, roots, d, procIds)
  {
    hide RootAt;
    d :| d in m.declarations && d.name == x;
  }

  /** Where one reference leads to another, the process is only another word. */
  lemma StepIsBareRef(m: Module, channels: Channels, exprs: seq<ExprNode>, procIds: map<string, nat>, roots: seq<nat>, initial: nat, x: string, y: string)
    requires Built(m, channels, exprs, procIds, roots, initial) && x in procIds && y in procIds
    ensures exprs[roots[procIds[x]]] == NRef(procIds[y]) <==> IsBareRef(m, x, y)
  {
    var d := RootOf(m, channels, exprs, procIds, roots, initial, x);
    if exprs[roots[procIds[x]]] == NRef(procIds[y]) {
      assert Core(d.expr, procIds) == Some(TRef(procIds[y]));
      assert d.expr == Ref(y);
    }
    if IsBareRef(m, x, y) {
      var e :| e in m.declarations && e.name == x && e.expr == Ref(y);
      assert RootAt(exprs, roots, e, procIds);
    }
  }

  /** The process that the `n`-th reference followed from `id` names. */
  ghost function NameAlong(exprs: seq<ExprNode>, roots: seq<nat>, procIds: map<string, nat>, id: nat, n: nat): string {
    if !RootsOk(exprs, roots) || id >= |exprs| then ""
    else
      var node := exprs[Follow(exprs, roots, id, n)];
      if node.NRef? && node.proc in procIds.Values then NameOf(procIds, node.proc) else ""
  }

  /** References that never end go from a name to the name it is another word for. */
  lemma EndlessStep(m: Module, channels: Channels, exprs: seq<ExprNode>, procIds: map<string, nat>, roots: seq<nat>, initial: nat, id: nat, n: nat)
    requires Built(m, channels, exprs, procIds, roots, initial) && Unresolvable(exprs, roots, id)
    ensures NameAlong(exprs, roots, procIds, id, n) in ProcessNames(m)
    ensures IsBareRef(m, NameAlong(exprs, roots, procIds, id, n), NameAlong(exprs, roots, procIds, id, n + 1))
  {
    hide RootAt, Stands, Distinct, Ordered;
    assert exprs[Follow(exprs, roots, id, n)] in exprs && exprs[Follow(exprs, roots, id, n + 1)] in exprs;
    assert exprs[Follow(exprs, roots, id, n)].NRef? && exprs[Follow(exprs, roots, id, n + 1)].NRef?;
    var x, y := NameAlong(exprs, roots, procIds, id, n), NameAlong(exprs, roots, procIds, id, n + 1);
    assert Follow(exprs, roots, id, n + 1) == roots[procIds[x]];
    StepIsBareRef(m, channels, exprs, procIds, roots, initial, x, y);
  }

  lemma BuiltFacts(m: Module, channels: Channels, exprs: seq<ExprNode>, procIds: map<string, nat>, roots: seq<nat>, initial: nat)
    requires Built(m, channels, exprs, procIds, roots, initial)
    ensures RootsOk(exprs, roots) && procIds.Keys == ProcessNames(m)
  {}

  lemma UnresolvableIsRefCycle(m: Module, channels: Channels, exprs: seq<ExprNode>, procIds: map<string, nat>, roots: seq<nat>, initial: nat, id: nat)
    returns (names: seq<string>)
    requires Built(m, channels, exprs, procIds, roots, initial) && Unresolvable(exprs, roots, id)
    ensures RefCycle(m, names)
  {
    var f := (n: nat) => NameAlong(exprs, roots, procIds, id, n);
    forall n: nat ensures f(n) in ProcessNames(m) && IsBareRef(m, f(n), f(n + 1)) {
      EndlessStep(m, channels, exprs, procIds, roots, initial, id, n);
    }
    hide *;
    names := NamesRepeat(m, f);
  }

  /** Among finitely many names an endless sequence comes back. */
  lemma NamesRepeat(m: Module, f: nat -> string) returns (names: seq<string>)
    requires forall n: nat :: f(n) in ProcessNames(m) && IsBareRef(m, f(n), f(n + 1))
    ensures RefCycle(m, names)
  {
    hide IsBareRef, ProcessNames;
    var all := ProcessNames(m);
    var path := seq(|all| + 1, (n: nat) => f(n));
    var i, j := TauCycles.Pigeonhole(path, all);
    names := path[i..j + 1];
    forall k | 0 <= k < |names| - 1 ensures IsBareRef(m, names[k], names[k + 1]) {
      assert names[k] == f(i + k) && names[k + 1] == f(i + k + 1);
    }
  }

  /** The body of the `i`-th name is a reference to one of the names. */
  ghost predicate LeadsWithin(exprs: seq<ExprNode>, procIds: map<string, nat>, roots: seq<nat>, names: seq<string>, i: nat) {
    && i < |names| && names[i] in procIds && procIds[names[i]] < |roots| && roots[procIds[names[i]]] < |exprs|
    && exists k: nat :: k < |names| && names[k] in procIds && exprs[roots[procIds[names[i]]]] == NRef(procIds[names[k]])
  }

  lemma RefCycleStep(m: Module, channels: Channels, exprs: seq<ExprNode>, procIds: map<string, nat>, roots: seq<nat>, initial: nat, names: seq<string>, i: nat)
    requires Built(m, channels, exprs, procIds, roots, initial) && RefCycle(m, names) && i < |names|
    ensures LeadsWithin(exprs, procIds, roots, names, i)
  {
    hide RootAt, Stands, Ordered, Distinct;
    var k := if i == |names| - 1 then 0 else i;
    assert IsBareRef(m, names[k], names[k + 1]) && names[k] == names[i];
    var j := if k + 1 == |names| - 1 then 0 else k + 1;
    assert names[k + 1] == names[j] && IsBareRef(m, names[j], names[j + 1]);
    StepIsBareRef(m, channels, exprs, procIds, roots, initial, names[k], names[k + 1]);
  }

  ghost function RootsOfNames(procIds: map<string, nat>, roots: seq<nat>, names: seq<string>): set<nat> {
    set i | 0 <= i < |names| && names[i] in procIds && procIds[names[i]] < |roots| :: roots[procIds[names[i]]]
  }

  lemma LeadingWithinIsUnresolvable(exprs: seq<ExprNode>, procIds: map<string, nat>, roots: seq<nat>, names: seq<string>)
    requires RootsOk(exprs, roots) && names != [] && forall i: nat | i < |names| :: LeadsWithin(exprs, procIds, roots, names, i)
    ensures exists id :: Unresolvable(exprs, roots, id)
  {
    hide Unresolvable;
    var trap := RootsOfNames(procIds, roots, names);
    forall x | x in trap ensures x < |exprs| && exprs[x].NRef? && exprs[x].proc < |roots| && roots[exprs[x].proc] in trap {
      var i: nat :| i < |names| && names[i] in procIds && procIds[names[i]] < |roots| && x == roots[procIds[names[i]]];
      assert LeadsWithin(exprs, procIds, roots, names, i);
      var k: nat :| k < |names| && names[k] in procIds && exprs[x] == NRef(procIds[names[k]]);
      assert LeadsWithin(exprs, procIds, roots, names, k);
    }
    assert LeadsWithin(exprs, procIds, roots, names, 0);
    TrapIsUnresolvable(exprs, roots, trap, roots[procIds[names[0]]]);
  }

  lemma RefCycleIsUnresolvable(m: Module, channels: Channels, exprs: seq<ExprNode>, procIds: map<string, nat>, roots: seq<nat>, initial: nat, names: seq<string>)
    requires Built(m, channels, exprs, procIds, roots, initial) && RefCycle(m, names)
    ensures RootsOk(exprs, roots) && exists id :: Unresolvable(exprs, roots, id)
  {
    BuiltFacts(m, channels, exprs, procIds, roots, initial);
    assert names != [];
    hide Built, RefCycle, LeadsWithin;
    forall i: nat | i < |names| ensures LeadsWithin(exprs, procIds, roots, names, i) {
      RefCycleStep(m, channels, exprs, procIds, roots, initial, names, i);
    }
    LeadingWithinIsUnresolvable(exprs, procIds, roots, names);
  }

  // ------------------------------------------------ accepted modules are typed

  lemma CompiledIsTyped(m: Module, p: Program, procIds: map<string, nat>, roots: seq<nat>)
    requires Accepted(m) && Compiled(m, p, procIds, roots)
    ensures TypedProgram(p) && TypedNode(p, p.initial, map[])
  {
    hide Live;
    CompiledIsWellFormed(m, p, procIds, roots);
    LiveClosed(p);
    AcceptedDomains(m);
    forall n | n in p.exprs && n.NRef? ensures TypedAt(p, roots[n.proc]) {
      var x :| x in procIds && procIds[x] == n.proc;
      var d := RootOf(m, p.channels, p.exprs, procIds, roots, p.initial, x);
      assert TypedIn(d.expr, m);
      CheckedIsTyped(d.expr, p.channels, procIds, map[]);
    }
    var e := InitialExpr(m).value;
    assert TypedIn(e, m) by {
      if m.entry.None? { assert m.declarations[0] in m.declarations; }
    }
    CheckedIsTyped(e, p.channels, procIds, map[]);
    forall id: nat | IsLive(p, id) && p.exprs[id].NRef? ensures TypedNode(p, p.resolved[id], map[]) {
      LiveMentions(p, id);
      assert ResolvesTo(p.exprs, roots, id, p.resolved[id]);
      var n: nat :| Follow(p.exprs, roots, id, n) == p.resolved[id];
      assert Follow(p.exprs, roots, id, 0) == id;
      var k := FollowedIsRoot(p.exprs, roots, id, n);
      assert p.exprs[k] in p.exprs;
    }
  }

  ghost predicate TypedAt(p: Program, id: nat) {
    Ordered(p.exprs) && id < |p.exprs| && TreeTyped(p.channels, Unfold(p.exprs, id), map[])
  }

  lemma CompiledIsWellFormed(m: Module, p: Program, procIds: map<string, nat>, roots: seq<nat>)
    requires Compiled(m, p, procIds, roots)
    ensures WellFormed(p)
  {
    forall id | 0 <= id < |p.exprs| ensures p.resolved[id] < |p.exprs| && !p.exprs[p.resolved[id]].NRef? {
      assert ResolvesTo(p.exprs, roots, id, p.resolved[id]);
    }
  }

  lemma AcceptedDomains(m: Module)
    requires Accepted(m)
    ensures DomainsOk(Keyed(Declared(m.channels)))
  {
    var channels := Keyed(Declared(m.channels));
    forall ch | ch in channels && channels[ch].IntRange? ensures channels[ch].min <= channels[ch].max {
      KeyedMembers(Declared(m.channels), ch);
      var i :| 0 <= i < |Declared(m.channels)| && Declared(m.channels)[i] == (ch, channels[ch]);
      DeclaredDomain(m.channels, i);
    }
  }

  lemma {:induction false} DeclaredDomain(decls: seq<ChannelDecl>, i: nat)
    requires (forall d | d in decls :: Supported(d.domain, true)) && i < |Declared(decls)|
    ensures var d := Declared(decls)[i].1; d.IntRange? ==> d.min <= d.max
  {
    var n := |decls| - 1;
    var last := decls[n];
    assert last in decls;
    var k := i - |Declared(decls[..n])|;
    if k < 0 {
      DeclaredDomain(decls[..n], i);
    } else {
      assert Declared(decls)[i] == Entries(last.names, DomainOf(last.domain))[k];
      assert Declared(decls)[i].1 == DomainOf(last.domain);
    }
  }

  lemma {:induction false} FollowedIsRoot(exprs: seq<ExprNode>, roots: seq<nat>, id: nat, n: nat) returns (k: nat)
    requires RootsOk(exprs, roots) && id < |exprs| && exprs[id].NRef? && !exprs[Follow(exprs, roots, id, n)].NRef?
    ensures k < |exprs| && exprs[k].NRef? && roots[exprs[k].proc] == Follow(exprs, roots, id, n)
  {
    assert n > 0;
    var m := Follow(exprs, roots, id, n - 1);
    if exprs[m].NRef? {
      k := m;
    } else {
      k := FollowedIsRoot(exprs, roots, id, n - 1);
    }
  }

  // -------------------------------------------------------------- every run

  /** A guarded program as a transition system, for a given codec. */
  function Provider(p: Program, enc: State -> Lts.Bytes): Lts.Lts<State>
    requires Guarded(p)
  {
    LiveClosed(p);
    Lts.Lts(StateFromExpr(p, p.initial, map[]), s => if ValidState(p, s) then Transitions(p, s) else [], enc)
  }

  /** No prefix in the state, inside parallel and hiding states too, is stuck: its event
      can happen, and its steps are never found to be none. */
  ghost predicate PrefixesMove(p: Program, s: State)
    requires WellFormed(p) && Tabled(p, s)
  {
    match s
    case Expr(id, env) =>
      p.exprs[id].NPrefix? ==>
        EvalEvent(p.channels, p.exprs[id].event, env) != [] && forall depth: nat :: SearchN(p, s, depth) != Some([])
    case Par(_, l, r) => PrefixesMove(p, l) && PrefixesMove(p, r)
    case Hid(_, inner) => PrefixesMove(p, inner)
  }

  lemma {:induction false} TypedPrefixesMove(p: Program, s: State)
    requires TypedProgram(p) && Tabled(p, s) && TypedState(p, s)
    ensures PrefixesMove(p, s)
  {
    match s
    case Expr(id, env) =>
      if p.exprs[id].NPrefix? {
        TypedPrefixMoves(p, id, env, 0);
        forall depth: nat ensures SearchN(p, s, depth) != Some([]) { TypedPrefixMoves(p, id, env, depth); }
      }
    case Par(_, l, r) => TypedPrefixesMove(p, l); TypedPrefixesMove(p, r);
    case Hid(_, inner) => TypedPrefixesMove(p, inner);
  }

  /** Over every run: all states are typed and in normal form, and every label is the
      internal action, a unit channel, or a value in its channel's range. */
  lemma {:induction false} RunsAreSound(p: Program, enc: State -> Lts.Bytes, depth: nat, ss: seq<State>, ls: Lts.Trace, i: nat)
    requires TypedProgram(p) && TypedNode(p, p.initial, map[]) && BuildN(p, p.initial, map[], depth).Some?
    requires Lts.IsRun(Searched(p, enc, depth), ss, ls) && ss[0] == Searched(p, enc, depth).init && i < |ss|
    ensures Sound(p, ss[i])
    ensures i < |ls| ==> LabelTyped(p.channels, ls[i])
  {
    assert WellFormed(p);
    hide LabelTyped, Sound, SearchN, BuildN, TypedNode, TypedProgram, WellFormed;
    if i == 0 {
      EmptyHasType();
      BuiltIsSound(p, p.initial, map[], map[], depth);
    } else {
      RunsAreSound(p, enc, depth, ss, ls, i - 1);
      AnswersAreSound(p, ss[i - 1], depth);
      assert Lts.Edge(Searched(p, enc, depth), ss[i - 1], ls[i - 1], ss[i]);
    }
    if i < |ls| {
      AnswersAreSound(p, ss[i], depth);
      assert Lts.Edge(Searched(p, enc, depth), ss[i], ls[i], ss[i + 1]);
    }
  }

  lemma AnswersAreSound(p: Program, s: State, depth: nat)
    requires TypedProgram(p) && Sound(p, s)
    ensures SoundSteps(p, Answer(p, s, depth))
  {
    hide Sound;
    StepsAreTyped(p, s, depth);
  }

  /** An accepted module is sound in every run of what it compiles to. */
  lemma AcceptedModulesAreSound(m: Module, p: Program, enc: State -> Lts.Bytes, depth: nat, ss: seq<State>, ls: Lts.Trace, i: nat)
    requires Accepted(m) && CompilesTo(m, p) && WellFormed(p) && BuildN(p, p.initial, map[], depth).Some?
    requires Lts.IsRun(Searched(p, enc, depth), ss, ls) && ss[0] == Searched(p, enc, depth).init && i < |ss|
    ensures Sound(p, ss[i]) && Tabled(p, ss[i]) && PrefixesMove(p, ss[i])
    ensures i < |ls| ==> LabelTyped(p.channels, ls[i])
  {
    CompilesToIsCompiled(m, p);
    CompiledIsTyped(m, p, IdsOf(m), TableOf(m).value.roots);
    hide Accepted, Compiled;
    RunsAreSound(p, enc, depth, ss, ls, i);
    StepsAreTyped(p, ss[i], depth);
    TypedPrefixesMove(p, ss[i]);
  }

  // ------------------------------------------------------------- the builder

  ghost predicate HoldsBodies(decls: seq<ProcessDecl>, processes: map<string, Process>) {
    && (forall x | x in processes :: exists d :: d in decls && d.name == x)
    && forall d | d in decls :: d.name in processes && processes[d.name] == d.expr
  }

  /** The bodies of the declared processes by name, unless one is declared twice. */
  method CollectProcesses(decls: seq<ProcessDecl>) returns (r: Option<map<string, Process>>)
    ensures r.Some? <==> DistinctNames(decls)
    ensures r.Some? ==> HoldsBodies(decls, r.value)
  {
    var bodies: map<string, Process> := map[];
    for i := 0 to |decls|
      invariant HoldsBodies(decls[..i], bodies) && DistinctNames(decls[..i])
    {
      HoldsNext(decls, bodies, i);
      if decls[i].name in bodies {
        return None;
      }
      bodies := bodies[decls[i].name := decls[i].expr];
    }
    assert decls[..|decls|] == decls;
    r := Some(bodies);
  }

  lemma HoldsNext(decls: seq<ProcessDecl>, bodies: map<string, Process>, i: nat)
    requires i < |decls| && HoldsBodies(decls[..i], bodies) && DistinctNames(decls[..i])
    ensures decls[i].name in bodies ==> !DistinctNames(decls)
    ensures decls[i].name !in bodies ==>
              DistinctNames(decls[..i + 1]) && HoldsBodies(decls[..i + 1], bodies[decls[i].name := decls[i].expr])
  {
    var d, some, all := decls[i], decls[..i], decls[..i + 1];
    assert all == some + [d];
    if d.name in bodies {
      var e :| e in some && e.name == d.name;
      var j :| 0 <= j < i && some[j] == e;
      assert decls[j].name == decls[i].name;
    } else {
      forall j, k | 0 <= j < k < |all| ensures all[j].name != all[k].name {
        assert all[j] in some;
      }
      var more := bodies[d.name := d.expr];
      forall x | x in more ensures exists e :: e in all && e.name == x {
        if x != d.name {
          var e :| e in some && e.name == x;
          assert e in all;
        } else {
          assert d in all;
        }
      }
    }
  }

  /** Numbers the names as they come. */
  method NumberNames(names: seq<string>) returns (ids: map<string, nat>)
    requires Distinct(names)
    ensures ids == Numbered(names)
  {
    ids := map[];
    for i := 0 to |names|
      invariant Distinct(names[..i]) && ids == Numbered(names[..i])
    {
      NumberedNext(names, i);
      ids := ids[names[i] := i];
    }
    assert names[..|names|] == names;
  }

  lemma NumberedNext(names: seq<string>, i: nat)
    requires Distinct(names) && i < |names|
    ensures Distinct(names[..i]) && Distinct(names[..i + 1]) && Numbered(names[..i + 1]) == Numbered(names[..i])[names[i] := i]
  {
    var all, some := Numbered(names[..i + 1]), Numbered(names[..i]);
    assert names[..i + 1] == names[..i] + [names[i]];
    forall x ensures x in all <==> x in some || x == names[i] {
      if x == names[i] { assert names[..i + 1][i] == x; }
      if x in some {
        var k :| 0 <= k < i && names[..i][k] == x;
        assert names[..i + 1][k] == x;
      }
    }
  }

  function Listed(names: seq<string>, processes: map<string, Process>): seq<Process>
    requires forall x | x in names :: x in processes
  {
    seq(|names|, i requires 0 <= i < |names| => processes[names[i]])
  }

  lemma ListedInOrder(m: Module, processes: map<string, Process>)
    requires DistinctNames(m.declarations) && HoldsBodies(m.declarations, processes)
    ensures processes.Keys == ProcessNames(m)
    ensures (forall x | x in NamesInOrder(m) :: x in processes) && Listed(NamesInOrder(m), processes) == BodiesInOrder(m)
  {
    var names, bodies := NamesInOrder(m), BodiesInOrder(m);
    assert processes.Keys == ProcessNames(m);
    forall x | x in names ensures x in processes { assert x in Members(names); }
    BodiesAreDeclared(m);
    hide NamesInOrder, ProcessNames, DistinctNames, BodiesInOrder, IdsOf;
    forall k | 0 <= k < |bodies| ensures names[k] in processes && processes[names[k]] == bodies[k] {
      HeldBody(m, processes, ProcessDecl(names[k], bodies[k]));
    }
    assert Listed(names, processes) == bodies by { ListedAre(names, processes, bodies); }
  }

  lemma HeldBody(m: Module, processes: map<string, Process>, d: ProcessDecl)
    requires HoldsBodies(m.declarations, processes) && d in m.declarations
    ensures d.name in processes && processes[d.name] == d.expr
  {}

  lemma ListedAre(names: seq<string>, processes: map<string, Process>, bodies: seq<Process>)
    requires |names| == |bodies| && (forall x | x in names :: x in processes)
    requires forall k | 0 <= k < |bodies| :: names[k] in processes && processes[names[k]] == bodies[k]
    ensures Listed(names, processes) == bodies
  {}

  lemma BuilderRootsOk(exprs: seq<ExprNode>, roots: seq<nat>, ids: map<string, nat>)
    requires |roots| == |ids| && (forall x | x in ids :: ids[x] < |ids|)
    requires forall n | n in exprs && n.NRef? :: n.proc in ids.Values
    requires forall k | 0 <= k < |roots| :: roots[k] < |exprs|
    ensures RootsOk(exprs, roots)
  {
    forall id | 0 <= id < |exprs| && exprs[id].NRef? ensures exprs[id].proc < |roots| {
      assert exprs[id] in exprs;
      var x :| x in ids && ids[x] == exprs[id].proc;
    }
  }

  lemma BuiltRoots(m: Module, channels: Channels, exprs: seq<ExprNode>, procIds: map<string, nat>, roots: seq<nat>, initial: nat)
    requires Built(m, channels, exprs, procIds, roots, initial)
    ensures RootsOk(exprs, roots)
  {}

  /** Resolves the references of the table, or fails exactly when some processes are
      only words for each other. */
  method Finish(m: Module, channels: Channels, exprs: seq<ExprNode>, roots: seq<nat>, initial: nat) returns (r: Option<Program>)
    requires Buildable(m) && HasTable(m, Table(exprs, roots, initial)) && channels == Keyed(Declared(m.channels))
    ensures r.Some? ==> CompilesTo(m, r.value)
    ensures r.None? <==> exists id :: Unresolvable(exprs, roots, id)
    ensures r.None? <==> exists names :: RefCycle(m, names)
  {
    hide Built, Unresolvable, RefCycle, Buildable, TableOf;
    assert RootsOk(exprs, roots) by { BuiltRoots(m, channels, exprs, IdsOf(m), roots, initial); }
    var resolved := ComputeResolved(exprs, roots);
    if id :| Unresolvable(exprs, roots, id) {
      var names := UnresolvableIsRefCycle(m, channels, exprs, IdsOf(m), roots, initial, id);
    }
    if names :| RefCycle(m, names) {
      RefCycleIsUnresolvable(m, channels, exprs, IdsOf(m), roots, initial, names);
    }
    r := if resolved.None? then None else Some(Program(channels, exprs, resolved.value, initial));
  }

  /** Compiles the entry, then the bodies. */
  method BuildTable(entry: Process, bodies: seq<Process>, ids: map<string, nat>) returns (t: Option<Table>)
    requires |ids| == |bodies|
    ensures t == Assemble(entry, bodies, ids)
  {
    hide Core, Compile, CompileBodies, Unfold;
    AssembleMeans(entry, bodies, ids);
    var builder := new ProgramBuilder(ids);
    var first := builder.CompileExpr(entry);
    if first.None? {
      return None;
    }
    var ok := builder.CompileRoots(bodies);
    t := if ok then Some(Table(builder.exprs, builder.procRoots, first.value)) else None;
  }

  /** Compiles a module: exactly when it can be built and no processes are only words for
      each other. The program is the one that the table of the module determines. */
  method CompileModule(m: Module) returns (r: Option<Program>)
    ensures r.Some? <==> Compilable(m)
    ensures r.Some? ==> CompilesTo(m, r.value) && EntryStands(m, r.value)
    ensures m.entry.None? && |m.declarations| != 1 ==> r.None?
    ensures Buildable(m) ==> TableOf(m).Some? && HasTable(m, TableOf(m).value)
    ensures Buildable(m) ==> (r.None? <==> exists id :: Unresolvable(TableOf(m).value.exprs, TableOf(m).value.roots, id))
  {
    BuildableExactly(m);
    hide Declared, Keyed, Unresolvable, RefCycle, Built, IdsOf, BodiesInOrder, Assemble, Buildable, NoChannelTwice, DomainsFit, ChannelsAre,
         EntryStands, CompilesTo;
    r := None;
    var channels := CollectChannels(m.channels, false);
    if channels.Err? {
      return;
    }
    var processes := CollectProcesses(m.declarations);
    if processes.None? {
      return;
    }
    ListedInOrder(m, processes.value);
    var names := Sorted(processes.value.Keys);
    assert names == NamesInOrder(m);
    var ids := NumberNames(names);
    assert ids == IdsOf(m) by { IdsAreNumbered(m); }
    var start := InitialExpr(m);
    if start.None? {
      return;
    }
    IdsFacts(m);
    var table := BuildTable(start.value, Listed(names, processes.value), ids);
    if table.None? {
      return;
    }
    r := Finish(m, channels.value, table.value.exprs, table.value.roots, table.value.initial);
    if r.Some? { CompiledEntry(m, r.value); }
  }

  /** A module can be built exactly when its channels and names are in order and it
      has a table. */
  lemma BuildableExactly(m: Module)
    ensures Buildable(m) <==>
              && DistinctKeys(Declared(m.channels)) && (forall d | d in m.channels :: Supported(d.domain, false))
              && DistinctNames(m.declarations) && TableOf(m).Some?
    ensures DistinctNames(m.declarations) && TableOf(m).Some? ==> HasTable(m, TableOf(m).value)
  {
    DistinctIsNoTwice(m.channels);
    SupportedIsFit(m.channels, false);
    BuildableEntry(m);
    EntryHasCore(m);
    hide Core, Declared, Keyed, Meaningful, TableOf, HasTable, NoChannelTwice, DomainsFit, DistinctKeys, Supported, IsEntry, InitialExpr, IdsOf;
    if DistinctNames(m.declarations) {
      TableIsBuilt(m);
      forall d | d in m.declarations ensures Meaningful(d.expr, ProcessNames(m)) <==> Core(d.expr, IdsOf(m)).Some? {
        MeaningfulInOrder(m, d.expr);
      }
    }
  }

  lemma MeaningfulInOrder(m: Module, e: Process)
    ensures Meaningful(e, ProcessNames(m)) <==> Core(e, IdsOf(m)).Some?
  {
    IdsFacts(m);
    MeaningfulIsCore(e, IdsOf(m));
  }

  lemma EntryHasCore(m: Module)
    ensures InitialExpr(m).Some? ==> (Meaningful(InitialExpr(m).value, ProcessNames(m)) <==> Core(InitialExpr(m).value, IdsOf(m)).Some?)
  {
    if InitialExpr(m).Some? { MeaningfulInOrder(m, InitialExpr(m).value); }
  }

  /** What the entry of a compiled module is. */
  ghost predicate EntryStands(m: Module, p: Program) {
    && (m.entry.Some? ==> Stands(p.exprs, p.initial, m.entry.value, IdsOf(m)))
    && (m.entry.None? ==> |m.declarations| == 1 && Stands(p.exprs, p.initial, m.declarations[0].expr, IdsOf(m)))
  }

  lemma CompiledEntry(m: Module, p: Program)
    requires CompilesTo(m, p)
    ensures EntryStands(m, p)
  {
    hide Stands, Ordered, Distinct, RootsOk, RootAt, Injective, IdsOf, Buildable, TableOf;
    assert InitialExpr(m).Some?;
    assert IsEntry(m, InitialExpr(m).value);
  }

  // -------------------------------------------------- the program of a module

  /** Without endless references every position resolves. */
  lemma AllResolve(exprs: seq<ExprNode>, roots: seq<nat>) returns (resolved: seq<nat>)
    requires RootsOk(exprs, roots) && forall id :: !Unresolvable(exprs, roots, id)
    ensures AllResolved(exprs, roots, resolved)
  {
    resolved := [];
    for k := 0 to |exprs|
      invariant |resolved| == k && forall id | 0 <= id < k :: ResolvesTo(exprs, roots, id, resolved[id])
    {
      assert !Unresolvable(exprs, roots, k);
      var n: nat :| !exprs[Follow(exprs, roots, k, n)].NRef?;
      resolved := resolved + [Follow(exprs, roots, k, n)];
    }
  }

  lemma CompilableCompiles(m: Module)
    requires Compilable(m)
    ensures exists p :: CompilesTo(m, p)
  {
    hide Built, RefCycle, Unresolvable, ResolvesTo, Buildable, TableOf;
    BuildableExactly(m);
    var t := TableOf(m).value;
    var channels := Keyed(Declared(m.channels));
    BuiltRoots(m, channels, t.exprs, IdsOf(m), t.roots, t.initial);
    forall id ensures !Unresolvable(t.exprs, t.roots, id) {
      if Unresolvable(t.exprs, t.roots, id) {
        var names := UnresolvableIsRefCycle(m, channels, t.exprs, IdsOf(m), t.roots, t.initial, id);
      }
    }
    var resolved := AllResolve(t.exprs, t.roots);
    assert CompilesTo(m, Program(channels, t.exprs, resolved, t.initial));
  }

  /** The program that a module compiles to. */
  ghost function ProgramOf(m: Module): (p: Program)
    requires Compilable(m)
    ensures CompilesTo(m, p) && WellFormed(p)
  {
    CompilableCompiles(m);
    var p :| CompilesTo(m, p);
    CompilesToIsCompiled(m, p);
    CompiledIsWellFormed(m, p, IdsOf(m), TableOf(m).value.roots);
    p
  }

  /** A compiled program and the state it starts in. */
  datatype TransitionProvider = TransitionProvider(program: Program, initial: State)

  /** From a module to the program and the state it starts in, which is built with at most
      `depth` nested calls. */
  method FromModule(m: Module, depth: nat) returns (r: Option<TransitionProvider>)
    requires Compilable(m) ==> BuildN(ProgramOf(m), ProgramOf(m).initial, map[], depth).Some?
    ensures r.Some? <==> Compilable(m)
    ensures r.Some? ==> EntryStands(m, r.value.program)
    ensures m.entry.None? && |m.declarations| != 1 ==> r.None?
    ensures r.Some? ==> r.value.program == ProgramOf(m) && Some(r.value.initial) == BuildN(ProgramOf(m), ProgramOf(m).initial, map[], depth)
  {
    hide Compilable, CompilesTo, BuildN;
    var p := CompileModule(m);
    if p.None? {
      return None;
    }
    CompilesToOne(m, p.value, ProgramOf(m));
    r := Some(TransitionProvider(p.value, BuildN(p.value, p.value.initial, map[], depth).value));
  }
}
