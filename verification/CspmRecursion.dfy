/** Which modules compile to guarded programs, said of their declarations. */
module CspmRecursion {
  import opened CspmSyntax
  import opened CspmCompile
  import opened CspmStep
  import opened CspmSearch
  import opened CspmProvider
  import opened CspmGuarded

  /** The processes an expression refers to. */
  function Refers(e: Process): set<string> {
    match e
    case Stop => {}
    case Ref(name) => {name}
    case Prefix(_, next) => Refers(next)
    case Choice(_, l, r) => Refers(l) + Refers(r)
    case Parallel(_, l, r, _) => Refers(l) + Refers(r)
    case Hide(inner, _) => Refers(inner)
  }

  /** The processes it refers to without a prefix or an internal choice before them. */
  function Unguarded(e: Process): set<string> {
    match e
    case Stop => {}
    case Ref(name) => {name}
    case Prefix(_, _) => {}
    case Choice(kind, l, r) => if kind == External then Unguarded(l) + Unguarded(r) else {}
    case Parallel(_, l, r, _) => Unguarded(l) + Unguarded(r)
    case Hide(inner, _) => Unguarded(inner)
  }

  ghost predicate BodyRefers(m: Module, x: string, y: string) {
    exists d :: d in m.declarations && d.name == x && y in Refers(d.expr)
  }

  ghost predicate BodyNeeds(m: Module, x: string, y: string) {
    exists d :: d in m.declarations && d.name == x && y in Unguarded(d.expr)
  }

  /** Names that lead from the entry to `x`, each in the body of the one before. */
  ghost predicate ReferPath(m: Module, path: seq<string>, x: string) {
    && path != [] && path[|path| - 1] == x
    && InitialExpr(m).Some? && path[0] in Refers(InitialExpr(m).value)
    && forall i | 0 <= i < |path| - 1 :: BodyRefers(m, path[i], path[i + 1])
  }

  ghost predicate NameReached(m: Module, x: string) {
    exists path :: ReferPath(m, path, x)
  }

  ghost predicate NeedsWithin(m: Module, names: set<string>, x: string) {
    exists y :: y in names && BodyNeeds(m, x, y)
  }

  /** Processes within reach of the entry, of which each needs another one of them
      before its first event. */
  ghost predicate EndlessNames(m: Module, names: set<string>) {
    names != {} && forall x {:trigger NameReached(m, x)} {:trigger NeedsWithin(m, names, x)} | x in names ::
      NameReached(m, x) && NeedsWithin(m, names, x)
  }

  // -------------------------------------------------------- compiled trees

  function TreeRefers(t: Tree): set<nat> {
    match t
    case TStop => {}
    case TRef(k) => {k}
    case TPrefix(_, next) => TreeRefers(next)
    case TExternal(l, r) => TreeRefers(l) + TreeRefers(r)
    case TInternal(l, r) => TreeRefers(l) + TreeRefers(r)
    case TParallel(l, r, _) => TreeRefers(l) + TreeRefers(r)
    case THide(inner, _) => TreeRefers(inner)
  }

  function TreeUnguarded(t: Tree): set<nat> {
    match t
    case TRef(k) => {k}
    case TExternal(l, r) => TreeUnguarded(l) + TreeUnguarded(r)
    case TParallel(l, r, _) => TreeUnguarded(l) + TreeUnguarded(r)
    case THide(inner, _) => TreeUnguarded(inner)
    case _ => {}
  }

  lemma {:induction false} UnguardedIsReferred(t: Tree)
    ensures TreeUnguarded(t) <= TreeRefers(t)
  {
    match t
    case TExternal(l, r) => UnguardedIsReferred(l); UnguardedIsReferred(r);
    case TParallel(l, r, _) => UnguardedIsReferred(l); UnguardedIsReferred(r);
    case THide(inner, _) => UnguardedIsReferred(inner);
    case _ =>
  }

  ghost function Named(ids: map<string, nat>, names: set<string>): set<nat> {
    set x | x in names && x in ids :: ids[x]
  }

  lemma NamedSum(ids: map<string, nat>, some: set<string>, more: set<string>)
    ensures Named(ids, some + more) == Named(ids, some) + Named(ids, more)
  {}

  /** Compilation keeps what is referred to, and how. */
  lemma {:induction false} CoreRefers(e: Process, ids: map<string, nat>)
    requires Core(e, ids).Some?
    ensures Refers(e) <= ids.Keys && Unguarded(e) <= ids.Keys
    ensures TreeRefers(Core(e, ids).value) == Named(ids, Refers(e))
    ensures TreeUnguarded(Core(e, ids).value) == Named(ids, Unguarded(e))
    decreases e, 1
  {
    match e
    case Stop =>
    case Ref(_) =>
    case Prefix(_, next) => CoreRefers(next, ids);
    case Choice(_, l, r) => CoreRefersBoth(e, l, r, ids);
    case Parallel(_, l, r, _) => CoreRefersBoth(e, l, r, ids);
    case Hide(inner, _) => CoreRefers(inner, ids);
  }

  lemma {:induction false} CoreRefersBoth(e: Process, l: Process, r: Process, ids: map<string, nat>)
    requires l < e && r < e && Core(l, ids).Some? && Core(r, ids).Some?
    ensures Refers(l) + Refers(r) <= ids.Keys && Unguarded(l) + Unguarded(r) <= ids.Keys
    ensures TreeRefers(Core(l, ids).value) + TreeRefers(Core(r, ids).value) == Named(ids, Refers(l) + Refers(r))
    ensures TreeUnguarded(Core(l, ids).value) + TreeUnguarded(Core(r, ids).value) == Named(ids, Unguarded(l) + Unguarded(r))
    decreases e, 0
  {
    CoreRefers(l, ids);
    CoreRefers(r, ids);
    NamedSum(ids, Refers(l), Refers(r));
    NamedSum(ids, Unguarded(l), Unguarded(r));
  }

  lemma InNamed(ids: map<string, nat>, names: set<string>, x: string)
    requires Injective(ids) && x in ids
    ensures ids[x] in Named(ids, names) <==> x in names
  {}

  ghost function At(p: Program, id: nat): Tree
    requires WellFormed(p) && id < |p.exprs|
  {
    Unfold(p.exprs, id)
  }

  // ---------------------------------------------- what a compiled module is

  /** A compiled module, its processes numbered and their bodies found in the table. */
  ghost predicate Compilation(m: Module, p: Program, ids: map<string, nat>, roots: seq<nat>) {
    && Compiled(m, p, ids, roots)
    && WellFormed(p) && Injective(ids) && RootsOk(p.exprs, roots)
    && (forall x | x in ids :: ids[x] < |roots|)
    && (forall k | k in ids.Values :: k < |roots|)
  }

  lemma IsCompilation(m: Module, p: Program, ids: map<string, nat>, roots: seq<nat>)
    requires Compiled(m, p, ids, roots)
    ensures Compilation(m, p, ids, roots)
  {
    CompiledIsWellFormed(m, p, ids, roots);
  }

  lemma RefsAreNamed(m: Module, p: Program, ids: map<string, nat>, roots: seq<nat>, id: nat)
    requires Compilation(m, p, ids, roots) && id < |p.exprs| && p.exprs[id].NRef?
    ensures p.exprs[id].proc in ids.Values
  {
    assert p.exprs[id] in p.exprs;
  }

  /** A body needs, and refers to, what its tree in the table does. */
  lemma BodyInTable(m: Module, p: Program, ids: map<string, nat>, roots: seq<nat>, x: string, y: string)
    requires Compilation(m, p, ids, roots) && x in ids && y in ids
    ensures BodyNeeds(m, x, y) <==> ids[y] in TreeUnguarded(At(p, roots[ids[x]]))
    ensures BodyRefers(m, x, y) <==> ids[y] in TreeRefers(At(p, roots[ids[x]]))
  {
    var d := RootOf(m, p.channels, p.exprs, ids, roots, p.initial, x);
    CoreRefers(d.expr, ids);
    InNamed(ids, Unguarded(d.expr), y);
    InNamed(ids, Refers(d.expr), y);
    forall e | e in m.declarations && e.name == x
      ensures Unguarded(e.expr) <= ids.Keys && Named(ids, Unguarded(e.expr)) == TreeUnguarded(At(p, roots[ids[x]]))
      ensures Refers(e.expr) <= ids.Keys && Named(ids, Refers(e.expr)) == TreeRefers(At(p, roots[ids[x]]))
    {
      assert RootAt(p.exprs, roots, e, ids);
      CoreRefers(e.expr, ids);
    }
  }

  lemma BodyNames(m: Module, p: Program, ids: map<string, nat>, roots: seq<nat>, x: string, y: string)
    requires Compilation(m, p, ids, roots) && (BodyNeeds(m, x, y) || BodyRefers(m, x, y))
    ensures x in ids && y in ids
  {
    var d :| d in m.declarations && d.name == x && (y in Unguarded(d.expr) || y in Refers(d.expr));
    assert RootAt(p.exprs, roots, d, ids);
    CoreRefers(d.expr, ids);
  }

  lemma EntryInTable(m: Module, p: Program, ids: map<string, nat>, roots: seq<nat>)
    requires Compilation(m, p, ids, roots)
    ensures InitialExpr(m).Some? && Refers(InitialExpr(m).value) <= ids.Keys
    ensures TreeRefers(At(p, p.initial)) == Named(ids, Refers(InitialExpr(m).value))
  {
    CoreRefers(InitialExpr(m).value, ids);
  }

  // ------------------------------------------------------ chains of references

  /** A reference ends where the body of its process ends; anything else ends at itself. */
  lemma ResolvedAlike(m: Module, p: Program, ids: map<string, nat>, roots: seq<nat>, id: nat)
    requires Compilation(m, p, ids, roots) && id < |p.exprs|
    ensures p.exprs[id].NRef? ==> p.resolved[id] == p.resolved[roots[p.exprs[id].proc]]
    ensures !p.exprs[id].NRef? ==> p.resolved[id] == id
  {
    hide Built;
    assert ResolvesTo(p.exprs, roots, id, p.resolved[id]);
    if p.exprs[id].NRef? {
      var root := roots[p.exprs[id].proc];
      assert ResolvesTo(p.exprs, roots, root, p.resolved[root]);
      var n: nat :| Follow(p.exprs, roots, root, n) == p.resolved[root];
      FollowOne(p.exprs, roots, id, n);
      ResolvesOnce(p.exprs, roots, id, p.resolved[id], p.resolved[root]);
    } else {
      assert Follow(p.exprs, roots, id, 0) == id;
      ResolvesOnce(p.exprs, roots, id, p.resolved[id], id);
    }
  }

  /** How many references lead from the position to where it ends. */
  ghost function ChainLength(m: Module, p: Program, ids: map<string, nat>, roots: seq<nat>, id: nat): (n: nat)
    requires Compilation(m, p, ids, roots) && id < |p.exprs|
    ensures Follow(p.exprs, roots, id, n) == p.resolved[id]
  {
    assert ResolvesTo(p.exprs, roots, id, p.resolved[id]);
    var n: nat :| Follow(p.exprs, roots, id, n) == p.resolved[id]; n
  }

  /** Where the process `x` ends up when it is only another word. */
  function EndOf(p: Program, ids: map<string, nat>, roots: seq<nat>, x: string): nat
    requires WellFormed(p) && RootsOk(p.exprs, roots) && x in ids && ids[x] < |roots|
  {
    p.resolved[roots[ids[x]]]
  }

  // ---------------------------------------------- names, then expressions

  ghost predicate AllNeedWithin(m: Module, names: set<string>) {
    forall z | z in names :: NeedsWithin(m, names, z)
  }

  /** A name that is only another word stands for another one of the names. */
  lemma WordWithin(m: Module, p: Program, ids: map<string, nat>, roots: seq<nat>, names: set<string>, x: string) returns (z: string)
    requires Compilation(m, p, ids, roots) && x in ids && NeedsWithin(m, names, x) && p.exprs[roots[ids[x]]].NRef?
    ensures z in names && z in ids && p.exprs[roots[ids[x]]] == NRef(ids[z])
  {
    hide Compiled;
    z :| z in names && BodyNeeds(m, x, z);
    BodyNames(m, p, ids, roots, x, z);
    BodyInTable(m, p, ids, roots, x, z);
    AtReference(p, roots[ids[x]]);
  }

  /** Among names that need each other, each ends at the body of one of them. */
  lemma {:induction false} EndWithin(m: Module, p: Program, ids: map<string, nat>, roots: seq<nat>, names: set<string>, x: string, n: nat)
    returns (y: string)
    requires Compilation(m, p, ids, roots) && x in names && x in ids && AllNeedWithin(m, names)
    requires !p.exprs[Follow(p.exprs, roots, roots[ids[x]], n)].NRef?
    ensures y in names && y in ids && EndOf(p, ids, roots, x) == roots[ids[y]]
    decreases n
  {
    hide Compiled, NeedsWithin;
    var root := roots[ids[x]];
    ResolvedAlike(m, p, ids, roots, root);
    if !p.exprs[root].NRef? {
      return x;
    }
    var z := WordWithin(m, p, ids, roots, names, x);
    hide AllNeedWithin, WellFormed;
    assert n > 0;
    FollowOne(p.exprs, roots, root, n - 1);
    y := EndWithin(m, p, ids, roots, names, z, n - 1);
  }

  /** A live expression that refers to a process leads to a live reference to it. */
  lemma {:induction false} FindReference(p: Program, id: nat, k: nat) returns (r: nat)
    requires WellFormed(p) && IsLive(p, id) && k in TreeRefers(At(p, id))
    ensures IsLive(p, r) && p.exprs[r] == NRef(k)
  {
    hide Live;
    LiveMentions(p, id);
    assert ChildrenBelow(p.exprs[id], id);
    match p.exprs[id]
    case NRef(_) => r := id;
    case NPrefix(_, next) => r := FindReference(p, next, k);
    case NExternal(a, b) => r := FindReference(p, if k in TreeRefers(At(p, a)) then a else b, k);
    case NInternal(a, b) => r := FindReference(p, if k in TreeRefers(At(p, a)) then a else b, k);
    case NParallel(a, b, _) => r := FindReference(p, if k in TreeRefers(At(p, a)) then a else b, k);
    case NHide(inner, _) => r := FindReference(p, inner, k);
  }

  lemma ReferredEndIsLive(m: Module, p: Program, ids: map<string, nat>, roots: seq<nat>, id: nat, x: string)
    requires Compilation(m, p, ids, roots) && x in ids && IsLive(p, id) && ids[x] in TreeRefers(At(p, id))
    ensures IsLive(p, EndOf(p, ids, roots, x))
  {
    hide Compiled, Live;
    var r := FindReference(p, id, ids[x]);
    LiveMentions(p, r);
    assert p.resolved[r] in Mentions(p, r);
    ResolvedAlike(m, p, ids, roots, r);
  }

  /** What the entry reaches by name ends within its reach. */
  lemma {:induction false} ReachedEndIsLive(m: Module, p: Program, ids: map<string, nat>, roots: seq<nat>, path: seq<string>, x: string)
    requires Compilation(m, p, ids, roots) && ReferPath(m, path, x)
    ensures x in ids && IsLive(p, EndOf(p, ids, roots, x))
    decreases |path|
  {
    hide Compiled, Live, WellFormed;
    EntryInTable(m, p, ids, roots);
    if |path| == 1 {
      LiveClosed(p);
      InNamed(ids, Refers(InitialExpr(m).value), x);
      ReferredEndIsLive(m, p, ids, roots, p.initial, x);
    } else {
      var n := |path| - 1;
      var w := path[n - 1];
      assert BodyRefers(m, path[n - 1], path[n]);
      BodyNames(m, p, ids, roots, w, x);
      BodyInTable(m, p, ids, roots, w, x);
      ReachedEndIsLive(m, p, ids, roots, path[..n], w);
      var root := roots[ids[w]];
      ResolvedAlike(m, p, ids, roots, root);
      if p.exprs[root].NRef? {
        assert p.exprs[root].proc == ids[x];
      } else {
        ReferredEndIsLive(m, p, ids, roots, root, x);
      }
    }
  }

  ghost predicate NeedsOneOf(p: Program, ids: map<string, nat>, names: set<string>, id: nat) {
    WellFormed(p) && id < |p.exprs| && exists y :: y in names && y in ids && ids[y] in TreeUnguarded(At(p, id))
  }

  ghost function NeedingOneOf(p: Program, ids: map<string, nat>, names: set<string>): set<nat> {
    set id | id in Live(p) && NeedsOneOf(p, ids, names, id)
  }

  lemma BodyNeedsOneOf(m: Module, p: Program, ids: map<string, nat>, roots: seq<nat>, names: set<string>, y: string)
    requires Compilation(m, p, ids, roots) && y in ids && NeedsWithin(m, names, y)
    ensures NeedsOneOf(p, ids, names, roots[ids[y]])
  {
    hide Compiled;
    var z :| z in names && BodyNeeds(m, y, z);
    BodyNames(m, p, ids, roots, y, z);
    BodyInTable(m, p, ids, roots, y, z);
  }

  lemma EndIsIn(m: Module, p: Program, ids: map<string, nat>, roots: seq<nat>, names: set<string>, x: string)
    requires Compilation(m, p, ids, roots) && EndlessNames(m, names) && x in names
    ensures x in ids && EndOf(p, ids, roots, x) in NeedingOneOf(p, ids, names)
  {
    hide Compiled, Live, WellFormed, NeedsWithin, ReferPath, NeedsOneOf;
    assert NameReached(m, x);
    var path :| ReferPath(m, path, x);
    ReachedEndIsLive(m, p, ids, roots, path, x);
    forall z | z in names ensures NeedsWithin(m, names, z) { assert NameReached(m, z); }
    hide EndlessNames, NameReached;
    var n := ChainLength(m, p, ids, roots, roots[ids[x]]);
    EndIsNoReference(m, p, ids, roots, roots[ids[x]]);
    var y := EndWithin(m, p, ids, roots, names, x, n);
    BodyNeedsOneOf(m, p, ids, roots, names, y);
  }

  lemma EndIsNoReference(m: Module, p: Program, ids: map<string, nat>, roots: seq<nat>, id: nat)
    requires Compilation(m, p, ids, roots) && id < |p.exprs|
    ensures p.resolved[id] < |p.exprs| && !p.exprs[p.resolved[id]].NRef?
  {}

  lemma NeedingNeedsAnother(m: Module, p: Program, ids: map<string, nat>, roots: seq<nat>, names: set<string>, id: nat)
    requires Compilation(m, p, ids, roots) && EndlessNames(m, names) && id in NeedingOneOf(p, ids, names)
    ensures IsLive(p, id) && NeedsAnother(p, NeedingOneOf(p, ids, names), id)
  {
    hide Compiled, Live, EndlessNames;
    var t := NeedingOneOf(p, ids, names);
    var y :| y in names && y in ids && ids[y] in TreeUnguarded(At(p, id));
    LiveMentions(p, id);
    assert ChildrenBelow(p.exprs[id], id);
    match p.exprs[id]
    case NRef(k) =>
      ResolvedAlike(m, p, ids, roots, id);
      EndIsIn(m, p, ids, roots, names, y);
      assert p.resolved[id] in Needs(p, id) && p.resolved[id] in t;
    case NExternal(a, b) =>
      assert a in Mentions(p, id) && b in Mentions(p, id);
      assert a in Needs(p, id) && b in Needs(p, id) && (a in t || b in t);
    case NParallel(a, b, _) =>
      assert a in Mentions(p, id) && b in Mentions(p, id);
      assert a in Needs(p, id) && b in Needs(p, id) && (a in t || b in t);
    case NHide(inner, _) =>
      assert inner in Mentions(p, id);
      assert inner in Needs(p, id) && inner in t;
  }

  lemma SomeName(m: Module, names: set<string>) returns (x: string)
    requires EndlessNames(m, names)
    ensures x in names
  {
    x :| x in names;
  }

  lemma EndlessNamesLoop(m: Module, p: Program, ids: map<string, nat>, roots: seq<nat>, names: set<string>)
    requires Compilation(m, p, ids, roots) && EndlessNames(m, names)
    ensures LiveEndless(p, NeedingOneOf(p, ids, names))
  {
    hide *;
    var t := NeedingOneOf(p, ids, names);
    var x := SomeName(m, names);
    EndIsIn(m, p, ids, roots, names, x);
    forall id | id in t ensures IsLive(p, id) && NeedsAnother(p, t, id) {
      NeedingNeedsAnother(m, p, ids, roots, names, id);
    }
    NeedsMakeLoop(p, t);
  }

  lemma NeedsMakeLoop(p: Program, t: set<nat>)
    requires t != {} && forall id | id in t :: IsLive(p, id) && NeedsAnother(p, t, id)
    ensures LiveEndless(p, t)
  {
    hide Live, NeedsAnother;
  }

  // ---------------------------------------------- expressions, then names

  /** Everything the expression refers to is reached from the entry by name. */
  ghost predicate AllReached(m: Module, p: Program, ids: map<string, nat>, id: nat) {
    WellFormed(p) && id < |p.exprs| && forall x | x in ids && ids[x] in TreeRefers(At(p, id)) :: NameReached(m, x)
  }

  lemma ReachedBody(m: Module, p: Program, ids: map<string, nat>, roots: seq<nat>, x: string)
    requires Compilation(m, p, ids, roots) && x in ids && NameReached(m, x)
    ensures AllReached(m, p, ids, roots[ids[x]])
  {
    hide Compiled;
    var path :| ReferPath(m, path, x);
    forall y | y in ids && ids[y] in TreeRefers(At(p, roots[ids[x]])) ensures NameReached(m, y) {
      BodyInTable(m, p, ids, roots, x, y);
      var longer := path + [y];
      forall i | 0 <= i < |longer| - 1 ensures BodyRefers(m, longer[i], longer[i + 1]) {
        if i < |path| - 1 { assert BodyRefers(m, path[i], path[i + 1]); }
      }
      assert ReferPath(m, longer, y);
    }
  }

  lemma {:induction false} FollowReached(m: Module, p: Program, ids: map<string, nat>, roots: seq<nat>, id: nat, n: nat)
    requires Compilation(m, p, ids, roots) && AllReached(m, p, ids, id)
    ensures AllReached(m, p, ids, Follow(p.exprs, roots, id, n))
  {
    hide Compiled, WellFormed, NameReached;
    if n > 0 {
      FollowReached(m, p, ids, roots, id, n - 1);
      var r := Follow(p.exprs, roots, id, n - 1);
      if p.exprs[r].NRef? {
        RefsAreNamed(m, p, ids, roots, r);
        var x :| x in ids && ids[x] == p.exprs[r].proc;
        assert ids[x] in TreeRefers(At(p, r)) by { AtReference(p, r); }
        ReachedBody(m, p, ids, roots, x);
      }
    }
  }

  lemma AtReference(p: Program, id: nat)
    requires WellFormed(p) && id < |p.exprs| && p.exprs[id].NRef?
    ensures At(p, id) == TRef(p.exprs[id].proc)
  {}

  lemma MentionedReached(m: Module, p: Program, ids: map<string, nat>, roots: seq<nat>, id: nat, c: nat)
    requires Compilation(m, p, ids, roots) && AllReached(m, p, ids, id) && c in Mentions(p, id)
    ensures AllReached(m, p, ids, c)
  {
    hide Compiled, NameReached;
    MentionsInTable(p, id);
    assert ChildrenBelow(p.exprs[id], id);
    match p.exprs[id]
    case NRef(_) => FollowReached(m, p, ids, roots, id, ChainLength(m, p, ids, roots, id));
    case NPrefix(_, next) => assert TreeRefers(At(p, c)) <= TreeRefers(At(p, id));
    case NExternal(_, _) => assert TreeRefers(At(p, c)) <= TreeRefers(At(p, id));
    case NInternal(_, _) => assert TreeRefers(At(p, c)) <= TreeRefers(At(p, id));
    case NParallel(_, _, _) => assert TreeRefers(At(p, c)) <= TreeRefers(At(p, id));
    case NHide(_, _) => assert TreeRefers(At(p, c)) <= TreeRefers(At(p, id));
  }

  lemma {:induction false} SpreadReached(m: Module, p: Program, ids: map<string, nat>, roots: seq<nat>, from: set<nat>, n: nat)
    requires Compilation(m, p, ids, roots) && forall id | id in from :: AllReached(m, p, ids, id)
    ensures forall id | id in SpreadTimes(p, from, n) :: AllReached(m, p, ids, id)
    decreases n
  {
    hide Compilation, AllReached, Mentions;
    if n > 0 {
      forall c | c in Spread(p, from) ensures AllReached(m, p, ids, c) {
        if c !in from {
          var id :| id in from && c in Mentions(p, id);
          MentionedReached(m, p, ids, roots, id, c);
        }
      }
      SpreadReached(m, p, ids, roots, Spread(p, from), n - 1);
    }
  }

  lemma LiveIsReached(m: Module, p: Program, ids: map<string, nat>, roots: seq<nat>, id: nat)
    requires Compilation(m, p, ids, roots) && IsLive(p, id)
    ensures AllReached(m, p, ids, id)
  {
    hide Compiled;
    EntryInTable(m, p, ids, roots);
    forall x | x in ids && ids[x] in TreeRefers(At(p, p.initial)) ensures NameReached(m, x) {
      InNamed(ids, Refers(InitialExpr(m).value), x);
      assert ReferPath(m, [x], x);
    }
    SpreadReached(m, p, ids, roots, {p.initial}, |p.exprs|);
  }

  /** From an endless search there is an unguarded reference that stays in it. */
  lemma {:induction false} FindNeed(m: Module, p: Program, ids: map<string, nat>, roots: seq<nat>, t: set<nat>, id: nat) returns (x: string)
    requires Compilation(m, p, ids, roots) && LiveEndless(p, t) && id in t && id < |p.exprs|
    ensures x in ids && ids[x] in TreeUnguarded(At(p, id)) && EndOf(p, ids, roots, x) in t
    decreases id
  {
    hide Compiled, Live;
    assert NeedsAnother(p, t, id) && ChildrenBelow(p.exprs[id], id);
    match p.exprs[id]
    case NRef(k) =>
      RefsAreNamed(m, p, ids, roots, id);
      x :| x in ids && ids[x] == k;
      ResolvedAlike(m, p, ids, roots, id);
    case NExternal(a, b) => x := FindNeed(m, p, ids, roots, t, if a in t then a else b);
    case NParallel(a, b, _) => x := FindNeed(m, p, ids, roots, t, if a in t then a else b);
    case NHide(inner, _) => x := FindNeed(m, p, ids, roots, t, inner);
  }

  ghost predicate EndsIn(m: Module, p: Program, ids: map<string, nat>, roots: seq<nat>, t: set<nat>, x: string)
    requires Compilation(m, p, ids, roots)
  {
    x in ids && NameReached(m, x) && EndOf(p, ids, roots, x) in t
  }

  ghost function NamesEndingIn(m: Module, p: Program, ids: map<string, nat>, roots: seq<nat>, t: set<nat>): set<string>
    requires Compilation(m, p, ids, roots)
  {
    set x | x in ids && EndsIn(m, p, ids, roots, t, x)
  }

  /** The reference that stays in the endless search is to a reached process. */
  lemma FindReachedNeed(m: Module, p: Program, ids: map<string, nat>, roots: seq<nat>, t: set<nat>, id: nat) returns (x: string)
    requires Compilation(m, p, ids, roots) && LiveEndless(p, t) && id in t && id < |p.exprs|
    ensures EndsIn(m, p, ids, roots, t, x) && ids[x] in TreeUnguarded(At(p, id))
  {
    x := FindNeed(m, p, ids, roots, t, id);
    hide Compilation, Endless, NameReached, Live;
    LiveIsReached(m, p, ids, roots, id);
    UnguardedIsReferred(At(p, id));
  }

  lemma EndingNeedsWithin(m: Module, p: Program, ids: map<string, nat>, roots: seq<nat>, t: set<nat>, x: string)
    requires Compilation(m, p, ids, roots) && LiveEndless(p, t) && EndsIn(m, p, ids, roots, t, x)
    ensures NeedsWithin(m, NamesEndingIn(m, p, ids, roots, t), x)
  {
    var root := roots[ids[x]];
    hide Compiled, LiveEndless, Live, NameReached;
    ResolvedAlike(m, p, ids, roots, root);
    var y: string;
    if p.exprs[root].NRef? {
      RefsAreNamed(m, p, ids, roots, root);
      y :| y in ids && ids[y] == p.exprs[root].proc;
      ReachedBody(m, p, ids, roots, x);
      AtReference(p, root);
      assert EndsIn(m, p, ids, roots, t, y);
    } else {
      y := FindReachedNeed(m, p, ids, roots, t, root);
    }
    BodyInTable(m, p, ids, roots, x, y);
  }

  lemma NamesMakeLoop(m: Module, names: set<string>)
    requires names != {} && forall x | x in names :: NameReached(m, x) && NeedsWithin(m, names, x)
    ensures EndlessNames(m, names)
  {
    hide NameReached, NeedsWithin;
  }

  lemma SomePosition(p: Program, t: set<nat>) returns (id: nat)
    requires LiveEndless(p, t)
    ensures id in t && id < |p.exprs|
  {
    hide NeedsAnother;
    id :| id in t;
  }

  lemma NameEnding(m: Module, p: Program, ids: map<string, nat>, roots: seq<nat>, t: set<nat>, x: string)
    requires Compilation(m, p, ids, roots)
    ensures x in NamesEndingIn(m, p, ids, roots, t) <==> EndsIn(m, p, ids, roots, t, x)
    ensures EndsIn(m, p, ids, roots, t, x) ==> NameReached(m, x)
  {
    hide Compiled, NameReached, WellFormed;
  }

  lemma LoopHasNames(m: Module, p: Program, ids: map<string, nat>, roots: seq<nat>, t: set<nat>)
    requires Compilation(m, p, ids, roots) && LiveEndless(p, t)
    ensures EndlessNames(m, NamesEndingIn(m, p, ids, roots, t))
  {
    hide *;
    var names := NamesEndingIn(m, p, ids, roots, t);
    var id := SomePosition(p, t);
    var x := FindReachedNeed(m, p, ids, roots, t, id);
    NameEnding(m, p, ids, roots, t, x);
    forall y | y in names ensures NameReached(m, y) && NeedsWithin(m, names, y) {
      NameEnding(m, p, ids, roots, t, y);
      EndingNeedsWithin(m, p, ids, roots, t, y);
    }
    NamesMakeLoop(m, names);
  }

  /** A module compiles to a guarded program exactly when no processes within reach of
      its entry each need another one of them before their first event. */
  lemma GuardedModules(m: Module, p: Program)
    requires CompilesTo(m, p)
    ensures WellFormed(p) && (Guarded(p) <==> forall names :: !EndlessNames(m, names))
  {
    CompilesToIsCompiled(m, p);
    var ids, roots := IdsOf(m), TableOf(m).value.roots;
    IsCompilation(m, p, ids, roots);
    GuardedUnlessEndless(p);
    hide Compilation, Compiled, LiveEndless, EndlessNames, Guarded;
    if names :| EndlessNames(m, names) {
      EndlessNamesLoop(m, p, ids, roots, names);
    }
    if t :| LiveEndless(p, t) {
      LoopHasNames(m, p, ids, roots, t);
    }
  }
}
