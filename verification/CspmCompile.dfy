/** Hash-consed compilation of process expressions and the resolution of
    references between them. */
module CspmCompile {
  import opened Options
  import opened CspmSyntax
  import opened Seqs

  datatype EventPat =
    | PUnit(channel: string)
    | PInt(channel: string, value: U64)
    | POutVar(channel: string, x: string)
    | PInConst(channel: string, value: U64)
    | PInBind(channel: string, x: string)

  /** A node of the shared expression table; children are positions in it. */
  datatype ExprNode =
    | NStop
    | NRef(proc: nat)
    | NPrefix(event: EventPat, next: nat)
    | NExternal(left: nat, right: nat)
    | NInternal(left: nat, right: nat)
    | NParallel(left: nat, right: nat, sync: set<string>)
    | NHide(inner: nat, hidden: set<string>)

  /** The expression a node stands for. */
  datatype Tree =
    | TStop
    | TRef(proc: nat)
    | TPrefix(event: EventPat, next: Tree)
    | TExternal(left: Tree, right: Tree)
    | TInternal(left: Tree, right: Tree)
    | TParallel(left: Tree, right: Tree, sync: set<string>)
    | THide(inner: Tree, hidden: set<string>)

  predicate ChildrenBelow(n: ExprNode, id: nat) {
    match n
    case NStop => true
    case NRef(_) => true
    case NPrefix(_, next) => next < id
    case NExternal(l, r) => l < id && r < id
    case NInternal(l, r) => l < id && r < id
    case NParallel(l, r, _) => l < id && r < id
    case NHide(inner, _) => inner < id
  }

  /** Children come before their parents. */
  ghost predicate Ordered(exprs: seq<ExprNode>) {
    forall id | 0 <= id < |exprs| :: ChildrenBelow(exprs[id], id)
  }

  ghost function Unfold(exprs: seq<ExprNode>, id: nat): Tree
    requires Ordered(exprs) && id < |exprs|
    decreases id
  {
    assert ChildrenBelow(exprs[id], id);
    match exprs[id]
    case NStop => TStop
    case NRef(p) => TRef(p)
    case NPrefix(e, next) => TPrefix(e, Unfold(exprs, next))
    case NExternal(l, r) => TExternal(Unfold(exprs, l), Unfold(exprs, r))
    case NInternal(l, r) => TInternal(Unfold(exprs, l), Unfold(exprs, r))
    case NParallel(l, r, s) => TParallel(Unfold(exprs, l), Unfold(exprs, r), s)
    case NHide(inner, h) => THide(Unfold(exprs, inner), h)
  }

  lemma {:induction false} UnfoldStable(exprs: seq<ExprNode>, exprs': seq<ExprNode>, id: nat)
    requires Ordered(exprs) && Ordered(exprs') && exprs <= exprs' && id < |exprs|
    ensures Unfold(exprs', id) == Unfold(exprs, id)
    decreases id
  {
    assert exprs'[id] == exprs[id] && ChildrenBelow(exprs[id], id);
    match exprs[id]
    case NStop =>
    case NRef(_) =>
    case NPrefix(_, next) => UnfoldStable(exprs, exprs', next);
    case NExternal(l, r) => UnfoldStable(exprs, exprs', l); UnfoldStable(exprs, exprs', r);
    case NInternal(l, r) => UnfoldStable(exprs, exprs', l); UnfoldStable(exprs, exprs', r);
    case NParallel(l, r, _) => UnfoldStable(exprs, exprs', l); UnfoldStable(exprs, exprs', r);
    case NHide(inner, _) => UnfoldStable(exprs, exprs', inner);
  }

  /** Sharing is maximal: one position per expression. */
  lemma {:induction false} UnfoldInjective(exprs: seq<ExprNode>, a: nat, b: nat)
    requires Ordered(exprs) && Distinct(exprs) && a < |exprs| && b < |exprs|
    requires Unfold(exprs, a) == Unfold(exprs, b)
    ensures a == b
    decreases a
  {
    assert ChildrenBelow(exprs[a], a) && ChildrenBelow(exprs[b], b);
    match exprs[a]
    case NStop =>
    case NRef(_) =>
    case NPrefix(_, next) => UnfoldInjective(exprs, next, exprs[b].next);
    case NExternal(l, r) => UnfoldInjective(exprs, l, exprs[b].left); UnfoldInjective(exprs, r, exprs[b].right);
    case NInternal(l, r) => UnfoldInjective(exprs, l, exprs[b].left); UnfoldInjective(exprs, r, exprs[b].right);
    case NParallel(l, r, _) => UnfoldInjective(exprs, l, exprs[b].left); UnfoldInjective(exprs, r, exprs[b].right);
    case NHide(inner, _) => UnfoldInjective(exprs, inner, exprs[b].inner);
    assert exprs[a] == exprs[b];
  }

  // -------------------------------------------------------------- compilation

  function CompileEventPat(e: Event): Option<EventPat> {
    match e.seg
    case None => Some(PUnit(e.channel))
    case Some(Dot(Int(n))) => Some(PInt(e.channel, n))
    case Some(Dot(Ident(_))) => None
    case Some(Out(Int(n))) => Some(PInt(e.channel, n))
    case Some(Out(Ident(x))) => Some(POutVar(e.channel, x))
    case Some(In(Const(n))) => Some(PInConst(e.channel, n))
    case Some(In(Bind(x))) => Some(PInBind(e.channel, x))
  }

  /** The source expression with names resolved: what compilation must preserve.
      None where the source has no meaning as a process. */
  ghost function Core(e: Process, procIds: map<string, nat>): Option<Tree> {
    match e
    case Stop => Some(TStop)
    case Ref(name) => if name in procIds then Some(TRef(procIds[name])) else None
    case Prefix(event, next) =>
      var pat, t := CompileEventPat(event), Core(next, procIds);
      if pat.Some? && t.Some? then Some(TPrefix(pat.value, t.value)) else None
    case Choice(kind, left, right) =>
      var l, r := Core(left, procIds), Core(right, procIds);
      if l.Some? && r.Some? then
        Some(if kind == External then TExternal(l.value, r.value) else TInternal(l.value, r.value))
      else None
    case Parallel(kind, left, right, sync) =>
      var l, r := Core(left, procIds), Core(right, procIds);
      if l.Some? && r.Some? && (kind == Interface ==> sync.Some?) then
        Some(TParallel(l.value, r.value, if kind == Interface then Members(sync.value) else {}))
      else None
    case Hide(inner, hidden) =>
      var t := Core(inner, procIds);
      if t.Some? then Some(THide(t.value, Members(hidden))) else None
  }

  // ------------------------------------------------ the table as a function

  /** A table and a position in it. */
  type Entry = (seq<ExprNode>, nat)

  ghost function PositionOf(exprs: seq<ExprNode>, node: ExprNode): (k: nat)
    requires node in exprs
    ensures k < |exprs| && exprs[k] == node
  {
    var k: nat :| k < |exprs| && exprs[k] == node; k
  }

  /** The table with the node in it, once, and where it is. */
  ghost function Enter(exprs: seq<ExprNode>, node: ExprNode): Entry {
    if node in exprs then (exprs, PositionOf(exprs, node)) else (exprs + [node], |exprs|)
  }

  /** The table with the expression in it, children first, and where it is. */
  ghost function Compile(exprs: seq<ExprNode>, e: Process, procIds: map<string, nat>): Option<Entry>
    decreases e
  {
    match e
    case Stop => Some(Enter(exprs, NStop))
    case Ref(name) => if name in procIds then Some(Enter(exprs, NRef(procIds[name]))) else None
    case Prefix(event, next) =>
      var pat, n := CompileEventPat(event), Compile(exprs, next, procIds);
      if pat.None? || n.None? then None else Some(Enter(n.value.0, NPrefix(pat.value, n.value.1)))
    case Choice(kind, left, right) =>
      var l := Compile(exprs, left, procIds);
      if l.None? then None
      else
        var r := Compile(l.value.0, right, procIds);
        if r.None? then None else Some(Enter(r.value.0, ChoiceNode(kind, l.value.1, r.value.1)))
    case Parallel(kind, left, right, sync) =>
      var l := Compile(exprs, left, procIds);
      if l.None? then None
      else
        var r := Compile(l.value.0, right, procIds);
        if r.None? || (kind == Interface && sync.None?) then None
        else Some(Enter(r.value.0, NParallel(l.value.1, r.value.1, SyncSet(kind, sync))))
    case Hide(inner, hidden) =>
      var n := Compile(exprs, inner, procIds);
      if n.None? then None else Some(Enter(n.value.0, NHide(n.value.1, Members(hidden))))
  }

  function ChoiceNode(kind: ChoiceKind, left: nat, right: nat): ExprNode {
    if kind == External then NExternal(left, right) else NInternal(left, right)
  }

  function SyncSet(kind: ParallelKind, sync: Option<seq<string>>): set<string> {
    if kind == Interface && sync.Some? then Members(sync.value) else {}
  }

  /** Children first, nothing twice, and no reference to an unknown process. */
  ghost predicate TableOk(exprs: seq<ExprNode>, procIds: map<string, nat>) {
    Ordered(exprs) && Distinct(exprs) && forall n | n in exprs && n.NRef? :: n.proc in procIds.Values
  }

  /** An entry of a larger table that stands for the tree. */
  ghost predicate EntryOk(before: seq<ExprNode>, r: Entry, procIds: map<string, nat>, t: Tree) {
    TableOk(r.0, procIds) && before <= r.0 && r.1 < |r.0| && Unfold(r.0, r.1) == t
  }

  lemma EnterKeeps(exprs: seq<ExprNode>, node: ExprNode, procIds: map<string, nat>)
    requires TableOk(exprs, procIds) && ChildrenBelow(node, |exprs|) && (node.NRef? ==> node.proc in procIds.Values)
    ensures var r := Enter(exprs, node);
            TableOk(r.0, procIds) && exprs <= r.0 && r.1 < |r.0| && r.0[r.1] == node && |r.0| <= |exprs| + 1
  {}

  /** What was in the table before the node was entered stands for the same. */
  lemma EnterStable(exprs: seq<ExprNode>, node: ExprNode, procIds: map<string, nat>, id: nat)
    requires TableOk(exprs, procIds) && ChildrenBelow(node, |exprs|) && (node.NRef? ==> node.proc in procIds.Values)
    requires id < |exprs|
    ensures TableOk(Enter(exprs, node).0, procIds) && Unfold(Enter(exprs, node).0, id) == Unfold(exprs, id)
  {
    EnterKeeps(exprs, node, procIds);
    UnfoldStable(exprs, Enter(exprs, node).0, id);
  }

  /** Compilation keeps the meaning, and fails exactly where there is none. */
  lemma {:induction false} CompileMeans(exprs: seq<ExprNode>, e: Process, procIds: map<string, nat>)
    requires TableOk(exprs, procIds)
    ensures Compile(exprs, e, procIds).Some? <==> Core(e, procIds).Some?
    ensures Core(e, procIds).Some? ==> EntryOk(exprs, Compile(exprs, e, procIds).value, procIds, Core(e, procIds).value)
    decreases e, 1
  {
    hide TableOk, Enter;
    match e
    case Stop => EnterKeeps(exprs, NStop, procIds);
    case Ref(name) => if name in procIds { EnterKeeps(exprs, NRef(procIds[name]), procIds); }
    case Prefix(event, next) =>
      CompileMeans(exprs, next, procIds);
      var pat, n := CompileEventPat(event), Compile(exprs, next, procIds);
      if pat.Some? && n.Some? {
        EnterKeeps(n.value.0, NPrefix(pat.value, n.value.1), procIds);
        EnterStable(n.value.0, NPrefix(pat.value, n.value.1), procIds, n.value.1);
      }
    case Choice(kind, left, right) =>
      CompileBothMean(exprs, e, left, right, procIds);
      if Core(e, procIds).Some? {
        var l := Compile(exprs, left, procIds).value;
        var r := Compile(l.0, right, procIds).value;
        EnterOver(r.0, ChoiceNode(kind, l.1, r.1), procIds, l.1, r.1);
      }
    case Parallel(kind, left, right, sync) =>
      CompileBothMean(exprs, e, left, right, procIds);
      if Core(e, procIds).Some? {
        var l := Compile(exprs, left, procIds).value;
        var r := Compile(l.0, right, procIds).value;
        EnterOver(r.0, NParallel(l.1, r.1, SyncSet(kind, sync)), procIds, l.1, r.1);
      }
    case Hide(inner, hidden) =>
      CompileMeans(exprs, inner, procIds);
      var n := Compile(exprs, inner, procIds);
      if n.Some? {
        EnterKeeps(n.value.0, NHide(n.value.1, Members(hidden)), procIds);
        EnterStable(n.value.0, NHide(n.value.1, Members(hidden)), procIds, n.value.1);
      }
  }

  lemma EnterOver(exprs: seq<ExprNode>, node: ExprNode, procIds: map<string, nat>, l: nat, r: nat)
    requires TableOk(exprs, procIds) && ChildrenBelow(node, |exprs|) && !node.NRef? && l < |exprs| && r < |exprs|
    ensures var t := Enter(exprs, node);
            && TableOk(t.0, procIds) && exprs <= t.0 && t.1 < |t.0| && t.0[t.1] == node
            && Unfold(t.0, l) == Unfold(exprs, l) && Unfold(t.0, r) == Unfold(exprs, r)
  {
    EnterKeeps(exprs, node, procIds);
    EnterStable(exprs, node, procIds, l);
    EnterStable(exprs, node, procIds, r);
  }

  lemma {:induction false} CompileBothMean(exprs: seq<ExprNode>, e: Process, left: Process, right: Process, procIds: map<string, nat>)
    requires TableOk(exprs, procIds) && left < e && right < e
    ensures Compile(exprs, left, procIds).Some? <==> Core(left, procIds).Some?
    ensures Core(left, procIds).Some? ==>
              var l := Compile(exprs, left, procIds).value;
              (Compile(l.0, right, procIds).Some? <==> Core(right, procIds).Some?)
    ensures Core(left, procIds).Some? && Core(right, procIds).Some? ==>
              var l := Compile(exprs, left, procIds).value;
              var r := Compile(l.0, right, procIds).value;
              && EntryOk(exprs, r, procIds, Core(right, procIds).value)
              && l.1 < |r.0| && Unfold(r.0, l.1) == Core(left, procIds).value
    decreases e, 0
  {
    CompileMeans(exprs, left, procIds);
    if Core(left, procIds).Some? {
      var l := Compile(exprs, left, procIds).value;
      CompileMeans(l.0, right, procIds);
      if Core(right, procIds).Some? {
        UnfoldStable(l.0, Compile(l.0, right, procIds).value.0, l.1);
      }
    }
  }

  /** The bodies in a row: the table, and where each of them is. */
  ghost function CompileBodies(exprs: seq<ExprNode>, bodies: seq<Process>, procIds: map<string, nat>): Option<(seq<ExprNode>, seq<nat>)> {
    if bodies == [] then Some((exprs, []))
    else
      var before := CompileBodies(exprs, bodies[..|bodies| - 1], procIds);
      if before.None? then None
      else
        var last := Compile(before.value.0, bodies[|bodies| - 1], procIds);
        if last.None? then None else Some((last.value.0, before.value.1 + [last.value.1]))
  }

  ghost predicate BodiesOk(before: seq<ExprNode>, r: (seq<ExprNode>, seq<nat>), procIds: map<string, nat>, bodies: seq<Process>) {
    && TableOk(r.0, procIds) && before <= r.0 && |r.1| == |bodies|
    && forall k | 0 <= k < |bodies| :: r.1[k] < |r.0| && Core(bodies[k], procIds) == Some(Unfold(r.0, r.1[k]))
  }

  lemma {:induction false} CompileBodiesMean(exprs: seq<ExprNode>, bodies: seq<Process>, procIds: map<string, nat>)
    requires TableOk(exprs, procIds)
    ensures CompileBodies(exprs, bodies, procIds).Some? <==> forall b | b in bodies :: Core(b, procIds).Some?
    ensures CompileBodies(exprs, bodies, procIds).Some? ==> BodiesOk(exprs, CompileBodies(exprs, bodies, procIds).value, procIds, bodies)
  {
    hide Compile, Core, Unfold, Distinct;
    if bodies != [] {
      var n := |bodies| - 1;
      CompileBodiesMean(exprs, bodies[..n], procIds);
      assert bodies == bodies[..n] + [bodies[n]];
      var before := CompileBodies(exprs, bodies[..n], procIds);
      if before.Some? {
        CompileMeans(before.value.0, bodies[n], procIds);
        if Core(bodies[n], procIds).Some? {
          var last := Compile(before.value.0, bodies[n], procIds).value;
          forall k | 0 <= k < n ensures Unfold(last.0, before.value.1[k]) == Unfold(before.value.0, before.value.1[k]) {
            UnfoldStable(before.value.0, last.0, before.value.1[k]);
          }
        }
      }
    }
  }

  class ProgramBuilder {
    const procIds: map<string, nat>
    var exprs: seq<ExprNode>
    var table: map<ExprNode, nat>
    var procRoots: seq<nat>

    constructor (procIds: map<string, nat>)
      ensures Valid() && exprs == [] && this.procIds == procIds && procRoots == seq(|procIds|, _ => 0)
    {
      this.procIds := procIds;
      exprs, table, procRoots := [], map[], seq(|procIds|, _ => 0);
    }

    ghost predicate Valid()
      reads this
    {
      && TableOk(exprs, procIds)
      && (forall n :: n in table <==> n in exprs)
      && (forall n | n in table :: table[n] < |exprs| && exprs[table[n]] == n)
    }

    method Intern(node: ExprNode) returns (id: nat)
      requires Valid() && ChildrenBelow(node, |exprs|) && (node.NRef? ==> node.proc in procIds.Values)
      modifies this`exprs, this`table
      ensures Valid() && (exprs, id) == Enter(old(exprs), node)
      ensures old(exprs) <= exprs && id < |exprs| && exprs[id] == node
    {
      EnterKeeps(exprs, node, procIds);
      if node in table {
        return table[node];
      }
      id := |exprs|;
      exprs := exprs + [node];
      table := table[node := id];
    }

    /** Compiles an expression into the table, sharing what is already there. */
    method CompileExpr(e: Process) returns (r: Option<nat>)
      requires Valid()
      modifies this`exprs, this`table
      ensures Valid() && old(exprs) <= exprs
      ensures r.Some? <==> Core(e, procIds).Some?
      ensures r.Some? ==> r.value < |exprs| && Unfold(exprs, r.value) == Core(e, procIds).value
      ensures Compile(old(exprs), e, procIds) == if r.Some? then Some((exprs, r.value)) else None
      decreases e, 1
    {
      hide Core, Unfold, TableOk, Enter, CompileEventPat;
      ghost var before := exprs;
      r := None;
      match e {
        case Stop =>
          var id := Intern(NStop);
          r := Some(id);
        case Ref(name) =>
          if name in procIds {
            var id := Intern(NRef(procIds[name]));
            r := Some(id);
          }
        case Prefix(event, next) =>
          var pat := CompileEventPat(event);
          if pat.Some? {
            var n := CompileExpr(next);
            if n.Some? {
              var id := Intern(NPrefix(pat.value, n.value));
              r := Some(id);
            }
          }
        case Choice(kind, left, right) =>
          var both := CompileBoth(e, left, right);
          if both.Some? {
            var id := Intern(ChoiceNode(kind, both.value.0, both.value.1));
            r := Some(id);
          }
        case Parallel(kind, left, right, sync) =>
          var both := CompileBoth(e, left, right);
          if both.Some? && (kind == Interface ==> sync.Some?) {
            var id := Intern(NParallel(both.value.0, both.value.1, SyncSet(kind, sync)));
            r := Some(id);
          }
        case Hide(inner, hidden) =>
          var n := CompileExpr(inner);
          if n.Some? {
            var id := Intern(NHide(n.value, Members(hidden)));
            r := Some(id);
          }
      }
      assert Compile(before, e, procIds) == if r.Some? then Some((exprs, r.value)) else None;
      CompileMeans(before, e, procIds);
    }

    /** Left before right; the right operand is not compiled when the left fails. */
    method CompileBoth(ghost e: Process, left: Process, right: Process) returns (r: Option<(nat, nat)>)
      requires Valid() && left < e && right < e
      modifies this`exprs, this`table
      ensures Valid() && old(exprs) <= exprs
      ensures r.Some? ==> r.value.0 < |exprs| && r.value.1 < |exprs|
      ensures var l := Compile(old(exprs), left, procIds);
              if l.None? then r.None?
              else
                var q := Compile(l.value.0, right, procIds);
                if q.None? then r.None? else r.Some? && r.value == (l.value.1, q.value.1) && exprs == q.value.0
      decreases e, 0
    {
      CompileMeans(exprs, left, procIds);
      hide Enter, Unfold, Core, Compile;
      var l := CompileExpr(left);
      if l.None? {
        return None;
      }
      CompileMeans(exprs, right, procIds);
      var q := CompileExpr(right);
      r := if q.None? then None else Some((l.value, q.value));
    }

    /** Compiles bodies in a row and records where each of them is. */
    method CompileRoots(bodies: seq<Process>) returns (ok: bool)
      requires Valid() && |procRoots| == |bodies|
      modifies this
      ensures Valid() && old(exprs) <= exprs
      ensures ok <==> forall b | b in bodies :: Core(b, procIds).Some?
      ensures ok ==> CompileBodies(old(exprs), bodies, procIds) == Some((exprs, procRoots))
    {
      hide Core, Compile, Unfold, Distinct;
      CompileBodiesMean(exprs, bodies, procIds);
      for i := 0 to |bodies|
        invariant Valid() && old(exprs) <= exprs && |procRoots| == |bodies|
        invariant CompileBodies(old(exprs), bodies[..i], procIds) == Some((exprs, procRoots[..i]))
      {
        assert bodies[..i + 1][..i] == bodies[..i];
        var root := CompileExpr(bodies[i]);
        if root.None? {
          assert bodies[i] in bodies;
          return false;
        }
        ghost var before := procRoots[..i];
        procRoots := procRoots[i := root.value];
        assert procRoots[..i + 1] == before + [root.value];
      }
      assert bodies[..|bodies|] == bodies && procRoots[..|bodies|] == procRoots;
      ok := true;
    }
  }

  // ------------------------------------------------------------ resolution

  ghost predicate RootsOk(exprs: seq<ExprNode>, roots: seq<nat>) {
    && (forall id | 0 <= id < |exprs| :: exprs[id].NRef? ==> exprs[id].proc < |roots|)
    && (forall p | 0 <= p < |roots| :: roots[p] < |exprs|)
  }

  /** `n` references followed from `id`, stopping at anything else. */
  ghost function Follow(exprs: seq<ExprNode>, roots: seq<nat>, id: nat, n: nat): (r: nat)
    requires RootsOk(exprs, roots) && id < |exprs|
    ensures r < |exprs|
  {
    if n == 0 then id
    else
      var m := Follow(exprs, roots, id, n - 1);
      if exprs[m].NRef? then roots[exprs[m].proc] else m
  }

  /** The references from `id` lead to `t`, which is not one. */
  ghost predicate ResolvesTo(exprs: seq<ExprNode>, roots: seq<nat>, id: nat, t: nat)
    requires RootsOk(exprs, roots)
  {
    id < |exprs| && t < |exprs| && !exprs[t].NRef? && exists n: nat :: Follow(exprs, roots, id, n) == t
  }

  /** The references from `id` never end. */
  ghost predicate Unresolvable(exprs: seq<ExprNode>, roots: seq<nat>, id: nat)
    requires RootsOk(exprs, roots)
  {
    id < |exprs| && forall n: nat :: exprs[Follow(exprs, roots, id, n)].NRef?
  }

  lemma {:induction false} FollowOne(exprs: seq<ExprNode>, roots: seq<nat>, id: nat, n: nat)
    requires RootsOk(exprs, roots) && id < |exprs| && exprs[id].NRef?
    ensures Follow(exprs, roots, roots[exprs[id].proc], n) == Follow(exprs, roots, id, n + 1)
  {
    if n > 0 {
      FollowOne(exprs, roots, id, n - 1);
    } else {
      assert Follow(exprs, roots, id, 0) == id;
    }
  }

  lemma {:induction false} FollowStays(exprs: seq<ExprNode>, roots: seq<nat>, id: nat, n: nat, k: nat)
    requires RootsOk(exprs, roots) && id < |exprs| && n <= k && !exprs[Follow(exprs, roots, id, n)].NRef?
    ensures Follow(exprs, roots, id, k) == Follow(exprs, roots, id, n)
  {
    if n < k { FollowStays(exprs, roots, id, n, k - 1); }
  }

  lemma ResolvesOnce(exprs: seq<ExprNode>, roots: seq<nat>, id: nat, t: nat, t': nat)
    requires RootsOk(exprs, roots) && ResolvesTo(exprs, roots, id, t) && ResolvesTo(exprs, roots, id, t')
    ensures t == t'
  {
    var n: nat :| Follow(exprs, roots, id, n) == t;
    var k: nat :| Follow(exprs, roots, id, k) == t';
    if n <= k { FollowStays(exprs, roots, id, n, k); } else { FollowStays(exprs, roots, id, k, n); }
  }

  /** Going through a set of references that leads only into itself never ends. */
  lemma {:induction false} TrappedFollow(exprs: seq<ExprNode>, roots: seq<nat>, trap: set<nat>, id: nat, n: nat)
    requires RootsOk(exprs, roots) && id in trap
    requires forall x | x in trap :: x < |exprs| && exprs[x].NRef? && roots[exprs[x].proc] in trap
    ensures Follow(exprs, roots, id, n) in trap
  {
    if n > 0 { TrappedFollow(exprs, roots, trap, id, n - 1); }
  }

  lemma TrapIsUnresolvable(exprs: seq<ExprNode>, roots: seq<nat>, trap: set<nat>, id: nat)
    requires RootsOk(exprs, roots) && id in trap
    requires forall x | x in trap :: x < |exprs| && exprs[x].NRef? && exprs[x].proc < |roots| && roots[exprs[x].proc] in trap
    ensures Unresolvable(exprs, roots, id)
  {
    forall n: nat ensures exprs[Follow(exprs, roots, id, n)].NRef? {
      TrappedFollow(exprs, roots, trap, id, n);
    }
  }

  lemma ResolvedOnce(exprs: seq<ExprNode>, roots: seq<nat>, id: nat, t: nat)
    requires RootsOk(exprs, roots) && ResolvesTo(exprs, roots, id, t)
    ensures !Unresolvable(exprs, roots, id)
  {}

  ghost predicate RefStep(exprs: seq<ExprNode>, roots: seq<nat>, x: nat, y: nat)
    requires RootsOk(exprs, roots)
  {
    x < |exprs| && exprs[x].NRef? && roots[exprs[x].proc] == y
  }

  /** References followed from the start of the path, in order, ending at `id`. */
  ghost predicate RefPath(exprs: seq<ExprNode>, roots: seq<nat>, path: seq<nat>, id: nat)
    requires RootsOk(exprs, roots)
  {
    && (forall i | 0 <= i < |path| - 1 :: RefStep(exprs, roots, path[i], path[i + 1]))
    && (path != [] ==> RefStep(exprs, roots, path[|path| - 1], id))
  }

  lemma ClosedPathIsUnresolvable(exprs: seq<ExprNode>, roots: seq<nat>, path: seq<nat>, id: nat)
    requires RootsOk(exprs, roots) && RefPath(exprs, roots, path, id) && id in path
    ensures Unresolvable(exprs, roots, id)
  {
    var k :| 0 <= k < |path| && path[k] == id;
    var loop := path[k..];
    var trap := set x | x in loop;
    assert loop[0] in trap;
    forall x | x in trap ensures x < |exprs| && exprs[x].NRef? && roots[exprs[x].proc] in trap {
      var i :| 0 <= i < |loop| && loop[i] == x;
      if i + 1 < |loop| {
        assert RefStep(exprs, roots, path[k + i], path[k + i + 1]);
        assert loop[i + 1] in trap;
      }
    }
    TrapIsUnresolvable(exprs, roots, trap, id);
  }

  lemma RefPathSnoc(exprs: seq<ExprNode>, roots: seq<nat>, path: seq<nat>, id: nat)
    requires RootsOk(exprs, roots) && RefPath(exprs, roots, path, id) && id < |exprs| && exprs[id].NRef?
    ensures RefPath(exprs, roots, path + [id], roots[exprs[id].proc])
  {
    var q := path + [id];
    forall i | 0 <= i < |q| - 1 ensures RefStep(exprs, roots, q[i], q[i + 1]) {
      if i + 1 < |path| { assert RefStep(exprs, roots, path[i], path[i + 1]); }
    }
  }

  class Resolver {
    const exprs: seq<ExprNode>
    const roots: seq<nat>
    var memo: seq<Option<nat>>
    var visiting: set<nat>

    constructor (exprs: seq<ExprNode>, roots: seq<nat>)
      requires RootsOk(exprs, roots)
      ensures this.exprs == exprs && this.roots == roots && Valid() && visiting == {}
    {
      this.exprs, this.roots := exprs, roots;
      memo, visiting := seq(|exprs|, _ => None), {};
    }

    ghost predicate Valid()
      reads this
    {
      && RootsOk(exprs, roots) && |memo| == |exprs|
      && forall id | 0 <= id < |memo| && memo[id].Some? :: ResolvesTo(exprs, roots, id, memo[id].value)
    }

    ghost function Unvisited(): set<nat>
      reads this
    {
      set x: nat | x < |exprs| && x !in visiting
    }

    /** Resolves one position; fails when the path of references comes back. */
    method Resolve(id: nat, ghost path: seq<nat>) returns (r: Option<nat>)
      requires Valid() && id < |exprs| && RefPath(exprs, roots, path, id) && visiting == set x | x in path
      modifies this
      ensures Valid()
      ensures r.Some? ==> ResolvesTo(exprs, roots, id, r.value) && visiting == old(visiting)
      ensures r.None? ==> exists x :: Unresolvable(exprs, roots, x)
      decreases Unvisited()
    {
      if memo[id].Some? {
        return memo[id];
      }
      if id in visiting {
        ClosedPathIsUnresolvable(exprs, roots, path, id);
        return None;
      }
      assert id in Unvisited();
      visiting := visiting + {id};
      assert id !in Unvisited();
      var resolved := id;
      assert Follow(exprs, roots, id, 0) == id;
      if exprs[id].NRef? {
        var target := roots[exprs[id].proc];
        RefPathSnoc(exprs, roots, path, id);
        r := Resolve(target, path + [id]);
        if r.None? {
          return;
        }
        resolved := r.value;
        ghost var n: nat :| Follow(exprs, roots, target, n) == resolved;
        FollowOne(exprs, roots, id, n);
      }
      visiting := visiting - {id};
      memo := memo[id := Some(resolved)];
      r := Some(resolved);
    }
  }

  /** Resolves every position, or fails exactly when some references never end. */
  method ComputeResolved(exprs: seq<ExprNode>, roots: seq<nat>) returns (r: Option<seq<nat>>)
    requires RootsOk(exprs, roots)
    ensures r.Some? ==> |r.value| == |exprs| && forall id | 0 <= id < |exprs| :: ResolvesTo(exprs, roots, id, r.value[id])
    ensures r.None? <==> exists id :: Unresolvable(exprs, roots, id)
  {
    var resolver := new Resolver(exprs, roots);
    var out: seq<nat> := [];
    for id := 0 to |exprs|
      invariant resolver.Valid() && resolver.exprs == exprs && resolver.roots == roots && resolver.visiting == {}
      invariant |out| == id && forall k | 0 <= k < id :: ResolvesTo(exprs, roots, k, out[k])
    {
      var one := resolver.Resolve(id, []);
      if one.None? {
        return None;
      }
      out := out + [one.value];
    }
    forall id: nat ensures !Unresolvable(exprs, roots, id) {
      if id < |exprs| { ResolvedOnce(exprs, roots, id, out[id]); }
    }
    r := Some(out);
  }
}
