/** When the search for steps ends. */
module CspmGuarded {
  import opened Options
  import opened CspmSyntax
  import opened CspmCompile
  import opened CspmStep
  import opened CspmSearch
  import CspmProvider
  import Seqs
  import Lts

  /** Expressions, all within reach of the entry, among which the search can go on forever. */
  ghost predicate LiveEndless(p: Program, t: set<nat>) {
    Endless(p, t) && forall id | id in t :: IsLive(p, id)
  }

  lemma WeightFalls(p: Program, w: seq<nat>, t: set<nat>, id: nat) returns (c: nat)
    requires WellFormed(p) && Weights(p, w) && LiveEndless(p, t) && id in t
    ensures c in t && id < |w| && c < |w| && w[c] < w[id]
  {
    hide Weights, WellFormed, Needs, Live;
    assert NeedsAnother(p, t, id);
    c :| c in Needs(p, id) && c in t;
    NeedFalls(p, w, id, c);
  }

  lemma NeedFalls(p: Program, w: seq<nat>, id: nat, c: nat)
    requires WellFormed(p) && Weights(p, w) && IsLive(p, id) && c in Needs(p, id)
    ensures id < |w| && c < |w| && w[c] < w[id]
  {
    hide Live;
    assert WeightOk(p, w, id) && ChildrenBelow(p.exprs[id], id);
  }

  lemma {:induction false} NoWeightsForEndless(p: Program, w: seq<nat>, t: set<nat>, id: nat)
    requires WellFormed(p) && Weights(p, w) && LiveEndless(p, t) && id in t
    ensures false
    decreases if id < |w| then w[id] else 0
  {
    hide WellFormed, Weights, LiveEndless;
    var c := WeightFalls(p, w, t, id);
    NoWeightsForEndless(p, w, t, c);
  }

  ghost predicate Weighed(p: Program, w: seq<nat>, done: set<nat>) {
    && WellFormed(p) && |w| == |p.exprs|
    && forall id | id in done :: id < |p.exprs| && WeightOk(p, w, id) && Needs(p, id) <= done
  }

  function Heavier(p: Program, w: seq<nat>, id: nat): nat
    requires id < |p.exprs| == |p.resolved| == |w|
    requires forall c | c in Needs(p, id) :: c < |w|
  {
    match p.exprs[id]
    case NRef(_) => w[p.resolved[id]] + 1
    case NExternal(l, r) => assert {l, r} == Needs(p, id); w[l] + w[r] + 1
    case NParallel(l, r, _) => assert {l, r} == Needs(p, id); w[l] + w[r] + 2
    case NHide(inner, _) => w[inner] + 2
    case _ => 0
  }

  /** The search goes on only to what the expression mentions. */
  lemma NeedsValid(p: Program, id: nat)
    requires WellFormed(p) && IsLive(p, id)
    ensures forall c | c in Needs(p, id) :: IsLive(p, c)
  {
    hide Live;
    LiveMentions(p, id);
    assert Needs(p, id) <= Mentions(p, id);
  }

  lemma WeighOne(p: Program, w: seq<nat>, done: set<nat>, id: nat)
    requires Weighed(p, w, done) && IsLive(p, id) && id !in done && Needs(p, id) <= done
    ensures (forall c | c in Needs(p, id) :: c < |w|) && Weighed(p, w[id := Heavier(p, w, id)], done + {id})
  {
    hide Live;
    NeedsValid(p, id);
    var w' := w[id := Heavier(p, w, id)];
    forall k | k in done + {id} ensures k < |p.exprs| && WeightOk(p, w', k) && Needs(p, k) <= done + {id} {
      assert ChildrenBelow(p.exprs[k], k);
      if k != id {
        assert WeightOk(p, w, k) && Needs(p, k) <= done;
      }
    }
  }

  lemma {:induction false} Weigh(p: Program, w: seq<nat>, done: set<nat>) returns (w': seq<nat>)
    requires Weighed(p, w, done) && forall t :: !LiveEndless(p, t)
    ensures Weights(p, w')
    decreases Live(p) - done
  {
    hide Live, Needs;
    LiveClosed(p);
    var rest := Live(p) - done;
    if rest == {} {
      forall id | IsLive(p, id) ensures WeightOk(p, w, id) { assert id !in rest; }
      return w;
    }
    assert !LiveEndless(p, rest);
    var id :| id in rest && !NeedsAnother(p, rest, id);
    NeedsValid(p, id);
    forall c | c in Needs(p, id) ensures c in done { assert c !in rest; }
    WeighOne(p, w, done, id);
    assert rest - {id} == Live(p) - (done + {id});
    w' := Weigh(p, w[id := Heavier(p, w, id)], done + {id});
  }

  /** A program is guarded exactly when no search within reach can go on forever. */
  lemma GuardedUnlessEndless(p: Program)
    requires WellFormed(p)
    ensures Guarded(p) <==> forall t :: !LiveEndless(p, t)
  {
    hide Live;
    if Guarded(p) {
      forall t ensures !LiveEndless(p, t) {
        if LiveEndless(p, t) {
          var id :| id in t;
          NoWeightsForEndless(p, WeightsOf(p), t, id);
        }
      }
    }
    if forall t :: !LiveEndless(p, t) {
      var w := Weigh(p, seq(|p.exprs|, _ => 0), {});
    }
  }

  /** Guarded programs are exactly those in which the search for the steps of
      everything within reach of the entry comes back. */
  lemma GuardedExactly(p: Program)
    requires WellFormed(p)
    ensures Guarded(p) <==> forall id: nat, env: Env | IsLive(p, id) :: ComesBack(p, Expr(id, env))
  {
    hide Live;
    if Guarded(p) {
      forall id: nat, env: Env | IsLive(p, id) ensures ComesBack(p, Expr(id, env)) {
        SearchEnds(p, Expr(id, env), WeightOf(p, id) + Heaviest(WeightsOf(p)) + 1);
      }
    }
    GuardedUnlessEndless(p);
    if t :| LiveEndless(p, t) {
      var id: nat :| id in t;
      forall n: nat ensures SearchN(p, Expr(id, map[]), n).None? { StuckForever(p, t, Expr(id, map[]), n); }
      assert IsLive(p, id) && !ComesBack(p, Expr(id, map[]));
    }
  }

  // -------------------------------------------------------- as the program runs

  lemma AnswerIsTransitions(p: Program, s: State, depth: nat)
    requires Guarded(p) && ValidState(p, s) && Tabled(p, s) && SearchN(p, s, depth).Some?
    ensures SearchN(p, s, depth).value == Transitions(p, s)
  {
    hide SearchN, Transitions, Live;
    var more := StateWeight(p, s) + Heaviest(WeightsOf(p)) + 1 + depth;
    SearchEnds(p, s, more);
    SearchMore(p, s, depth, more);
  }

  /** A guarded program runs at some depth, and then as its step function says, on
      every finite set of states that holds its runs. */
  lemma GuardedHoldsRuns(p: Program, enc: State -> Lts.Bytes, u: set<State>) returns (depth: nat)
    requires Guarded(p) && Lts.Bounded(CspmProvider.Provider(p, enc), u) && forall s | s in u :: ValidState(p, s)
    ensures HoldsRuns(p, u, depth) && Searched(p, enc, depth).init == CspmProvider.Provider(p, enc).init
    ensures forall s | s in u :: Searched(p, enc, depth).next(s) == CspmProvider.Provider(p, enc).next(s)
  {
    hide SearchN, Transitions, Live, BuildN, StateFromExpr, WellFormed, Tabled, ValidState;
    LiveClosed(p);
    forall s | s in u ensures ComesBack(p, s) {
      SearchEnds(p, s, StateWeight(p, s) + Heaviest(WeightsOf(p)) + 1);
    }
    var d := DepthForAll(p, u);
    depth := d + WeightOf(p, p.initial) + 1;
    BuildEnds(p, p.initial, map[], depth);
    forall s | s in u
      ensures Answers(p, u, depth, s) && Answer(p, s, depth) == CspmProvider.Provider(p, enc).next(s)
    {
      SearchMore(p, s, d, depth);
      AnswerIsTransitions(p, s, depth);
      assert Transitions(p, s) == CspmProvider.Provider(p, enc).next(s);
    }
  }

  // -------------------------------------------- accepted, but never ending

  function EndlessModule(): Module {
    Module([], [ProcessDecl("P", Choice(External, Ref("P"), Stop))], [], None)
  }

  function EndlessProgram(): Program {
    Program(map[], [NRef(0), NStop, NExternal(0, 1)], [2, 1, 2], 2)
  }

  lemma EndlessIsAccepted()
    ensures Accepted(EndlessModule()) && ProcessNames(EndlessModule()) == {"P"}
  {
    var m := EndlessModule();
    var d := m.declarations[0];
    assert d in m.declarations && ProcessNames(m) == {"P"};
    assert Keyed(Declared(m.channels)) == map[];
    assert TypecheckProcess(d.expr, map[], {"P"}, map[]).Ok?;
  }

  lemma EndlessResolves()
    ensures RootsOk(EndlessProgram().exprs, [2])
    ensures forall id | 0 <= id < 3 :: ResolvesTo(EndlessProgram().exprs, [2], id, EndlessProgram().resolved[id])
  {
    var exprs, roots := EndlessProgram().exprs, [2 as nat];
    assert Follow(exprs, roots, 0, 0) == 0 && Follow(exprs, roots, 0, 1) == 2;
    assert Follow(exprs, roots, 1, 0) == 1 && Follow(exprs, roots, 2, 0) == 2;
  }

  lemma EndlessInOrder()
    ensures CspmProvider.IdsOf(EndlessModule()) == map["P" := 0]
    ensures CspmProvider.BodiesInOrder(EndlessModule()) == [EndlessModule().declarations[0].expr]
  {
    var m := EndlessModule();
    EndlessIsAccepted();
    var names := CspmProvider.NamesInOrder(m);
    CspmProvider.DistinctSize(names);
    assert names == ["P"] by {
      assert |names| == 1 && names[0] in Seqs.Members(names);
    }
    CspmProvider.BodiesAreDeclared(m);
    assert ProcessDecl(names[0], CspmProvider.BodiesInOrder(m)[0]) == m.declarations[0];
  }

  lemma EndlessTable()
    ensures var e, ids := EndlessModule().declarations[0].expr, map["P" := 0 as nat];
            CspmProvider.Assemble(e, [e], ids) == Some(CspmProvider.Table(EndlessProgram().exprs, [2], 2))
  {
    var e, ids, exprs := EndlessModule().declarations[0].expr, map["P" := 0 as nat], EndlessProgram().exprs;
    var first := [NRef(0)];
    var second := [NRef(0), NStop];
    assert [] + [NRef(0)] == first && first + [NStop] == second && second + [NExternal(0, 1)] == exprs;
    assert Enter([], NRef(0)) == (first, 0) && Enter(first, NStop) == (second, 1) && Enter(second, NExternal(0, 1)) == (exprs, 2);
    EnterAgain();
    hide Enter;
    assert Compile([], Ref("P"), ids) == Some((first, 0)) && Compile(first, Stop, ids) == Some((second, 1));
    assert Compile([], e, ids) == Some((exprs, 2));
    assert Compile(exprs, Ref("P"), ids) == Some((exprs, 0)) && Compile(exprs, Stop, ids) == Some((exprs, 1));
    assert Compile(exprs, e, ids) == Some((exprs, 2));
    assert CompileBodies(exprs, [], ids) == Some((exprs, []));
    assert [e][..0] == [] && [] + [2 as nat] == [2];
  }

  /** What is in the table is found there. */
  lemma EnterAgain()
    ensures var exprs := EndlessProgram().exprs;
            Enter(exprs, NRef(0)) == (exprs, 0) && Enter(exprs, NStop) == (exprs, 1) && Enter(exprs, NExternal(0, 1)) == (exprs, 2)
  {
    var exprs := EndlessProgram().exprs;
    assert exprs[0] == NRef(0) && exprs[1] == NStop && exprs[2] == NExternal(0, 1);
  }

  lemma EndlessIsBuildable()
    ensures var m := EndlessModule();
            CspmProvider.Buildable(m) && CspmProvider.TableOf(m).Some? && CspmProvider.HasTable(m, CspmProvider.TableOf(m).value)
            && Keyed(Declared(m.channels)) == map[] && CspmProvider.InitialExpr(m) == Some(m.declarations[0].expr)
  {
    EndlessIsAccepted();
    CspmProvider.AcceptedIsBuildable(EndlessModule());
    CspmProvider.BuildableExactly(EndlessModule());
  }

  lemma EndlessIsCompiled()
    ensures CspmProvider.CompilesTo(EndlessModule(), EndlessProgram())
  {
    var m := EndlessModule();
    EndlessIsAccepted();
    EndlessInOrder();
    EndlessTable();
    EndlessResolves();
    EndlessIsBuildable();
    hide EndlessModule, Accepted, Core, Unfold, ResolvesTo, TypecheckProcess, CspmProvider.Buildable, CspmProvider.Built, CspmProvider.Assemble, Keyed, Declared,
         CspmProvider.IdsOf, CspmProvider.BodiesInOrder;
  }

  lemma EndlessLoops()
    ensures WellFormed(EndlessProgram()) && LiveEndless(EndlessProgram(), {0, 2})
  {
    var p := EndlessProgram();
    assert 2 in Needs(p, 0) && 0 in Needs(p, 2);
    hide Live, Needs;
    LiveClosed(p);
    LiveMentions(p, 2);
    assert 0 in Mentions(p, 2);
  }

  /** Neither the type checker nor the resolution of references rejects `P = P [] STOP`,
      although looking for its steps never ends. */
  lemma AcceptedButEndless()
    ensures Accepted(EndlessModule()) && CspmProvider.CompilesTo(EndlessModule(), EndlessProgram())
    ensures WellFormed(EndlessProgram()) && !Guarded(EndlessProgram())
    ensures forall n: nat :: SearchN(EndlessProgram(), Expr(EndlessProgram().initial, map[]), n).None?
  {
    hide *;
    EndlessIsAccepted();
    EndlessIsCompiled();
    EndlessLoops();
    EndlessNeverEnds();
  }

  lemma EndlessNeverEnds()
    requires WellFormed(EndlessProgram()) && LiveEndless(EndlessProgram(), {0, 2})
    ensures !Guarded(EndlessProgram())
    ensures forall n: nat :: SearchN(EndlessProgram(), Expr(EndlessProgram().initial, map[]), n).None?
  {
    hide Live, Needs;
    var p := EndlessProgram();
    GuardedUnlessEndless(p);
    forall n: nat ensures SearchN(p, Expr(2, map[]), n).None? { StuckForever(p, {0, 2}, Expr(2, map[]), n); }
  }
}
