/** Traces, failures and divergences of the processes of a module, from its source
    alone, and the proof that the system it compiles to has the same. */
module CspmMeaning {
  import opened CspmSyntax
  import opened CspmCompile
  import opened CspmStep
  import opened CspmSearch
  import opened CspmProvider
  import opened CspmSource
  import opened CspmBisim
  import CspmRecursion
  import DeadlockCheck
  import DivergenceCheck
  import ReachSearch
  import Refinement
  import Lts

  // ---------------------------------------------------------------- the source

  ghost predicate SourceRun(m: Module, qs: seq<Config>, ls: Lts.Trace) {
    |qs| == |ls| + 1 && forall i | 0 <= i < |ls| :: Step(m, qs[i], ls[i], qs[i + 1])
  }

  ghost predicate RunsTo(m: Module, qs: seq<Config>, ls: Lts.Trace, q: Config) {
    SourceRun(m, qs, ls) && qs[0].Proc? && IsEntry(m, qs[0].e) && qs[0].env == map[] && qs[|ls|] == q
  }

  /** The entry can come to `q` with `tr` as the visible part. */
  ghost predicate Comes(m: Module, tr: Lts.Trace, q: Config) {
    exists qs, ls :: RunsTo(m, qs, ls, q) && Lts.Erase(ls) == tr
  }

  ghost predicate SourceTrace(m: Module, tr: Lts.Trace) {
    exists q :: Comes(m, tr, q)
  }

  ghost predicate SourceStable(m: Module, q: Config) {
    forall q' :: !Step(m, q, "tau", q')
  }

  ghost predicate SourceRejects(m: Module, q: Config, refused: iset<string>) {
    forall a, q' | a != "tau" && Step(m, q, a, q') :: a !in refused
  }

  ghost predicate SourceFailure(m: Module, tr: Lts.Trace, refused: iset<string>) {
    exists q :: Comes(m, tr, q) && SourceStable(m, q) && SourceRejects(m, q, refused)
  }

  ghost predicate Endless(m: Module, f: nat -> Config) {
    forall i: nat :: Step(m, f(i), "tau", f(i + 1))
  }

  ghost predicate SourceDivergesFrom(m: Module, q: Config) {
    exists f: nat -> Config :: f(0) == q && Endless(m, f)
  }

  ghost predicate SourceDivergesAfter(m: Module, tr: Lts.Trace) {
    exists q :: Comes(m, tr, q) && SourceDivergesFrom(m, q)
  }

  ghost predicate SourceDivergence(m: Module, tr: Lts.Trace) {
    exists i :: 0 <= i <= |tr| && SourceDivergesAfter(m, tr[..i])
  }

  ghost predicate Reached(m: Module, q: Config) {
    exists qs, ls :: RunsTo(m, qs, ls, q)
  }

  ghost predicate Halts(m: Module, q: Config) {
    forall a, q' :: !Step(m, q, a, q')
  }

  ghost predicate SourceDeadlock(m: Module) {
    exists q :: Reached(m, q) && Halts(m, q)
  }

  /** The visible part of a run that ends where nothing can happen, and no shorter run does. */
  ghost predicate SourceShortestDeadlock(m: Module, events: Lts.Trace) {
    exists qs, ls, q :: RunsTo(m, qs, ls, q) && Halts(m, q) && events == Lts.Erase(ls)
              && forall qs', ls', q' | RunsTo(m, qs', ls', q') && Halts(m, q') :: |ls| <= |ls'|
  }

  ghost predicate SourceDivergent(m: Module) {
    exists q :: Reached(m, q) && SourceDivergesFrom(m, q)
  }

  /** Refinement between modules in the three models. */
  ghost predicate SourceRefines(model: Refinement.Model, spec: Module, impl: Module) {
    match model
    case T => forall tr | SourceTrace(impl, tr) :: SourceTrace(spec, tr)
    case F =>
      && (forall tr | SourceTrace(impl, tr) :: SourceTrace(spec, tr))
      && forall tr, refused | SourceFailure(impl, tr, refused) :: SourceFailure(spec, tr, refused)
    case FD =>
      && (forall tr | Lts.VisibleTrace(tr) && SourceDivergence(impl, tr) :: SourceDivergence(spec, tr))
      && forall tr, refused | Lts.VisibleTrace(tr) && (SourceFailure(impl, tr, refused) || SourceDivergence(impl, tr)) ::
           SourceFailure(spec, tr, refused) || SourceDivergence(spec, tr)
  }

  // ------------------------------------------------------------ step by step

  /** A compiled module whose searches come back on the states that occur. */
  ghost predicate Ready(m: Module, p: Program, ids: map<string, nat>, roots: seq<nat>, u: set<State>, depth: nat) {
    && CspmRecursion.Compilation(m, p, ids, roots) && DistinctNames(m.declarations) && ChannelsOf(m, p)
    && HoldsRuns(p, u, depth)
  }

  lemma ReadyFacts(m: Module, p: Program, ids: map<string, nat>, roots: seq<nat>, u: set<State>, depth: nat)
    requires Ready(m, p, ids, roots, u, depth)
    ensures WellFormed(p) && BuildN(p, p.initial, map[], depth).Some? && BuildN(p, p.initial, map[], depth).value in u
  {
    hide CspmRecursion.Compilation, ChannelsOf, DistinctNames;
  }

  lemma MatchedAt(m: Module, p: Program, ids: map<string, nat>, roots: seq<nat>, u: set<State>, depth: nat, q: Config, s: State)
    requires Ready(m, p, ids, roots, u, depth) && WellFormed(p) && s in u && Means(p, ids, q, s)
    ensures Matched(m, p, ids, q, Answer(p, s, depth)) && forall e | e in Answer(p, s, depth) :: e.1 in u
  {
    hide CspmRecursion.Compilation, DistinctNames, ChannelsOf, Matched, MeansN, SearchN, BuildN, WellFormed;
    assert Answers(p, u, depth, s);
    var n: nat :| MeansN(p, ids, q, s, n);
    StepsMatch(m, p, ids, roots, q, s, n, depth);
  }

  /** A step of the system is one of the source. */
  lemma Forward(m: Module, p: Program, ids: map<string, nat>, roots: seq<nat>, u: set<State>, depth: nat, q: Config, s: State, a: string, t: State)
    returns (q': Config)
    requires Ready(m, p, ids, roots, u, depth) && WellFormed(p) && s in u && Means(p, ids, q, s) && (a, t) in Answer(p, s, depth)
    ensures Step(m, q, a, q') && Means(p, ids, q', t) && t in u
  {
    MatchedAt(m, p, ids, roots, u, depth, q, s);
    hide Ready, Step, Means, WellFormed, Answer;
    assert (a, t).1 in u;
    assert Explained(m, p, ids, q, a, t);
    q' :| Step(m, q, a, q') && Means(p, ids, q', t);
  }

  /** A step of the source is one of the system. */
  lemma Backward(m: Module, p: Program, ids: map<string, nat>, roots: seq<nat>, u: set<State>, depth: nat, q: Config, s: State, a: string, q': Config)
    returns (t: State)
    requires Ready(m, p, ids, roots, u, depth) && WellFormed(p) && s in u && Means(p, ids, q, s) && Step(m, q, a, q')
    ensures (a, t) in Answer(p, s, depth) && Means(p, ids, q', t) && t in u
  {
    MatchedAt(m, p, ids, roots, u, depth, q, s);
    hide Ready, Step, Means, WellFormed, Answer;
    assert Answered(p, ids, Answer(p, s, depth), a, q');
    t :| (a, t) in Answer(p, s, depth) && Means(p, ids, q', t);
    assert (a, t).1 in u;
  }

  /** The entry means the initial state. */
  lemma EntryMeans(m: Module, p: Program, ids: map<string, nat>, roots: seq<nat>, u: set<State>, depth: nat, e: Process)
    requires Ready(m, p, ids, roots, u, depth) && WellFormed(p) && IsEntry(m, e)
    ensures BuildN(p, p.initial, map[], depth).Some? && Means(p, ids, Proc(e, map[]), BuildN(p, p.initial, map[], depth).value)
  {
    ReadyFacts(m, p, ids, roots, u, depth);
    hide HoldsRuns, ChannelsOf, DistinctNames, WellFormed, BuildN, Means, Ordered, RootsOk, RootAt, Injective, Stands;
    MeansBuilt(p, ids, e, map[], p.initial, depth, BuildN(p, p.initial, map[], depth).value);
  }

  lemma HasEntry(m: Module, p: Program, ids: map<string, nat>, roots: seq<nat>, u: set<State>, depth: nat) returns (e: Process)
    requires Ready(m, p, ids, roots, u, depth)
    ensures IsEntry(m, e)
  {
    hide HoldsRuns, ChannelsOf, DistinctNames, WellFormed, Ordered, RootsOk, RootAt, Injective, Stands;
    e := InitialExpr(m).value;
  }

  // --------------------------------------------------------------- whole runs

  ghost predicate AllMean(p: Program, ids: map<string, nat>, u: set<State>, qs: seq<Config>, ss: seq<State>)
    requires WellFormed(p)
  {
    |qs| == |ss| && forall i | 0 <= i < |qs| :: ss[i] in u && Means(p, ids, qs[i], ss[i])
  }

  lemma {:induction false} RunForward(m: Module, p: Program, ids: map<string, nat>, roots: seq<nat>, u: set<State>, depth: nat,
                                      enc: State -> Lts.Bytes, q: Config, ss: seq<State>, ls: Lts.Trace) returns (qs: seq<Config>)
    requires Ready(m, p, ids, roots, u, depth) && WellFormed(p) && BuildN(p, p.initial, map[], depth).Some?
    requires Lts.IsRun(Searched(p, enc, depth), ss, ls) && ss[0] in u && Means(p, ids, q, ss[0])
    ensures |qs| == |ls| + 1 && SourceRun(m, qs, ls) && AllMean(p, ids, u, qs, ss) && qs[0] == q
  {
    hide Ready, WellFormed, Means, Step, Answer, BuildN;
    qs := [q];
    for i := 0 to |ls|
      invariant |qs| == i + 1 && qs[0] == q && SourceRun(m, qs, ls[..i]) && AllMean(p, ids, u, qs, ss[..i + 1])
    {
      assert Lts.Edge(Searched(p, enc, depth), ss[i], ls[i], ss[i + 1]);
      assert qs[i] == qs[..i + 1][i] && ss[i] == ss[..i + 1][i];
      var q' := Forward(m, p, ids, roots, u, depth, qs[i], ss[i], ls[i], ss[i + 1]);
      qs := qs + [q'];
    }
    assert ls[..|ls|] == ls && ss[..|ls| + 1] == ss;
  }

  lemma {:induction false} RunBackward(m: Module, p: Program, ids: map<string, nat>, roots: seq<nat>, u: set<State>, depth: nat,
                                       enc: State -> Lts.Bytes, s: State, qs: seq<Config>, ls: Lts.Trace) returns (ss: seq<State>)
    requires Ready(m, p, ids, roots, u, depth) && WellFormed(p) && BuildN(p, p.initial, map[], depth).Some?
    requires SourceRun(m, qs, ls) && s in u && Means(p, ids, qs[0], s)
    ensures Lts.IsRun(Searched(p, enc, depth), ss, ls) && AllMean(p, ids, u, qs, ss) && ss[0] == s
  {
    hide Ready, WellFormed, Means, Step, Answer, BuildN;
    ss := [s];
    for i := 0 to |ls|
      invariant |ss| == i + 1 && ss[0] == s && Lts.IsRun(Searched(p, enc, depth), ss, ls[..i]) && AllMean(p, ids, u, qs[..i + 1], ss)
    {
      assert qs[i] == qs[..i + 1][i];
      var t := Backward(m, p, ids, roots, u, depth, qs[i], ss[i], ls[i], qs[i + 1]);
      assert Lts.Edge(Searched(p, enc, depth), ss[i], ls[i], t);
      ss := ss + [t];
    }
    assert ls[..|ls|] == ls && qs[..|ls| + 1] == qs;
  }

  // --------------------------------------------------------------- semantics

  /** What the system can come to is meant by something the source can come to by the
      same labels. */
  lemma ReachForward(m: Module, p: Program, ids: map<string, nat>, roots: seq<nat>, u: set<State>, depth: nat, enc: State -> Lts.Bytes,
                     ss: seq<State>, ls: Lts.Trace) returns (qs: seq<Config>)
    requires Ready(m, p, ids, roots, u, depth) && WellFormed(p) && BuildN(p, p.initial, map[], depth).Some?
    requires Lts.IsRun(Searched(p, enc, depth), ss, ls) && ss[0] == Searched(p, enc, depth).init
    ensures |qs| > 0 && RunsTo(m, qs, ls, qs[|qs| - 1]) && ss[|ls|] in u && Means(p, ids, qs[|qs| - 1], ss[|ls|])
  {
    ReadyFacts(m, p, ids, roots, u, depth);
    var e := HasEntry(m, p, ids, roots, u, depth);
    EntryMeans(m, p, ids, roots, u, depth, e);
    hide Ready, WellFormed, Means, Step, BuildN, IsEntry, AllMean, SourceRun, Answer;
    qs := RunForward(m, p, ids, roots, u, depth, enc, Proc(e, map[]), ss, ls);
    LastIsMeant(m, p, ids, u, e, qs, ss, ls);
  }

  lemma LastIsMeant(m: Module, p: Program, ids: map<string, nat>, u: set<State>, e: Process, qs: seq<Config>, ss: seq<State>, ls: Lts.Trace)
    requires WellFormed(p) && SourceRun(m, qs, ls) && AllMean(p, ids, u, qs, ss) && |ss| == |ls| + 1
    requires qs[0] == Proc(e, map[]) && IsEntry(m, e)
    ensures RunsTo(m, qs, ls, qs[|qs| - 1]) && ss[|ls|] in u && Means(p, ids, qs[|qs| - 1], ss[|ls|])
  {
    hide WellFormed, Means, Step, IsEntry;
  }

  lemma ReachBackward(m: Module, p: Program, ids: map<string, nat>, roots: seq<nat>, u: set<State>, depth: nat, enc: State -> Lts.Bytes,
                      qs: seq<Config>, ls: Lts.Trace, q: Config) returns (ss: seq<State>)
    requires Ready(m, p, ids, roots, u, depth) && WellFormed(p) && BuildN(p, p.initial, map[], depth).Some?
    requires RunsTo(m, qs, ls, q)
    ensures Lts.IsRun(Searched(p, enc, depth), ss, ls) && ss[0] == Searched(p, enc, depth).init && ss[|ls|] in u && Means(p, ids, q, ss[|ls|])
  {
    ReadyFacts(m, p, ids, roots, u, depth);
    EntryMeans(m, p, ids, roots, u, depth, qs[0].e);
    hide Ready, WellFormed, Means, Step, BuildN;
    ss := RunBackward(m, p, ids, roots, u, depth, enc, Searched(p, enc, depth).init, qs, ls);
  }

  /** Some process the source can come to after the trace means the state. */
  ghost predicate Meant(m: Module, p: Program, ids: map<string, nat>, tr: Lts.Trace, t: State)
    requires WellFormed(p)
  {
    exists q :: Comes(m, tr, q) && Means(p, ids, q, t)
  }

  ghost predicate MeantBack(l: Lts.Lts<State>, p: Program, ids: map<string, nat>, u: set<State>, tr: Lts.Trace, q: Config)
    requires WellFormed(p)
  {
    exists t :: t in Lts.After(l, tr) && t in u && Means(p, ids, q, t)
  }

  lemma AfterIsMeant(m: Module, p: Program, ids: map<string, nat>, roots: seq<nat>, u: set<State>, depth: nat, enc: State -> Lts.Bytes,
                     tr: Lts.Trace, t: State)
    requires Ready(m, p, ids, roots, u, depth) && WellFormed(p) && BuildN(p, p.initial, map[], depth).Some?
    requires t in Lts.After(Searched(p, enc, depth), tr)
    ensures t in u && Meant(m, p, ids, tr, t)
  {
    hide Ready, WellFormed, Means, BuildN, Step;
    var ss, ls :| Lts.IsRun(Searched(p, enc, depth), ss, ls) && ss[0] == Searched(p, enc, depth).init && ss[|ls|] == t && Lts.Erase(ls) == tr;
    var qs := ReachForward(m, p, ids, roots, u, depth, enc, ss, ls);
    assert Comes(m, tr, qs[|qs| - 1]);
  }

  lemma ComesIsMeant(m: Module, p: Program, ids: map<string, nat>, roots: seq<nat>, u: set<State>, depth: nat, enc: State -> Lts.Bytes,
                     tr: Lts.Trace, q: Config)
    requires Ready(m, p, ids, roots, u, depth) && WellFormed(p) && BuildN(p, p.initial, map[], depth).Some?
    requires Comes(m, tr, q)
    ensures MeantBack(Searched(p, enc, depth), p, ids, u, tr, q)
  {
    hide Ready, WellFormed, Means, BuildN;
    var qs, ls :| RunsTo(m, qs, ls, q) && Lts.Erase(ls) == tr;
    var ss := ReachBackward(m, p, ids, roots, u, depth, enc, qs, ls, q);
    var l := Searched(p, enc, depth);
    assert Lts.RunTo(l, tr, ss[|ls|]);
  }

  // ---------------------------------------------------- what states can do

  /** A state can do what the process it means can do. */
  lemma SameOffers(m: Module, p: Program, ids: map<string, nat>, roots: seq<nat>, u: set<State>, depth: nat, enc: State -> Lts.Bytes,
                   q: Config, t: State, refused: iset<string>)
    requires Ready(m, p, ids, roots, u, depth) && WellFormed(p) && BuildN(p, p.initial, map[], depth).Some?
    requires t in u && Means(p, ids, q, t)
    ensures Lts.Stable(Searched(p, enc, depth), t) <==> SourceStable(m, q)
    ensures Lts.Rejects(Searched(p, enc, depth), t, refused) <==> SourceRejects(m, q, refused)
    ensures Searched(p, enc, depth).next(t) == [] <==> Halts(m, q)
  {
    MatchedAt(m, p, ids, roots, u, depth, q, t);
    hide Ready, WellFormed, Means, BuildN, Step, Answer;
    var l, steps := Searched(p, enc, depth), Answer(p, t, depth);
    assert l.next(t) == steps;
    forall a, q' | Step(m, q, a, q') ensures exists t' :: (a, t') in steps { assert Answered(p, ids, steps, a, q'); }
    forall a, t' | (a, t') in steps ensures exists q' :: Step(m, q, a, q') { assert Explained(m, p, ids, q, a, t'); }
    StepsDecide(m, l, q, t, refused);
  }

  lemma StepsDecide(m: Module, l: Lts.Lts<State>, q: Config, t: State, refused: iset<string>)
    requires forall a, q' | Step(m, q, a, q') :: exists t' :: (a, t') in l.next(t)
    requires forall a, t' | (a, t') in l.next(t) :: exists q' :: Step(m, q, a, q')
    ensures Lts.Stable(l, t) <==> SourceStable(m, q)
    ensures Lts.Rejects(l, t, refused) <==> SourceRejects(m, q, refused)
    ensures l.next(t) == [] <==> Halts(m, q)
  {
    hide Step;
    forall e | e in l.next(t) ensures exists q' :: Step(m, q, e.0, q') { assert (e.0, e.1) in l.next(t); }
    if l.next(t) != [] { assert l.next(t)[0] in l.next(t); }
    forall a, q' | Step(m, q, a, q') && a != "tau" ensures a in Lts.Offers(l, t) {
      var t' :| (a, t') in l.next(t);
      assert (a, t').0 == a;
    }
  }

  // -------------------------------------------------------------- divergence

  /** Along an infinite internal run of the system, what the source does. */
  ghost function Along(m: Module, p: Program, ids: map<string, nat>, f: nat -> State, q: Config, n: nat): Config
    requires WellFormed(p)
    decreases n
  {
    if n == 0 then q
    else
      var before := Along(m, p, ids, f, q, n - 1);
      if exists q' :: Step(m, before, "tau", q') && Means(p, ids, q', f(n)) then
        var q' :| Step(m, before, "tau", q') && Means(p, ids, q', f(n)); q'
      else before
  }

  lemma {:induction false} AlongMeans(m: Module, p: Program, ids: map<string, nat>, roots: seq<nat>, u: set<State>, depth: nat, enc: State -> Lts.Bytes,
                                      f: nat -> State, q: Config, n: nat)
    requires Ready(m, p, ids, roots, u, depth) && WellFormed(p) && BuildN(p, p.initial, map[], depth).Some?
    requires Lts.InfiniteTauRun(Searched(p, enc, depth), f) && f(0) in u && Means(p, ids, q, f(0))
    ensures f(n) in u && Means(p, ids, Along(m, p, ids, f, q, n), f(n))
    ensures n > 0 ==> Step(m, Along(m, p, ids, f, q, n - 1), "tau", Along(m, p, ids, f, q, n))
  {
    hide Ready, WellFormed, Means, BuildN, Step, Answer;
    if n > 0 {
      AlongMeans(m, p, ids, roots, u, depth, enc, f, q, n - 1);
      assert Lts.Edge(Searched(p, enc, depth), f(n - 1), Lts.TAU, f(n - 1 + 1));
      var q' := Forward(m, p, ids, roots, u, depth, Along(m, p, ids, f, q, n - 1), f(n - 1), "tau", f(n));
    }
  }

  ghost function AlongBack(m: Module, p: Program, ids: map<string, nat>, l: Lts.Lts<State>, f: nat -> Config, t: State, n: nat): State
    requires WellFormed(p)
    decreases n
  {
    if n == 0 then t
    else
      var before := AlongBack(m, p, ids, l, f, t, n - 1);
      if exists t' :: Lts.Edge(l, before, Lts.TAU, t') && Means(p, ids, f(n), t') then
        var t' :| Lts.Edge(l, before, Lts.TAU, t') && Means(p, ids, f(n), t'); t'
      else before
  }

  lemma {:induction false} AlongBackMeans(m: Module, p: Program, ids: map<string, nat>, roots: seq<nat>, u: set<State>, depth: nat, enc: State -> Lts.Bytes,
                                          f: nat -> Config, t: State, n: nat)
    requires Ready(m, p, ids, roots, u, depth) && WellFormed(p) && BuildN(p, p.initial, map[], depth).Some?
    requires Endless(m, f) && t in u && Means(p, ids, f(0), t)
    ensures var l := Searched(p, enc, depth);
            AlongBack(m, p, ids, l, f, t, n) in u && Means(p, ids, f(n), AlongBack(m, p, ids, l, f, t, n))
            && (n > 0 ==> Lts.Edge(l, AlongBack(m, p, ids, l, f, t, n - 1), Lts.TAU, AlongBack(m, p, ids, l, f, t, n)))
  {
    hide WellFormed, Means, BuildN, Step, Answer, CspmRecursion.Compilation, ChannelsOf, SearchN, Tabled;
    var l := Searched(p, enc, depth);
    if n > 0 {
      AlongBackMeans(m, p, ids, roots, u, depth, enc, f, t, n - 1);
      var before := AlongBack(m, p, ids, l, f, t, n - 1);
      assert Step(m, f(n - 1), "tau", f(n - 1 + 1));
      var t' := Backward(m, p, ids, roots, u, depth, f(n - 1), before, "tau", f(n));
      assert Lts.Edge(l, before, Lts.TAU, t');
      MatchedAt(m, p, ids, roots, u, depth, f(n - 1), before);
      var after := AlongBack(m, p, ids, l, f, t, n);
      assert (Lts.TAU, after) in Answer(p, before, depth) && (Lts.TAU, after).1 == after;
    }
  }

  /** The state diverges exactly when the process it means does. */
  lemma SameDivergence(m: Module, p: Program, ids: map<string, nat>, roots: seq<nat>, u: set<State>, depth: nat, enc: State -> Lts.Bytes,
                       q: Config, t: State)
    requires Ready(m, p, ids, roots, u, depth) && WellFormed(p) && BuildN(p, p.initial, map[], depth).Some?
    requires t in u && Means(p, ids, q, t)
    ensures Lts.DivergesFrom(Searched(p, enc, depth), t) <==> SourceDivergesFrom(m, q)
  {
    hide Ready, WellFormed, Means, BuildN, Step, Answer, Along, AlongBack;
    var l := Searched(p, enc, depth);
    if f: nat -> State :| f(0) == t && Lts.InfiniteTauRun(l, f) {
      var g := (n: nat) => Along(m, p, ids, f, q, n);
      forall n: nat ensures Step(m, g(n), "tau", g(n + 1)) { AlongMeans(m, p, ids, roots, u, depth, enc, f, q, n + 1); }
      StartsAlong(m, p, ids, f, q);
      assert g(0) == q && Endless(m, g);
    }
    if f: nat -> Config :| f(0) == q && Endless(m, f) {
      var g := (n: nat) => AlongBack(m, p, ids, l, f, t, n);
      forall n: nat ensures Lts.Edge(l, g(n), Lts.TAU, g(n + 1)) { AlongBackMeans(m, p, ids, roots, u, depth, enc, f, t, n + 1); }
      StartsAlongBack(m, p, ids, l, f, t);
      assert g(0) == t && Lts.InfiniteTauRun(l, g);
    }
  }

  lemma StartsAlong(m: Module, p: Program, ids: map<string, nat>, f: nat -> State, q: Config)
    requires WellFormed(p)
    ensures Along(m, p, ids, f, q, 0) == q
  {}

  lemma StartsAlongBack(m: Module, p: Program, ids: map<string, nat>, l: Lts.Lts<State>, f: nat -> Config, t: State)
    requires WellFormed(p)
    ensures AlongBack(m, p, ids, l, f, t, 0) == t
  {}

  // ------------------------------------------------------------ the theorems

  /** A system and the module whose source means the same. */
  ghost predicate SameSemantics(l: Lts.Lts<State>, m: Module) {
    && (forall tr :: Lts.IsTrace(l, tr) <==> SourceTrace(m, tr))
    && (forall tr, refused :: Lts.Failure(l, tr, refused) <==> SourceFailure(m, tr, refused))
    && (forall tr :: Lts.Divergence(l, tr) <==> SourceDivergence(m, tr))
    && (DeadlockCheck.DeadlockFree(l) <==> !SourceDeadlock(m))
    && (DivergenceCheck.ReachableDivergence(l) <==> SourceDivergent(m))
  }

  lemma SameTrace(m: Module, p: Program, ids: map<string, nat>, roots: seq<nat>, u: set<State>, depth: nat, enc: State -> Lts.Bytes, tr: Lts.Trace)
    requires Ready(m, p, ids, roots, u, depth) && WellFormed(p) && BuildN(p, p.initial, map[], depth).Some?
    ensures Lts.IsTrace(Searched(p, enc, depth), tr) <==> SourceTrace(m, tr)
  {
    hide Ready, WellFormed, Means, BuildN, Comes, Lts.After;
    var l := Searched(p, enc, depth);
    if t :| t in Lts.After(l, tr) { AfterIsMeant(m, p, ids, roots, u, depth, enc, tr, t); }
    if q :| Comes(m, tr, q) { ComesIsMeant(m, p, ids, roots, u, depth, enc, tr, q); }
  }

  lemma SameFailure(m: Module, p: Program, ids: map<string, nat>, roots: seq<nat>, u: set<State>, depth: nat, enc: State -> Lts.Bytes, tr: Lts.Trace,
                    refused: iset<string>)
    requires Ready(m, p, ids, roots, u, depth) && WellFormed(p) && BuildN(p, p.initial, map[], depth).Some?
    ensures Lts.Failure(Searched(p, enc, depth), tr, refused) <==> SourceFailure(m, tr, refused)
  {
    hide Ready, WellFormed, Means, BuildN, Comes, Lts.After, Lts.Stable, Lts.Rejects, SourceStable, SourceRejects;
    var l := Searched(p, enc, depth);
    if t :| t in Lts.After(l, tr) && Lts.Stable(l, t) && Lts.Rejects(l, t, refused) {
      AfterIsMeant(m, p, ids, roots, u, depth, enc, tr, t);
      var q :| Comes(m, tr, q) && Means(p, ids, q, t);
      SameOffers(m, p, ids, roots, u, depth, enc, q, t, refused);
    }
    if q :| Comes(m, tr, q) && SourceStable(m, q) && SourceRejects(m, q, refused) {
      ComesIsMeant(m, p, ids, roots, u, depth, enc, tr, q);
      var t :| t in Lts.After(l, tr) && t in u && Means(p, ids, q, t);
      SameOffers(m, p, ids, roots, u, depth, enc, q, t, refused);
    }
  }

  lemma SameDivergesAfter(m: Module, p: Program, ids: map<string, nat>, roots: seq<nat>, u: set<State>, depth: nat, enc: State -> Lts.Bytes, tr: Lts.Trace)
    requires Ready(m, p, ids, roots, u, depth) && WellFormed(p) && BuildN(p, p.initial, map[], depth).Some?
    ensures Lts.DivergesAfter(Searched(p, enc, depth), tr) <==> SourceDivergesAfter(m, tr)
  {
    hide Ready, WellFormed, Means, BuildN, Comes, Lts.After, Lts.DivergesFrom, SourceDivergesFrom;
    var l := Searched(p, enc, depth);
    if t :| t in Lts.After(l, tr) && Lts.DivergesFrom(l, t) {
      AfterIsMeant(m, p, ids, roots, u, depth, enc, tr, t);
      var q :| Comes(m, tr, q) && Means(p, ids, q, t);
      SameDivergence(m, p, ids, roots, u, depth, enc, q, t);
    }
    if q :| Comes(m, tr, q) && SourceDivergesFrom(m, q) {
      ComesIsMeant(m, p, ids, roots, u, depth, enc, tr, q);
      var t :| t in Lts.After(l, tr) && t in u && Means(p, ids, q, t);
      SameDivergence(m, p, ids, roots, u, depth, enc, q, t);
    }
  }

  /** What the system reaches is meant by what the source reaches, and back. */
  lemma ReachedIsMeant(m: Module, p: Program, ids: map<string, nat>, roots: seq<nat>, u: set<State>, depth: nat, enc: State -> Lts.Bytes, t: State)
    returns (q: Config)
    requires Ready(m, p, ids, roots, u, depth) && WellFormed(p) && BuildN(p, p.initial, map[], depth).Some?
    requires ReachSearch.Reachable(Searched(p, enc, depth), t)
    ensures t in u && Reached(m, q) && Means(p, ids, q, t)
  {
    hide Ready, WellFormed, Means, BuildN, SourceRun;
    var w :| ReachSearch.IsWalk(Searched(p, enc, depth), w, t);
    var qs := ReachForward(m, p, ids, roots, u, depth, enc, w.states, w.labels);
    q := qs[|qs| - 1];
  }

  lemma ReachedHasState(m: Module, p: Program, ids: map<string, nat>, roots: seq<nat>, u: set<State>, depth: nat, enc: State -> Lts.Bytes, q: Config)
    returns (t: State)
    requires Ready(m, p, ids, roots, u, depth) && WellFormed(p) && BuildN(p, p.initial, map[], depth).Some?
    requires Reached(m, q)
    ensures t in u && ReachSearch.Reachable(Searched(p, enc, depth), t) && Means(p, ids, q, t)
  {
    hide Ready, WellFormed, Means, BuildN, RunsTo;
    var qs, ls :| RunsTo(m, qs, ls, q);
    var ss := ReachBackward(m, p, ids, roots, u, depth, enc, qs, ls, q);
    t := ss[|ls|];
    assert ReachSearch.IsWalk(Searched(p, enc, depth), ReachSearch.Walk(ss, ls), t);
  }

  lemma SameDeadlocks(m: Module, p: Program, ids: map<string, nat>, roots: seq<nat>, u: set<State>, depth: nat, enc: State -> Lts.Bytes)
    requires Ready(m, p, ids, roots, u, depth) && WellFormed(p) && BuildN(p, p.initial, map[], depth).Some?
    ensures DeadlockCheck.DeadlockFree(Searched(p, enc, depth)) <==> !SourceDeadlock(m)
    ensures DivergenceCheck.ReachableDivergence(Searched(p, enc, depth)) <==> SourceDivergent(m)
  {
    hide Ready, WellFormed, Means, BuildN, Reached, ReachSearch.Reachable, Lts.DivergesFrom, SourceDivergesFrom, Step;
    var l := Searched(p, enc, depth);
    if t :| ReachSearch.Reachable(l, t) && DeadlockCheck.Deadlock(l, t) {
      var q := ReachedIsMeant(m, p, ids, roots, u, depth, enc, t);
      SameOffers(m, p, ids, roots, u, depth, enc, q, t, iset{});
    }
    if q :| Reached(m, q) && Halts(m, q) {
      var t := ReachedHasState(m, p, ids, roots, u, depth, enc, q);
      SameOffers(m, p, ids, roots, u, depth, enc, q, t, iset{});
    }
    if t :| ReachSearch.Reachable(l, t) && Lts.DivergesFrom(l, t) {
      var q := ReachedIsMeant(m, p, ids, roots, u, depth, enc, t);
      SameDivergence(m, p, ids, roots, u, depth, enc, q, t);
    }
    if q :| Reached(m, q) && SourceDivergesFrom(m, q) {
      var t := ReachedHasState(m, p, ids, roots, u, depth, enc, q);
      SameDivergence(m, p, ids, roots, u, depth, enc, q, t);
    }
  }

  lemma SameShortest(m: Module, p: Program, ids: map<string, nat>, roots: seq<nat>, u: set<State>, depth: nat, enc: State -> Lts.Bytes, events: Lts.Trace)
    requires Ready(m, p, ids, roots, u, depth) && WellFormed(p) && BuildN(p, p.initial, map[], depth).Some?
    requires DeadlockCheck.ShortestDeadlock(Searched(p, enc, depth), events)
    ensures SourceShortestDeadlock(m, events)
  {
    hide Ready, WellFormed, Means, BuildN, RunsTo, Halts, Answer;
    var l := Searched(p, enc, depth);
    var w, s :| ReachSearch.IsWalk(l, w, s) && DeadlockCheck.Deadlock(l, s) && events == Lts.Erase(w.labels)
                && forall w', s' | ReachSearch.IsWalk(l, w', s') && DeadlockCheck.Deadlock(l, s') :: |w.labels| <= |w'.labels|;
    var qs := ReachForward(m, p, ids, roots, u, depth, enc, w.states, w.labels);
    var q := qs[|qs| - 1];
    SameOffers(m, p, ids, roots, u, depth, enc, q, s, iset{});
    forall qs', ls', q' | RunsTo(m, qs', ls', q') && Halts(m, q') ensures |w.labels| <= |ls'| {
      var ss := ReachBackward(m, p, ids, roots, u, depth, enc, qs', ls', q');
      SameOffers(m, p, ids, roots, u, depth, enc, q', ss[|ls'|], iset{});
      assert ReachSearch.IsWalk(l, ReachSearch.Walk(ss, ls'), ss[|ls'|]);
    }
  }

  /** A shortest run to a deadlock is one of the source. */
  lemma ShortestOnSource(m: Module, u: set<State>, depth: nat, enc: State -> Lts.Bytes, events: Lts.Trace)
    requires Compilable(m) && HoldsRuns(ProgramOf(m), u, depth)
    requires DeadlockCheck.ShortestDeadlock(Searched(ProgramOf(m), enc, depth), events)
    ensures SourceShortestDeadlock(m, events)
  {
    var p := ProgramOf(m);
    IsReady(m, p, u, depth);
    hide Compilable, Ready, HoldsRuns, CompilesTo, TableOf, IdsOf, DeadlockCheck.ShortestDeadlock, SourceShortestDeadlock;
    ReadyFacts(m, p, IdsOf(m), TableOf(m).value.roots, u, depth);
    SameShortest(m, p, IdsOf(m), TableOf(m).value.roots, u, depth, enc, events);
  }

  lemma ReadyMeansSame(m: Module, p: Program, ids: map<string, nat>, roots: seq<nat>, u: set<State>, depth: nat, enc: State -> Lts.Bytes)
    requires Ready(m, p, ids, roots, u, depth) && WellFormed(p) && BuildN(p, p.initial, map[], depth).Some?
    ensures SameSemantics(Searched(p, enc, depth), m)
  {
    hide Ready, WellFormed, BuildN, Lts.IsTrace, SourceTrace, Lts.Failure, SourceFailure, Lts.DivergesAfter, SourceDivergesAfter,
         DeadlockCheck.DeadlockFree, SourceDeadlock, DivergenceCheck.ReachableDivergence, SourceDivergent;
    var l := Searched(p, enc, depth);
    forall tr ensures Lts.IsTrace(l, tr) <==> SourceTrace(m, tr) { SameTrace(m, p, ids, roots, u, depth, enc, tr); }
    forall tr, refused ensures Lts.Failure(l, tr, refused) <==> SourceFailure(m, tr, refused) {
      SameFailure(m, p, ids, roots, u, depth, enc, tr, refused);
    }
    forall tr ensures Lts.DivergesAfter(l, tr) <==> SourceDivergesAfter(m, tr) { SameDivergesAfter(m, p, ids, roots, u, depth, enc, tr); }
    SameDeadlocks(m, p, ids, roots, u, depth, enc);
  }

  /** The system that a module compiles to has the traces, the failures and the
      divergences of its source, deadlocks where it does and diverges where it does. */
  lemma CompilesFaithfully(m: Module, u: set<State>, depth: nat, enc: State -> Lts.Bytes)
    requires Compilable(m) && HoldsRuns(ProgramOf(m), u, depth)
    ensures SameSemantics(Searched(ProgramOf(m), enc, depth), m)
  {
    var p := ProgramOf(m);
    IsReady(m, p, u, depth);
    hide Compilable, SameSemantics, Ready, HoldsRuns, CompilesTo, TableOf, IdsOf;
    ReadyFacts(m, p, IdsOf(m), TableOf(m).value.roots, u, depth);
    ReadyMeansSame(m, p, IdsOf(m), TableOf(m).value.roots, u, depth, enc);
  }

  lemma IsReady(m: Module, p: Program, u: set<State>, depth: nat)
    requires CompilesTo(m, p) && HoldsRuns(p, u, depth)
    ensures TableOf(m).Some? && Ready(m, p, IdsOf(m), TableOf(m).value.roots, u, depth)
  {
    CompilesToIsCompiled(m, p);
    CspmRecursion.IsCompilation(m, p, IdsOf(m), TableOf(m).value.roots);
    BuildableChannels(m);
    hide CspmRecursion.Compilation, HoldsRuns, Built, AllResolved, ChannelFacts;
  }

  lemma BuildableChannels(m: Module)
    requires Buildable(m)
    ensures ChannelFacts(m.channels, Keyed(Declared(m.channels))) && DistinctNames(m.declarations)
  {
    DistinctIsNoTwice(m.channels);
    KeyedIsDeclared(m.channels);
    ChannelsHaveFacts(m.channels, Keyed(Declared(m.channels)));
  }

  /** Refinement between the systems is refinement between the sources. */
  lemma RefinesAsSource(model: Refinement.Model, l: Lts.Lts<State>, k: Lts.Lts<State>, spec: Module, impl: Module)
    requires SameSemantics(l, spec) && SameSemantics(k, impl)
    ensures Refinement.Refines(model, l, k) <==> SourceRefines(model, spec, impl)
  {
    hide Lts.IsTrace, SourceTrace, Lts.Failure, SourceFailure, Lts.Divergence, SourceDivergence, DeadlockCheck.DeadlockFree, SourceDeadlock,
         DivergenceCheck.ReachableDivergence, SourceDivergent, Lts.VisibleTrace;
    if Refinement.Refines(model, l, k) {
      forall tr | model != Refinement.FD && SourceTrace(impl, tr) ensures SourceTrace(spec, tr) { assert Lts.IsTrace(k, tr); }
      forall tr, refused | model == Refinement.F && SourceFailure(impl, tr, refused) ensures SourceFailure(spec, tr, refused) {
        assert Lts.Failure(k, tr, refused);
      }
      forall tr | model == Refinement.FD && Lts.VisibleTrace(tr) && SourceDivergence(impl, tr) ensures SourceDivergence(spec, tr) {
        assert Lts.Divergence(k, tr);
      }
      forall tr, refused | model == Refinement.FD && Lts.VisibleTrace(tr) && (SourceFailure(impl, tr, refused) || SourceDivergence(impl, tr))
        ensures SourceFailure(spec, tr, refused) || SourceDivergence(spec, tr)
      {
        assert Lts.ChaoticFailure(k, tr, refused) && Lts.ChaoticFailure(l, tr, refused);
      }
    }
    if SourceRefines(model, spec, impl) {
      forall tr, refused | model == Refinement.FD && Lts.VisibleTrace(tr) && Lts.ChaoticFailure(k, tr, refused) ensures Lts.ChaoticFailure(l, tr, refused) {
        assert SourceFailure(impl, tr, refused) || SourceDivergence(impl, tr);
      }
    }
  }
}
