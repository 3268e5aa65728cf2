/** The breadth-first search of the refinement checker over pairs of closures. */
module RefineSearch {
  import opened Options
  import opened Lts
  import opened Refinement
  import opened Closures
  import opened Caches
  import opened Shortlex
  import ClosureCycle
  import Names

  /** One refinement question; the finite universes only serve the proofs. */
  datatype Problem<!S> = Problem(m: Model, spec: Lts<S>, impl: Lts<S>, us: set<S>, ui: set<S>)

  datatype NodeKey = NodeKey(implSig: seq<Bytes>, specSig: seq<Bytes>)

  datatype Node<S> = Node(implC: Closure<S>, specC: Closure<S>)

  /** `trace` holds the reported events: a divergence is reported with a final "tau". */
  datatype Outcome = Passes | Fails(kind: FailureKind, trace: Trace)

  function KeyOf<S>(n: Node<S>): NodeKey {
    NodeKey(n.implC.sig, n.specC.sig)
  }

  /** A node met by the search, with the trace that first led to it. */
  datatype Seen<S> = Seen(node: Node<S>, trace: Trace)

  ghost predicate FiniteProblem<S>(c: Problem<S>) {
    Finite(c.spec, c.us) && Finite(c.impl, c.ui)
  }

  /** `n` is the pair of state sets after `tr`. */
  ghost predicate At<S(!new)>(c: Problem<S>, n: Node<S>, tr: Trace) {
    && IsClosure(c.impl, c.ui, n.implC, After(c.impl, tr))
    && IsClosure(c.spec, c.us, n.specC, After(c.spec, tr))
  }

  ghost predicate ExploredTo<S(!new)>(c: Problem<S>, tr: Trace) {
    Explored(c.m, c.spec, c.impl, tr)
  }

  ghost function VerdictAt<S(!new)>(c: Problem<S>, tr: Trace): Verdict {
    JudgeAt(c.m, c.spec, c.impl, tr)
  }

  // -------------------------------------------------------- search invariants

  ghost predicate Known<S(!new)>(c: Problem<S>, seen: map<NodeKey, Seen<S>>) {
    forall k | k in seen :: KeyOf(seen[k].node) == k && At(c, seen[k].node, seen[k].trace) && ExploredTo(c, seen[k].trace)
  }

  /** Predecessor links spell out the recorded traces. */
  ghost predicate Linked<S>(seen: map<NodeKey, Seen<S>>, pred: map<NodeKey, (NodeKey, Label)>) {
    forall k | k in seen ::
      if seen[k].trace == [] then k !in pred
      else k in pred && pred[k].0 in seen && seen[k].trace == seen[pred[k].0].trace + [pred[k].1]
  }

  /** A node for `tr` was met along a trace that comes no later. */
  ghost predicate Reached<S(!new)>(c: Problem<S>, seen: map<NodeKey, Seen<S>>, tr: Trace) {
    exists k :: k in seen && At(c, seen[k].node, tr) && AtMost(seen[k].trace, tr)
  }

  ghost predicate Followed<S(!new)>(c: Problem<S>, seen: map<NodeKey, Seen<S>>, tr: Trace, a: Label) {
    IsTrace(c.impl, tr + [a]) ==> IsTrace(c.spec, tr + [a]) && Reached(c, seen, tr + [a])
  }

  /** The node is checked and, unless pruned, all its edges are followed. */
  ghost predicate Done<S(!new)>(c: Problem<S>, seen: map<NodeKey, Seen<S>>, k: NodeKey)
    requires k in seen
  {
    var v := VerdictAt(c, seen[k].trace);
    (v == Prune || v == Continue) && (v == Continue ==> forall a | a != TAU :: Followed(c, seen, seen[k].trace, a))
  }

  /** The trace before the last label. */
  function Front(tr: Trace): Trace {
    if tr == [] then [] else tr[..|tr| - 1]
  }

  /** The queue holds met nodes in ascending order of their traces. */
  ghost predicate Queued<S>(seen: map<NodeKey, Seen<S>>, queue: seq<Node<S>>) {
    && (forall i | 0 <= i < |queue| :: KeyOf(queue[i]) in seen && seen[KeyOf(queue[i])].node == queue[i])
    && (forall i, j | 0 <= i < j < |queue| :: Before(seen[KeyOf(queue[i])].trace, seen[KeyOf(queue[j])].trace))
  }

  /** All nodes were met from nodes that come no later than `v`, which comes before
      what is still queued. */
  ghost predicate MetFrom<S>(seen: map<NodeKey, Seen<S>>, queue: seq<Node<S>>, v: Trace) {
    && (forall k | k in seen && seen[k].trace != [] :: AtMost(Front(seen[k].trace), v))
    && (forall i | 0 <= i < |queue| :: KeyOf(queue[i]) in seen && Before(v, seen[KeyOf(queue[i])].trace))
  }

  /** All nodes were met from nodes that come before `v`. */
  ghost predicate MetBefore<S>(seen: map<NodeKey, Seen<S>>, v: Trace) {
    forall k | k in seen && seen[k].trace != [] :: Before(Front(seen[k].trace), v)
  }

  /** All nodes were met along traces before `w`. */
  ghost predicate AllBefore<S>(seen: map<NodeKey, Seen<S>>, w: Trace) {
    forall k | k in seen :: Before(seen[k].trace, w)
  }

  ghost predicate Pending<S>(queue: seq<Node<S>>, k: NodeKey) {
    exists i :: 0 <= i < |queue| && KeyOf(queue[i]) == k
  }

  ghost predicate DoneExcept<S(!new)>(c: Problem<S>, seen: map<NodeKey, Seen<S>>, queue: seq<Node<S>>) {
    forall k | k in seen && !Pending(queue, k) :: Done(c, seen, k)
  }

  // ---------------------------------------------------------- equal nodes

  /** Nodes with the same key stand for the same pair of state sets. */
  lemma SameNode<S(!new)>(c: Problem<S>, n: Node<S>, v: Trace, n': Node<S>, w: Trace)
    requires FiniteProblem(c) && At(c, n, v) && At(c, n', w)
    ensures KeyOf(n) == KeyOf(n') <==> After(c.impl, v) == After(c.impl, w) && After(c.spec, v) == After(c.spec, w)
    ensures KeyOf(n) == KeyOf(n') ==> n == n'
  {
    SignatureCanonical(c.impl, c.ui, n.implC, After(c.impl, v), n'.implC, After(c.impl, w));
    SignatureCanonical(c.spec, c.us, n.specC, After(c.spec, v), n'.specC, After(c.spec, w));
  }

  /** Traces with the same state sets have the same futures. */
  lemma SameFuture<S(!new)>(c: Problem<S>, n: Node<S>, v: Trace, w: Trace, a: Label)
    requires FiniteProblem(c) && At(c, n, v) && At(c, n, w) && a != TAU
    ensures VerdictAt(c, v) == VerdictAt(c, w)
    ensures After(c.impl, v + [a]) == After(c.impl, w + [a]) && After(c.spec, v + [a]) == After(c.spec, w + [a])
  {
    SameNode(c, n, v, n, w);
    AfterStep(c.impl, v, a);
    AfterStep(c.impl, w, a);
    AfterStep(c.spec, v, a);
    AfterStep(c.spec, w, a);
  }

  /** What being done says about every trace that leads to the node. */
  lemma DoneTransfers<S(!new)>(c: Problem<S>, seen: map<NodeKey, Seen<S>>, k: NodeKey, tr: Trace, a: Label)
    requires FiniteProblem(c) && Known(c, seen) && k in seen && Done(c, seen, k)
    requires At(c, seen[k].node, tr) && AtMost(seen[k].trace, tr) && a != TAU
    ensures VerdictAt(c, tr) == Prune || VerdictAt(c, tr) == Continue
    ensures VerdictAt(c, tr) == Continue && IsTrace(c.impl, tr + [a]) ==> IsTrace(c.spec, tr + [a]) && Reached(c, seen, tr + [a])
  {
    hide AtMost;
    var v := seen[k].trace;
    SameFuture(c, seen[k].node, v, tr, a);
    if VerdictAt(c, tr) == Continue && IsTrace(c.impl, tr + [a]) {
      assert Followed(c, seen, v, a);
      assert IsTrace(c.impl, v + [a]);
      var k' :| k' in seen && At(c, seen[k'].node, v + [a]) && AtMost(seen[k'].trace, v + [a]);
      assert At(c, seen[k'].node, tr + [a]);
      AppendAtMost(v, tr, a);
      AtMostTransitive(seen[k'].trace, v + [a], tr + [a]);
    }
  }

  ghost predicate DoneBefore<S(!new)>(c: Problem<S>, seen: map<NodeKey, Seen<S>>, w: Trace) {
    forall k | k in seen && Before(seen[k].trace, w) :: Done(c, seen, k)
  }

  lemma AtMostTransitive(u: Trace, v: Trace, w: Trace)
    requires AtMost(u, v) && AtMost(v, w)
    ensures AtMost(u, w)
  {
    hide Before;
    if u != v && v != w { Transitive(u, v, w); }
  }

  /** When all nodes before `w` are done, every explored trace up to `w` has been reached. */
  lemma {:induction false} ExploredIsReached<S(!new)>(c: Problem<S>, seen: map<NodeKey, Seen<S>>, w: Trace, tr: Trace)
    requires FiniteProblem(c) && Known(c, seen) && Reached(c, seen, [])
    requires DoneBefore(c, seen, w)
    requires ExploredTo(c, tr) && AtMost(tr, w)
    ensures Reached(c, seen, tr)
    decreases |tr|
  {
    if tr != [] {
      var n := |tr| - 1;
      var front, a := tr[..n], tr[n];
      assert tr == front + [a];
      ExploredFront(c, tr);
      Transitive(front, tr, w);
      ExploredIsReached(c, seen, w, front);
      var k := DoneNodeFor(c, seen, w, front);
      TracesVisible(c.impl, tr);
      DoneTransfers(c, seen, k, front, a);
    }
  }

  lemma DoneNodeFor<S(!new)>(c: Problem<S>, seen: map<NodeKey, Seen<S>>, w: Trace, tr: Trace) returns (k: NodeKey)
    requires DoneBefore(c, seen, w) && Reached(c, seen, tr) && Before(tr, w)
    ensures k in seen && At(c, seen[k].node, tr) && AtMost(seen[k].trace, tr) && Done(c, seen, k)
  {
    hide At, Done, Before;
    k :| k in seen && At(c, seen[k].node, tr) && AtMost(seen[k].trace, tr);
    Transitive(seen[k].trace, tr, w);
  }

  lemma ExploredFront<S(!new)>(c: Problem<S>, tr: Trace)
    requires ExploredTo(c, tr) && tr != []
    ensures ExploredTo(c, tr[..|tr| - 1]) && VerdictAt(c, tr[..|tr| - 1]) == Continue
  {
    var n := |tr| - 1;
    TracePrefix(c.impl, tr, n);
    TracePrefix(c.spec, tr, n);
    forall i | 0 <= i < n ensures VerdictAt(c, tr[..n][..i]) == Continue {
      assert tr[..n][..i] == tr[..i];
    }
  }

  /** In nodes before `w`, when those are done, no edge is unmatched. */
  lemma NoEdgeFaultBefore<S(!new)>(c: Problem<S>, seen: map<NodeKey, Seen<S>>, w: Trace, front: Trace, a: Label)
    requires FiniteProblem(c) && Known(c, seen) && Reached(c, seen, []) && DoneBefore(c, seen, w)
    requires ExploredTo(c, front) && VerdictAt(c, front) == Continue && a != TAU
    requires IsTrace(c.impl, front + [a]) && !IsTrace(c.spec, front + [a])
    ensures !Before(front, w)
  {
    if Before(front, w) {
      ExploredIsReached(c, seen, w, front);
      var k := DoneNodeFor(c, seen, w, front);
      DoneTransfers(c, seen, k, front, a);
    }
  }

  lemma FaultyEdge<S(!new)>(c: Problem<S>, tr: Trace) returns (front: Trace, a: Label)
    requires Fault(c.m, c.spec, c.impl, TraceMismatch, tr)
    ensures tr == front + [a] && a != TAU
    ensures ExploredTo(c, front) && VerdictAt(c, front) == Continue
    ensures IsTrace(c.impl, front + [a]) && !IsTrace(c.spec, front + [a])
  {
    var n := |tr| - 1;
    front, a := tr[..n], tr[n];
    assert front + [a] == tr;
    TracesVisible(c.impl, tr);
  }

  lemma NoNodeFaultBefore<S(!new)>(c: Problem<S>, seen: map<NodeKey, Seen<S>>, w: Trace, tr: Trace)
    requires FiniteProblem(c) && Known(c, seen) && Reached(c, seen, []) && DoneBefore(c, seen, w)
    requires ExploredTo(c, tr) && (VerdictAt(c, tr) == Refuses || VerdictAt(c, tr) == Diverges)
    ensures !Before(tr, w)
  {
    if Before(tr, w) {
      ExploredIsReached(c, seen, w, tr);
      var k := DoneNodeFor(c, seen, w, tr);
      DoneTransfers(c, seen, k, tr, "a");
    }
  }

  /** When all nodes before `w` are done, no fault is met at a node before `w`. */
  lemma NoFaultBefore<S(!new)>(c: Problem<S>, seen: map<NodeKey, Seen<S>>, w: Trace, kind: FailureKind, tr: Trace)
    requires FiniteProblem(c) && Known(c, seen) && Reached(c, seen, []) && DoneBefore(c, seen, w)
    requires Fault(c.m, c.spec, c.impl, kind, tr)
    ensures !Before(FaultNode(kind, tr), w)
  {
    hide Before, Known, Reached, DoneBefore, FiniteProblem;
    match kind {
      case TraceMismatch =>
        var front, a := FaultyEdge(c, tr);
        assert FaultNode(kind, tr) == front;
        NoEdgeFaultBefore(c, seen, w, front, a);
      case RefusalMismatch => NoNodeFaultBefore(c, seen, w, tr);
      case DivergenceMismatch => NoNodeFaultBefore(c, seen, w, tr);
    }
  }

  lemma DoneMeansFaultless<S(!new)>(c: Problem<S>, seen: map<NodeKey, Seen<S>>)
    requires FiniteProblem(c) && Known(c, seen) && Reached(c, seen, [])
    requires forall k | k in seen :: Done(c, seen, k)
    ensures Faultless(c.m, c.spec, c.impl)
  {
    hide Done, Known, Reached, FiniteProblem, Fault;
    forall kind, tr ensures !Fault(c.m, c.spec, c.impl, kind, tr) {
      if Fault(c.m, c.spec, c.impl, kind, tr) {
        NoFaultBefore(c, seen, FaultNode(kind, tr) + ["a"], kind, tr);
      }
    }
  }

  // ------------------------------------------------------------ termination

  ghost function StateSets<S>(n: Node<S>): (set<S>, set<S>) {
    (set s | s in n.implC.states, set s | s in n.specC.states)
  }

  ghost function Unseen<S>(c: Problem<S>, seen: map<NodeKey, Seen<S>>): set<(set<S>, set<S>)> {
    (set a, b | a <= c.ui && b <= c.us :: (a, b)) - set k | k in seen :: StateSets(seen[k].node)
  }

  lemma NewNodeShrinksUnseen<S(!new)>(c: Problem<S>, seen: map<NodeKey, Seen<S>>, n: Node<S>, tr: Trace)
    requires FiniteProblem(c) && Known(c, seen) && At(c, n, tr) && KeyOf(n) !in seen
    ensures Unseen(c, seen[KeyOf(n) := Seen(n, tr)]) < Unseen(c, seen)
  {
    var seen' := seen[KeyOf(n) := Seen(n, tr)];
    var p := StateSets(n);
    assert p.0 <= c.ui && p.1 <= c.us;
    forall k | k in seen ensures StateSets(seen[k].node) != p {
      if StateSets(seen[k].node) == p {
        forall s ensures s in After(c.impl, tr) <==> s in After(c.impl, seen[k].trace) {
          assert s in p.0 <==> s in n.implC.states;
          assert s in p.0 <==> s in seen[k].node.implC.states;
        }
        forall s ensures s in After(c.spec, tr) <==> s in After(c.spec, seen[k].trace) {
          assert s in p.1 <==> s in n.specC.states;
          assert s in p.1 <==> s in seen[k].node.specC.states;
        }
        SameNode(c, n, tr, seen[k].node, seen[k].trace);
      }
    }
    assert p in Unseen(c, seen);
    assert seen'[KeyOf(n)].node == n;
    assert p !in Unseen(c, seen');
    forall k | k in seen ensures k in seen' && seen'[k] == seen[k] {}
  }

  // ------------------------------------------------------------- node check

  method RefusalCheck<S(==,!new)>(spec: Lts<S>, impl: Lts<S>, implStates: seq<S>, specStates: seq<S>) returns (bad: bool)
    ensures bad <==> RefusesMore(spec, impl, MembersOf(implStates), MembersOf(specStates))
  {
    ghost var b := MembersOf(specStates);
    var specOffers := StableOfferSets(spec, specStates);
    for i := 0 to |implStates|
      invariant forall s | s in implStates[..i] && Stable(impl, s) :: !Unmatched(spec, b, Offers(impl, s))
    {
      var s := implStates[i];
      if Stable(impl, s) {
        var offer := Offers(impl, s);
        if forall o | o in specOffers :: !(o <= offer) {
          assert s in MembersOf(implStates) && Unmatched(spec, b, offer);
          return true;
        }
        assert !Unmatched(spec, b, offer);
      }
    }
    assert implStates[..|implStates|] == implStates;
    bad := false;
  }

  method StableOfferSets<S(==,!new)>(l: Lts<S>, states: seq<S>) returns (out: seq<set<Label>>)
    ensures forall t | t in states && Stable(l, t) :: Offers(l, t) in out
    ensures forall offer :: (forall o | o in out :: !(o <= offer)) <==> Unmatched(l, MembersOf(states), offer)
  {
    out := [];
    for i := 0 to |states|
      invariant forall t | t in states[..i] && Stable(l, t) :: Offers(l, t) in out
      invariant forall o | o in out :: exists t :: t in states && Stable(l, t) && Offers(l, t) == o
    {
      if Stable(l, states[i]) {
        out := out + [Offers(l, states[i])];
      }
    }
    assert states[..|states|] == states;
    forall offer ensures (forall o | o in out :: !(o <= offer)) <==> Unmatched(l, MembersOf(states), offer) {
      if Unmatched(l, MembersOf(states), offer) {
        forall o | o in out ensures !(o <= offer) {
          var t :| t in states && Stable(l, t) && Offers(l, t) == o;
          assert t in MembersOf(states);
        }
      }
    }
  }

  /** Whether an internal cycle runs through a closure, by the cache or directly. */
  method DetectTauCycle<S(==,!new)>(useCache: bool, side: Side, spec: Lts<S>, impl: Lts<S>, ghost us: set<S>, ghost ui: set<S>,
                                    c: Closure<S>, div: DivergenceCache<S>)
    returns (cyclic: bool)
    requires Finite(spec, us) && Finite(impl, ui) && div.Valid(spec, impl, us, ui)
    requires Proper(Pick(side, spec, impl), Pick(side, us, ui), c)
    modifies div
    ensures div.Valid(spec, impl, us, ui)
    ensures cyclic == HasTauCycle(Pick(side, spec, impl), StatesOf(c))
    ensures div.hits + div.misses == old(div.hits + div.misses) + if useCache then 1 else 0
  {
    if useCache {
      cyclic := div.DetectTauCycle(side, spec, impl, us, ui, c);
    } else {
      cyclic := ClosureCycle.ClosureHasTauCycle(Pick(side, spec, impl), c.states);
    }
  }

  method NodeCheck<S(==,!new)>(m: Model, useCache: bool, spec: Lts<S>, impl: Lts<S>, ghost us: set<S>, ghost ui: set<S>,
                               node: Node<S>, div: DivergenceCache<S>)
    returns (v: Verdict)
    requires Finite(spec, us) && Finite(impl, ui) && div.Valid(spec, impl, us, ui)
    requires Proper(impl, ui, node.implC) && Proper(spec, us, node.specC)
    modifies div
    ensures div.Valid(spec, impl, us, ui)
    ensures v == Judge(m, spec, impl, StatesOf(node.implC), StatesOf(node.specC))
    ensures div.hits + div.misses == old(div.hits + div.misses) + if m == FD && useCache then 2 else 0
  {
    if m == T {
      return Continue;
    }
    if m == FD {
      var specDiverges := DetectTauCycle(useCache, Side.Spec, spec, impl, us, ui, node.specC, div);
      var implDiverges := DetectTauCycle(useCache, Side.Impl, spec, impl, us, ui, node.implC, div);
      if implDiverges && !specDiverges {
        return Diverges;
      }
      if specDiverges {
        return Prune;
      }
    }
    var bad := RefusalCheck(spec, impl, node.implC.states, node.specC.states);
    v := if bad then Refuses else Continue;
  }

  // ------------------------------------------------------------- the search

  ghost predicate Search<S(!new)>(c: Problem<S>, seen: map<NodeKey, Seen<S>>, visited: set<NodeKey>,
                                  pred: map<NodeKey, (NodeKey, Label)>, queue: seq<Node<S>>)
  {
    && Known(c, seen)
    && Linked(seen, pred)
    && visited == seen.Keys
    && Queued(seen, queue)
    && Reached(c, seen, [])
  }

  /** The head of the queue comes after all nodes from which others were met. */
  ghost predicate HeadIsNext<S>(seen: map<NodeKey, Seen<S>>, queue: seq<Node<S>>) {
    queue != [] && KeyOf(queue[0]) in seen ==> MetBefore(seen, seen[KeyOf(queue[0])].trace)
  }

  lemma ExploredExtend<S(!new)>(c: Problem<S>, tr: Trace, a: Label)
    requires ExploredTo(c, tr) && VerdictAt(c, tr) == Continue
    requires IsTrace(c.impl, tr + [a]) && IsTrace(c.spec, tr + [a])
    ensures ExploredTo(c, tr + [a])
  {
    forall i | 0 <= i < |tr + [a]| ensures VerdictAt(c, (tr + [a])[..i]) == Continue {
      assert (tr + [a])[..i] == if i == |tr| then tr else tr[..i];
    }
  }

  lemma GrowKeepsReached<S(!new)>(c: Problem<S>, seen: map<NodeKey, Seen<S>>, n: Node<S>, tr: Trace, w: Trace)
    requires KeyOf(n) !in seen && Reached(c, seen, w)
    ensures Reached(c, seen[KeyOf(n) := Seen(n, tr)], w)
  {
    var seen' := seen[KeyOf(n) := Seen(n, tr)];
    var k :| k in seen && At(c, seen[k].node, w) && AtMost(seen[k].trace, w);
    assert k in seen' && seen'[k] == seen[k];
  }

  lemma GrowKeepsFollowed<S(!new)>(c: Problem<S>, seen: map<NodeKey, Seen<S>>, n: Node<S>, tr: Trace, w: Trace, a: Label)
    requires KeyOf(n) !in seen && Followed(c, seen, w, a)
    ensures Followed(c, seen[KeyOf(n) := Seen(n, tr)], w, a)
  {
    if IsTrace(c.impl, w + [a]) { GrowKeepsReached(c, seen, n, tr, w + [a]); }
  }

  lemma GrowKeepsDone<S(!new)>(c: Problem<S>, seen: map<NodeKey, Seen<S>>, n: Node<S>, tr: Trace, k: NodeKey)
    requires KeyOf(n) !in seen && k in seen && Done(c, seen, k)
    ensures Done(c, seen[KeyOf(n) := Seen(n, tr)], k)
  {
    var seen' := seen[KeyOf(n) := Seen(n, tr)];
    var w := seen[k].trace;
    if VerdictAt(c, w) == Continue {
      forall a | a != TAU ensures Followed(c, seen', w, a) {
        assert Followed(c, seen, w, a);
        GrowKeepsFollowed(c, seen, n, tr, w, a);
      }
    }
  }

  lemma GrowKnown<S(!new)>(c: Problem<S>, seen: map<NodeKey, Seen<S>>, n: Node<S>, tr: Trace)
    requires Known(c, seen) && At(c, n, tr) && ExploredTo(c, tr)
    ensures Known(c, seen[KeyOf(n) := Seen(n, tr)])
  {
    var seen' := seen[KeyOf(n) := Seen(n, tr)];
    forall k | k in seen'
      ensures KeyOf(seen'[k].node) == k && At(c, seen'[k].node, seen'[k].trace) && ExploredTo(c, seen'[k].trace)
    {
      if k != KeyOf(n) { assert seen'[k] == seen[k]; }
    }
  }

  lemma GrowLinked<S>(seen: map<NodeKey, Seen<S>>, pred: map<NodeKey, (NodeKey, Label)>, k: NodeKey, a: Label, n: Node<S>)
    requires Linked(seen, pred) && k in seen && KeyOf(n) !in seen
    ensures Linked(seen[KeyOf(n) := Seen(n, seen[k].trace + [a])], pred[KeyOf(n) := (k, a)])
  {}

  lemma GrowQueued<S>(seen: map<NodeKey, Seen<S>>, queue: seq<Node<S>>, n: Node<S>, v: Trace, a: Label)
    requires Queued(seen, queue) && MetFrom(seen, queue, v) && KeyOf(n) !in seen && AllBefore(seen, v + [a])
    ensures Queued(seen[KeyOf(n) := Seen(n, v + [a])], queue + [n])
    ensures MetFrom(seen[KeyOf(n) := Seen(n, v + [a])], queue + [n], v)
  {
    hide Lex;
    assert Front(v + [a]) == v;
  }

  lemma GrowAllBefore<S>(seen: map<NodeKey, Seen<S>>, n: Node<S>, v: Trace, a: Label, b: Label)
    requires AllBefore(seen, v + [b]) && Names.NameLess(a, b)
    ensures AllBefore(seen[KeyOf(n) := Seen(n, v + [a])], v + [b])
  {
    hide Before, Names.NameLess;
    Append(v, v, a, b);
  }

  /** Recording and queueing a new successor of the current node `k`. */
  lemma Grow<S(!new)>(c: Problem<S>, seen: map<NodeKey, Seen<S>>, visited: set<NodeKey>,
                      pred: map<NodeKey, (NodeKey, Label)>, queue: seq<Node<S>>, k: NodeKey, a: Label, n: Node<S>)
    requires FiniteProblem(c) && Search(c, seen, visited, pred, queue)
    requires k in seen && MetFrom(seen, queue, seen[k].trace) && AllBefore(seen, seen[k].trace + [a]) && KeyOf(n) !in seen
    requires At(c, n, seen[k].trace + [a]) && ExploredTo(c, seen[k].trace + [a])
    ensures Search(c, seen[KeyOf(n) := Seen(n, seen[k].trace + [a])], visited + {KeyOf(n)}, pred[KeyOf(n) := (k, a)], queue + [n])
    ensures MetFrom(seen[KeyOf(n) := Seen(n, seen[k].trace + [a])], queue + [n], seen[k].trace)
  {
    hide At, ExploredTo, FiniteProblem, Before, Queued, MetFrom, AllBefore;
    var tr := seen[k].trace + [a];
    GrowKeepsReached(c, seen, n, tr, []);
    GrowKnown(c, seen, n, tr);
    GrowLinked(seen, pred, k, a, n);
    GrowQueued(seen, queue, n, seen[k].trace, a);
    assert seen[KeyOf(n) := Seen(n, tr)].Keys == seen.Keys + {KeyOf(n)};
  }

  /** All met nodes are done except those pending and the current one. */
  ghost predicate OthersDone<S(!new)>(c: Problem<S>, seen: map<NodeKey, Seen<S>>, queue: seq<Node<S>>, k: NodeKey) {
    forall x | x in seen && !Pending(queue, x) && x != k :: Done(c, seen, x)
  }

  lemma GrowOthersDone<S(!new)>(c: Problem<S>, seen: map<NodeKey, Seen<S>>, queue: seq<Node<S>>, k: NodeKey, n: Node<S>, tr: Trace)
    requires OthersDone(c, seen, queue, k) && KeyOf(n) !in seen
    ensures OthersDone(c, seen[KeyOf(n) := Seen(n, tr)], queue + [n], k)
  {
    var seen', queue' := seen[KeyOf(n) := Seen(n, tr)], queue + [n];
    assert queue'[|queue|] == n;
    forall x | x in seen' && !Pending(queue', x) && x != k ensures Done(c, seen', x) {
      assert x != KeyOf(n);
      forall i | 0 <= i < |queue| ensures KeyOf(queue[i]) != x { assert queue'[i] == queue[i]; }
      GrowKeepsDone(c, seen, n, tr, x);
    }
  }

  lemma EnabledIsTrace<S(!new)>(l: Lts<S>, tr: Trace, a: Label)
    requires a != TAU
    ensures IsTrace(l, tr + [a]) <==> exists s :: s in After(l, tr) && a in Offers(l, s)
  {
    AfterStep(l, tr, a);
    NextNonempty(l, After(l, tr), a);
    if s, t :| s in After(l, tr) && Edge(l, s, a, t) { assert (a, t).0 in Offers(l, s); }
    if s :| s in After(l, tr) && a in Offers(l, s) {
      var e :| e in l.next(s) && e.0 == a;
      assert Edge(l, s, a, e.1);
    }
  }

  method EnabledVisibleLabels<S(==,!new)>(l: Lts<S>, states: seq<S>) returns (labels: set<Label>)
    ensures forall a :: a in labels <==> exists s :: s in MembersOf(states) && a in Offers(l, s)
  {
    labels := {};
    for i := 0 to |states|
      invariant forall a :: a in labels <==> exists s :: s in states[..i] && a in Offers(l, s)
    {
      assert states[..i + 1] == states[..i] + [states[i]];
      labels := labels + Offers(l, states[i]);
    }
    assert states[..|states|] == states;
    assert forall s :: s in MembersOf(states) <==> s in states;
  }

  method ReconstructTrace<S(!new)>(pred: map<NodeKey, (NodeKey, Label)>, to: NodeKey, ghost seen: map<NodeKey, Seen<S>>)
    returns (out: Trace)
    requires Linked(seen, pred) && to in seen
    ensures out == seen[to].trace
  {
    out := [];
    var cur := to;
    while cur in pred
      invariant cur in seen && seen[cur].trace + out == seen[to].trace
      decreases |seen[cur].trace|
    {
      var (prev, a) := pred[cur];
      assert seen[cur].trace == seen[prev].trace + [a];
      out := [a] + out;
      cur := prev;
    }
  }

  /** The reported events of a fault, with the "tau" that marks a divergence. */
  ghost predicate Reports<S(!new)>(c: Problem<S>, kind: FailureKind, events: Trace) {
    if kind == DivergenceMismatch then
      events != [] && events[|events| - 1] == TAU && Fault(c.m, c.spec, c.impl, kind, events[..|events| - 1])
    else
      Fault(c.m, c.spec, c.impl, kind, events)
  }

  /** The outcome that a run of the search must have: the first fault, if there is one. */
  ghost predicate IsOutcome<S(!new)>(m: Model, spec: Lts<S>, impl: Lts<S>, out: Outcome) {
    match out
    case Passes => Faultless(m, spec, impl)
    case Fails(kind, events) =>
      && (kind == DivergenceMismatch ==> events != [] && events[|events| - 1] == TAU)
      && FirstFault(m, spec, impl, kind, if kind == DivergenceMismatch then Front(events) else events)
  }

  /** The outcome is a function of the question. */
  lemma OutcomeUnique<S(!new)>(m: Model, spec: Lts<S>, impl: Lts<S>, out: Outcome, out': Outcome)
    requires IsOutcome(m, spec, impl, out) && IsOutcome(m, spec, impl, out')
    ensures out == out'
  {
    hide Fault, Sooner;
    if out.Fails? { FailsOnFault(m, spec, impl, out); }
    if out'.Fails? { FailsOnFault(m, spec, impl, out'); }
    if out.Fails? && out'.Fails? {
      var v := if out.kind == DivergenceMismatch then Front(out.trace) else out.trace;
      var w := if out'.kind == DivergenceMismatch then Front(out'.trace) else out'.trace;
      FirstFaultUnique(m, spec, impl, out.kind, v, out'.kind, w);
      if out.kind == DivergenceMismatch { assert out.trace == Front(out.trace) + [TAU] && out'.trace == Front(out'.trace) + [TAU]; }
    }
  }

  lemma FailsOnFault<S(!new)>(m: Model, spec: Lts<S>, impl: Lts<S>, out: Outcome)
    requires out.Fails? && IsOutcome(m, spec, impl, out)
    ensures !Faultless(m, spec, impl)
  {
    hide Fault, Sooner;
  }

  ghost function OutcomeOf<S(!new)>(m: Model, spec: Lts<S>, impl: Lts<S>): (out: Outcome)
    requires exists o :: IsOutcome(m, spec, impl, o)
    ensures IsOutcome(m, spec, impl, out)
  {
    var o :| IsOutcome(m, spec, impl, o); o
  }

  /** The current node: unpruned, with all other met nodes done or queued behind it. */
  ghost predicate Current<S(!new)>(c: Problem<S>, seen: map<NodeKey, Seen<S>>, queue: seq<Node<S>>, node: Node<S>, tr: Trace) {
    && KeyOf(node) in seen && seen[KeyOf(node)] == Seen(node, tr)
    && VerdictAt(c, tr) == Continue
    && MetFrom(seen, queue, tr)
    && OthersDone(c, seen, queue, KeyOf(node))
  }

  /** Follows one edge: unless the specification has no match, the successor is
      met, being recorded and queued when it is new. */
  method FollowEdge<S(==,!new)>(ghost c: Problem<S>, node: Node<S>, a: Label, next: Node<S>,
                                visited: set<NodeKey>, pred: map<NodeKey, (NodeKey, Label)>, queue: seq<Node<S>>,
                                ghost seen: map<NodeKey, Seen<S>>, ghost tr: Trace)
    returns (visited': set<NodeKey>, pred': map<NodeKey, (NodeKey, Label)>, queue': seq<Node<S>>, ghost seen': map<NodeKey, Seen<S>>)
    requires FiniteProblem(c) && Search(c, seen, visited, pred, queue) && Current(c, seen, queue, node, tr)
    requires At(c, next, tr + [a]) && IsTrace(c.impl, tr + [a]) && IsTrace(c.spec, tr + [a]) && AllBefore(seen, tr + [a])
    ensures Search(c, seen', visited', pred', queue') && Current(c, seen', queue', node, tr)
    ensures visited' == visited + {KeyOf(next)}
    ensures Followed(c, seen', tr, a)
    ensures forall b | Followed(c, seen, tr, b) :: Followed(c, seen', tr, b)
    ensures forall b | Names.NameLess(a, b) && AllBefore(seen, tr + [b]) :: AllBefore(seen', tr + [b])
    ensures (seen' == seen && queue' == queue) || Unseen(c, seen') < Unseen(c, seen)
  {
    hide Before, At, Unseen, Names.NameLess, AllBefore, MetFrom, Followed;
    visited', pred', queue', seen' := visited, pred, queue, seen;
    ExploredExtend(c, tr, a);
    if KeyOf(next) !in visited {
      Grow(c, seen, visited, pred, queue, KeyOf(node), a, next);
      GrowOthersDone(c, seen, queue, KeyOf(node), next, tr + [a]);
      NewNodeShrinksUnseen(c, seen, next, tr + [a]);
      forall b | Followed(c, seen, tr, b) ensures Followed(c, seen[KeyOf(next) := Seen(next, tr + [a])], tr, b) {
        GrowKeepsFollowed(c, seen, next, tr + [a], tr, b);
      }
      forall b | Names.NameLess(a, b) && AllBefore(seen, tr + [b])
        ensures AllBefore(seen[KeyOf(next) := Seen(next, tr + [a])], tr + [b])
      {
        GrowAllBefore(seen, next, tr, a, b);
      }
      seen' := seen[KeyOf(next) := Seen(next, tr + [a])];
      visited', pred', queue' := visited + {KeyOf(next)}, pred[KeyOf(next) := (KeyOf(node), a)], queue + [next];
      NewIsReached(c, seen', next, tr + [a]);
    } else {
      OldIsReached(c, seen, next, tr, a);
    }
    ReachedIsFollowed(c, seen', tr, a);
  }

  lemma NewIsReached<S(!new)>(c: Problem<S>, seen: map<NodeKey, Seen<S>>, next: Node<S>, tr: Trace)
    requires KeyOf(next) in seen && seen[KeyOf(next)] == Seen(next, tr) && At(c, next, tr)
    ensures Reached(c, seen, tr)
  {}

  lemma OldIsReached<S(!new)>(c: Problem<S>, seen: map<NodeKey, Seen<S>>, next: Node<S>, tr: Trace, a: Label)
    requires FiniteProblem(c) && Known(c, seen) && KeyOf(next) in seen && At(c, next, tr + [a]) && AllBefore(seen, tr + [a])
    ensures Reached(c, seen, tr + [a])
  {
    hide Before;
    SameNode(c, next, tr + [a], seen[KeyOf(next)].node, seen[KeyOf(next)].trace);
  }

  lemma ReachedIsFollowed<S(!new)>(c: Problem<S>, seen: map<NodeKey, Seen<S>>, tr: Trace, a: Label)
    requires IsTrace(c.spec, tr + [a]) && Reached(c, seen, tr + [a])
    ensures Followed(c, seen, tr, a)
  {}

  lemma NoEdgeFollowed<S(!new)>(c: Problem<S>, seen: map<NodeKey, Seen<S>>, tr: Trace, a: Label)
    ensures !IsTrace(c.impl, tr + [a]) ==> Followed(c, seen, tr, a)
  {}

  lemma CurrentAt<S(!new)>(c: Problem<S>, seen: map<NodeKey, Seen<S>>, visited: set<NodeKey>,
                           pred: map<NodeKey, (NodeKey, Label)>, queue: seq<Node<S>>, node: Node<S>, tr: Trace)
    requires Search(c, seen, visited, pred, queue) && Current(c, seen, queue, node, tr)
    ensures At(c, node, tr) && StatesOf(node.implC) == After(c.impl, tr) && StatesOf(node.specC) == After(c.spec, tr)
  {}

  /** Before the first edge of a node is followed, every edge is still to come. */
  lemma EdgesToCome<S>(seen: map<NodeKey, Seen<S>>, tr: Trace, a: Label)
    requires MetBefore(seen, tr)
    ensures AllBefore(seen, tr + [a])
  {
    hide Lex, Names.NameLess;
    forall k | k in seen ensures Before(seen[k].trace, tr + [a]) {
      var w := seen[k].trace;
      if w != [] {
        assert w == Front(w) + [w[|w| - 1]];
        Append(Front(w), tr, w[|w| - 1], a);
      }
    }
  }

  /** The edges of a node before one that is unmatched are all followed. */
  ghost predicate FollowedBefore<S(!new)>(c: Problem<S>, seen: map<NodeKey, Seen<S>>, tr: Trace, a: Label) {
    forall b | b != TAU && Names.NameLess(b, a) :: Followed(c, seen, tr, b)
  }

  /** The edges from the `i`-th label on are still to come; the others are followed. */
  ghost predicate EdgesLeft<S(!new)>(c: Problem<S>, seen: map<NodeKey, Seen<S>>, tr: Trace, labels: seq<Label>, i: nat) {
    && i <= |labels|
    && (forall j | i <= j < |labels| :: AllBefore(seen, tr + [labels[j]]))
    && (forall a | a != TAU && a !in labels[i..] :: Followed(c, seen, tr, a))
  }

  lemma EdgesStart<S(!new)>(c: Problem<S>, seen: map<NodeKey, Seen<S>>, tr: Trace, enabled: set<Label>, labels: seq<Label>)
    requires MetBefore(seen, tr) && forall a :: a in labels <==> a in enabled
    requires forall a :: a in enabled <==> exists s :: s in After(c.impl, tr) && a in Offers(c.impl, s)
    ensures EdgesLeft(c, seen, tr, labels, 0) && forall a | a in labels :: a != TAU && IsTrace(c.impl, tr + [a])
  {
    hide IsTrace, AllBefore, Followed, MetBefore;
    forall a | a != TAU ensures a in enabled <==> IsTrace(c.impl, tr + [a])
                        ensures a !in enabled ==> Followed(c, seen, tr, a) {
      EnabledIsTrace(c.impl, tr, a);
      NoEdgeFollowed(c, seen, tr, a);
    }
    forall a ensures AllBefore(seen, tr + [a]) { EdgesToCome(seen, tr, a); }
    assert labels[0..] == labels;
  }

  lemma EdgesNext<S(!new)>(c: Problem<S>, seen: map<NodeKey, Seen<S>>, seen': map<NodeKey, Seen<S>>, tr: Trace, enabled: set<Label>, i: nat)
    requires EdgesLeft(c, seen, tr, Names.Sorted(enabled), i) && i < |Names.Sorted(enabled)|
    requires Followed(c, seen', tr, Names.Sorted(enabled)[i])
    requires forall b | Followed(c, seen, tr, b) :: Followed(c, seen', tr, b)
    requires forall b | Names.NameLess(Names.Sorted(enabled)[i], b) && AllBefore(seen, tr + [b]) :: AllBefore(seen', tr + [b])
    ensures EdgesLeft(c, seen', tr, Names.Sorted(enabled), i + 1)
  {
    hide Followed, Names.Sorted, Names.NameLess, AllBefore;
    var labels := Names.Sorted(enabled);
    assert labels[i..] == [labels[i]] + labels[i + 1..];
    forall j | i < j < |labels| ensures AllBefore(seen', tr + [labels[j]]) { Names.SortedAscends(enabled, i, j); }
  }

  lemma EarlierLabelsFollowed<S(!new)>(c: Problem<S>, seen: map<NodeKey, Seen<S>>, tr: Trace, enabled: set<Label>, i: nat)
    requires EdgesLeft(c, seen, tr, Names.Sorted(enabled), i) && i < |Names.Sorted(enabled)|
    ensures FollowedBefore(c, seen, tr, Names.Sorted(enabled)[i])
  {
    hide Followed, Names.Sorted, Names.NameLess, AllBefore;
    var sorted := Names.Sorted(enabled);
    forall b | b != TAU && Names.NameLess(b, sorted[i]) ensures Followed(c, seen, tr, b) {
      if b in sorted[i..] {
        var j :| 0 <= j < |sorted[i..]| && sorted[i..][j] == b;
        Names.NamesCompare(b, sorted[i]);
        if j > 0 { Names.SortedAscends(enabled, i, i + j); }
      }
    }
  }

  lemma EdgesDone<S(!new)>(c: Problem<S>, seen: map<NodeKey, Seen<S>>, queue: seq<Node<S>>, node: Node<S>, tr: Trace, labels: seq<Label>)
    requires Current(c, seen, queue, node, tr) && EdgesLeft(c, seen, tr, labels, |labels|)
    ensures KeyOf(node) in seen && Done(c, seen, KeyOf(node))
  {
    assert labels[|labels|..] == [];
  }

  /** Follows every visible edge of the current node, in order of the labels; an
      edge the specification cannot follow is returned at once. */
  method FollowEdges<S(==,!new)>(ghost c: Problem<S>, spec: Lts<S>, impl: Lts<S>, useCache: bool, cache: NextClosureCache<S>, node: Node<S>,
                                 visited: set<NodeKey>, pred: map<NodeKey, (NodeKey, Label)>, queue: seq<Node<S>>,
                                 ghost seen: map<NodeKey, Seen<S>>, ghost tr: Trace)
    returns (unmatched: Option<Label>, visited': set<NodeKey>, pred': map<NodeKey, (NodeKey, Label)>, queue': seq<Node<S>>,
             ghost seen': map<NodeKey, Seen<S>>)
    requires c.spec == spec && c.impl == impl && FiniteProblem(c) && cache.Valid(spec, impl, c.us, c.ui)
    requires Search(c, seen, visited, pred, queue) && Current(c, seen, queue, node, tr) && MetBefore(seen, tr)
    modifies cache
    ensures cache.Valid(spec, impl, c.us, c.ui)
    ensures unmatched.Some? ==>
              && unmatched.value != TAU && IsTrace(impl, tr + [unmatched.value]) && !IsTrace(spec, tr + [unmatched.value])
              && FollowedBefore(c, seen', tr, unmatched.value)
    ensures Search(c, seen', visited', pred', queue') && Current(c, seen', queue', node, tr)
    ensures unmatched.None? ==> Done(c, seen', KeyOf(node))
    ensures unmatched.None? ==> (seen' == seen && queue' == queue) || Unseen(c, seen') < Unseen(c, seen)
  {
    hide IsTrace, Search, Current, Done, Followed, Unseen, EdgesLeft, MetBefore, FollowedBefore, At, Names.Sorted, Names.NameLess, AllBefore;
    unmatched, visited', pred', queue', seen' := None, visited, pred, queue, seen;
    var enabled := EnabledVisibleLabels(impl, node.implC.states);
    CurrentAt(c, seen, visited, pred, queue, node, tr);
    var labels := Names.Sorted(enabled);
    EdgesStart(c, seen, tr, enabled, labels);
    for i := 0 to |labels|
      invariant cache.Valid(spec, impl, c.us, c.ui)
      invariant Search(c, seen', visited', pred', queue') && Current(c, seen', queue', node, tr)
      invariant EdgesLeft(c, seen', tr, labels, i)
      invariant (seen' == seen && queue' == queue) || Unseen(c, seen') < Unseen(c, seen)
    {
      var a := labels[i];
      assert a in labels;
      var implNext, specNext := NextClosures(c, spec, impl, useCache, cache, node, a, tr);
      if specNext.states == [] {
        EarlierLabelsFollowed(c, seen', tr, enabled, i);
        unmatched := Some(a);
        return;
      }
      EdgeIsNext(c, seen', tr, labels, i);
      ghost var before := seen';
      visited', pred', queue', seen' :=
        FollowEdge(c, node, a, Node(implNext, specNext), visited', pred', queue', seen', tr);
      EdgesNext(c, before, seen', tr, enabled, i);
    }
    EdgesDone(c, seen', queue', node, tr, labels);
  }

  lemma EdgeIsNext<S(!new)>(c: Problem<S>, seen: map<NodeKey, Seen<S>>, tr: Trace, labels: seq<Label>, i: nat)
    requires EdgesLeft(c, seen, tr, labels, i) && i < |labels|
    ensures AllBefore(seen, tr + [labels[i]])
  {}

  method NextClosures<S(==,!new)>(ghost c: Problem<S>, spec: Lts<S>, impl: Lts<S>, useCache: bool, cache: NextClosureCache<S>, node: Node<S>,
                                  a: Label, ghost tr: Trace)
    returns (implNext: Closure<S>, specNext: Closure<S>)
    requires c.spec == spec && c.impl == impl && FiniteProblem(c) && cache.Valid(spec, impl, c.us, c.ui)
    requires At(c, node, tr) && a != TAU
    modifies cache
    ensures cache.Valid(spec, impl, c.us, c.ui)
    ensures At(c, Node(implNext, specNext), tr + [a])
    ensures specNext.states == [] <==> !IsTrace(spec, tr + [a])
  {
    assert StatesOf(node.implC) == After(impl, tr) && StatesOf(node.specC) == After(spec, tr);
    AfterStep(impl, tr, a);
    AfterStep(spec, tr, a);
    if useCache {
      implNext := cache.NextByLabel(Side.Impl, spec, impl, c.us, c.ui, node.implC, a);
      specNext := cache.NextByLabel(Side.Spec, spec, impl, c.us, c.ui, node.specC, a);
    } else {
      implNext := ComputeNext(impl, c.ui, node.implC.states, a);
      specNext := ComputeNext(spec, c.us, node.specC.states, a);
    }
    if specNext.states != [] { assert specNext.states[0] in After(spec, tr + [a]); }
  }

  /** The search. With or without the caches its outcome is the first fault. */
  method BfsRefinement<S(==,!new)>(m: Model, spec: Lts<S>, impl: Lts<S>, ghost us: set<S>, ghost ui: set<S>,
                                   useCache: bool, cache: NextClosureCache<S>, div: DivergenceCache<S>)
    returns (out: Outcome, checks: nat)
    requires Finite(spec, us) && Finite(impl, ui)
    requires cache.Valid(spec, impl, us, ui) && div.Valid(spec, impl, us, ui)
    modifies cache, div
    ensures IsOutcome(m, spec, impl, out) && out == OutcomeOf(m, spec, impl)
    ensures div.hits + div.misses == old(div.hits + div.misses) + if useCache then checks else 0
    ensures m != FD ==> checks == 0
  {
    hide Search, DoneExcept, OthersDone, At, Faultless, FirstFault, Done, Explored, JudgeAt, HeadIsNext, MetBefore, MetFrom;
    ghost var c := Problem(m, spec, impl, us, ui);
    var start := StartNode(c, spec, impl);
    var visited := {KeyOf(start)};
    var pred: map<NodeKey, (NodeKey, Label)> := map[];
    var queue := [start];
    checks := 0;
    ghost var seen := map[KeyOf(start) := Seen(start, [])];
    StartSearch(c, start);

    while queue != []
      invariant cache.Valid(spec, impl, us, ui) && div.Valid(spec, impl, us, ui)
      invariant Search(c, seen, visited, pred, queue) && DoneExcept(c, seen, queue) && HeadIsNext(seen, queue)
      invariant div.hits + div.misses == old(div.hits + div.misses) + (if useCache then checks else 0) && (m != FD ==> checks == 0)
      decreases Unseen(c, seen), |queue|
    {
      var node := queue[0];
      ghost var tr := Dequeue(c, seen, visited, pred, queue);
      queue := queue[1..];
      var v := NodeCheck(m, useCache, spec, impl, us, ui, node, div);
      checks := checks + if m == FD then 2 else 0;
      assert v == VerdictAt(c, tr) by { AtStates(c, node, tr); }
      if v == Refuses || v == Diverges {
        var events := ReconstructTrace(pred, KeyOf(node), seen);
        NodeFault(c, seen, visited, pred, queue, node, tr);
        out := if v == Refuses then Fails(RefusalMismatch, events) else Fails(DivergenceMismatch, events + [TAU]);
        OutcomeFound(m, spec, impl, out);
        return;
      }
      if v == Prune {
        FinishCurrent(c, seen, queue, node);
        NextHead(seen, queue, tr);
        continue;
      }
      var unmatched, visited', pred', queue';
      ghost var seen';
      unmatched, visited', pred', queue', seen' :=
        FollowEdges(c, spec, impl, useCache, cache, node, visited, pred, queue, seen, tr);
      if unmatched.Some? {
        EdgeFault(c, seen', visited', pred', queue', node, tr, unmatched.value);
        var events := ReconstructTrace(pred', KeyOf(node), seen');
        out := Fails(TraceMismatch, events + [unmatched.value]);
        OutcomeFound(m, spec, impl, out);
        return;
      }
      FinishCurrent(c, seen', queue', node);
      NextHead(seen', queue', tr);
      visited, pred, queue, seen := visited', pred', queue', seen';
    }
    SearchDone(c, seen, visited, pred);
    out := Passes;
    OutcomeFound(m, spec, impl, out);
  }

  lemma OutcomeFound<S(!new)>(m: Model, spec: Lts<S>, impl: Lts<S>, out: Outcome)
    requires IsOutcome(m, spec, impl, out)
    ensures (exists o :: IsOutcome(m, spec, impl, o)) && out == OutcomeOf(m, spec, impl)
  {
    hide IsOutcome;
    OutcomeUnique(m, spec, impl, out, OutcomeOf(m, spec, impl));
  }

  lemma DoneBeforeCurrent<S(!new)>(c: Problem<S>, seen: map<NodeKey, Seen<S>>, queue: seq<Node<S>>, k: NodeKey, tr: Trace)
    requires k in seen && seen[k].trace == tr && MetFrom(seen, queue, tr) && OthersDone(c, seen, queue, k)
    ensures DoneBefore(c, seen, tr)
  {
    hide Before, Done;
    forall x | x in seen && Before(seen[x].trace, tr) ensures Done(c, seen, x) {
      Compare(tr, tr);
      forall i | 0 <= i < |queue| ensures KeyOf(queue[i]) != x { Compare(tr, seen[KeyOf(queue[i])].trace); }
    }
  }

  /** A failed check of the node at the head is the first fault. */
  lemma NodeFault<S(!new)>(c: Problem<S>, seen: map<NodeKey, Seen<S>>, visited: set<NodeKey>,
                           pred: map<NodeKey, (NodeKey, Label)>, queue: seq<Node<S>>, node: Node<S>, tr: Trace)
    requires FiniteProblem(c) && Search(c, seen, visited, pred, queue) && KeyOf(node) in seen && seen[KeyOf(node)] == Seen(node, tr)
    requires ExploredTo(c, tr) && MetFrom(seen, queue, tr) && OthersDone(c, seen, queue, KeyOf(node))
    ensures VerdictAt(c, tr) == Refuses ==> IsOutcome(c.m, c.spec, c.impl, Fails(RefusalMismatch, tr))
    ensures VerdictAt(c, tr) == Diverges ==> IsOutcome(c.m, c.spec, c.impl, Fails(DivergenceMismatch, tr + [TAU]))
  {
    hide Before, Explored, JudgeAt, FiniteProblem, Known, Reached, Linked, Queued, MetFrom, OthersDone;
    DoneBeforeCurrent(c, seen, queue, KeyOf(node), tr);
    hide DoneBefore;
    assert Front(tr + [TAU]) == tr;
    var kind := if VerdictAt(c, tr) == Refuses then RefusalMismatch else DivergenceMismatch;
    if VerdictAt(c, tr) == Refuses || VerdictAt(c, tr) == Diverges {
      forall k, w | Fault(c.m, c.spec, c.impl, k, w) ensures (k == kind && w == tr) || Sooner(kind, tr, k, w) {
        NoFaultBefore(c, seen, tr, k, w);
        Compare(FaultNode(k, w), tr);
      }
      assert FirstFault(c.m, c.spec, c.impl, kind, tr);
    }
  }

  lemma FinishCurrent<S(!new)>(c: Problem<S>, seen: map<NodeKey, Seen<S>>, queue: seq<Node<S>>, node: Node<S>)
    requires OthersDone(c, seen, queue, KeyOf(node)) && KeyOf(node) in seen
    requires Done(c, seen, KeyOf(node)) || VerdictAt(c, seen[KeyOf(node)].trace) == Prune
    ensures DoneExcept(c, seen, queue)
  {}

  lemma NextHead<S>(seen: map<NodeKey, Seen<S>>, queue: seq<Node<S>>, tr: Trace)
    requires MetFrom(seen, queue, tr)
    ensures HeadIsNext(seen, queue)
  {
    hide Before;
    if queue != [] {
      forall k | k in seen && seen[k].trace != [] ensures Before(Front(seen[k].trace), seen[KeyOf(queue[0])].trace) {
        Transitive(Front(seen[k].trace), tr, seen[KeyOf(queue[0])].trace);
      }
    }
  }

  lemma SearchDone<S(!new)>(c: Problem<S>, seen: map<NodeKey, Seen<S>>, visited: set<NodeKey>,
                            pred: map<NodeKey, (NodeKey, Label)>)
    requires FiniteProblem(c) && Search(c, seen, visited, pred, []) && DoneExcept(c, seen, [])
    ensures Faultless(c.m, c.spec, c.impl)
  {
    forall k | k in seen ensures Done(c, seen, k) {
      assert !Pending<S>([], k);
    }
    DoneMeansFaultless(c, seen);
  }

  method StartNode<S(==,!new)>(ghost c: Problem<S>, spec: Lts<S>, impl: Lts<S>) returns (start: Node<S>)
    requires c.spec == spec && c.impl == impl && FiniteProblem(c)
    ensures At(c, start, [])
  {
    var impl0 := ComputeTauClosure(impl, c.ui, [impl.init]);
    var spec0 := ComputeTauClosure(spec, c.us, [spec.init]);
    assert MembersOf([impl.init]) == iset{impl.init} && MembersOf([spec.init]) == iset{spec.init};
    AfterEmpty(impl);
    AfterEmpty(spec);
    start := Node(impl0, spec0);
  }

  lemma StartSearch<S(!new)>(c: Problem<S>, start: Node<S>)
    requires At(c, start, [])
    ensures var seen := map[KeyOf(start) := Seen(start, [])];
            Search(c, seen, {KeyOf(start)}, map[], [start]) && DoneExcept(c, seen, [start]) && HeadIsNext(seen, [start])
  {
    EmptyTrace(c.impl);
    EmptyTrace(c.spec);
    var seen := map[KeyOf(start) := Seen(start, [])];
    assert At(c, seen[KeyOf(start)].node, []);
    assert [start][0] == start;
    assert Pending([start], KeyOf(start));
  }

  lemma AtStates<S(!new)>(c: Problem<S>, n: Node<S>, tr: Trace)
    requires At(c, n, tr)
    ensures StatesOf(n.implC) == After(c.impl, tr) && StatesOf(n.specC) == After(c.spec, tr)
    ensures Proper(c.impl, c.ui, n.implC) && Proper(c.spec, c.us, n.specC)
    ensures Judge(c.m, c.spec, c.impl, StatesOf(n.implC), StatesOf(n.specC)) == VerdictAt(c, tr)
  {}

  lemma Dequeue<S(!new)>(c: Problem<S>, seen: map<NodeKey, Seen<S>>, visited: set<NodeKey>,
                         pred: map<NodeKey, (NodeKey, Label)>, queue: seq<Node<S>>)
    returns (tr: Trace)
    requires Search(c, seen, visited, pred, queue) && DoneExcept(c, seen, queue) && HeadIsNext(seen, queue) && queue != []
    ensures KeyOf(queue[0]) in seen && seen[KeyOf(queue[0])] == Seen(queue[0], tr)
    ensures At(c, queue[0], tr) && ExploredTo(c, tr) && Linked(seen, pred)
    ensures Proper(c.impl, c.ui, queue[0].implC) && Proper(c.spec, c.us, queue[0].specC)
    ensures Search(c, seen, visited, pred, queue[1..]) && MetBefore(seen, tr) && MetFrom(seen, queue[1..], tr)
    ensures OthersDone(c, seen, queue[1..], KeyOf(queue[0]))
  {
    hide Before, At, Done, Proper, Reached, ExploredTo;
    tr := seen[KeyOf(queue[0])].trace;
    AtStates(c, queue[0], tr);
    DequeueOthers(c, seen, queue);
    hide DoneExcept, OthersDone;
    TailQueued(seen, queue);
  }

  lemma DequeueOthers<S(!new)>(c: Problem<S>, seen: map<NodeKey, Seen<S>>, queue: seq<Node<S>>)
    requires DoneExcept(c, seen, queue) && queue != []
    ensures OthersDone(c, seen, queue[1..], KeyOf(queue[0]))
  {
    hide Done;
    forall x | x in seen && !Pending(queue[1..], x) && x != KeyOf(queue[0]) ensures Done(c, seen, x) {
      forall i | 0 < i < |queue| ensures KeyOf(queue[i]) != x { assert queue[1..][i - 1] == queue[i]; }
    }
  }

  lemma TailQueued<S>(seen: map<NodeKey, Seen<S>>, queue: seq<Node<S>>)
    requires queue != [] && Queued(seen, queue) && HeadIsNext(seen, queue)
    ensures Queued(seen, queue[1..]) && MetBefore(seen, seen[KeyOf(queue[0])].trace) && MetFrom(seen, queue[1..], seen[KeyOf(queue[0])].trace)
  {
    hide Before;
  }

  /** An unmatched edge of the current node, the edges before which are followed, is
      the first fault. */
  lemma EdgeFault<S(!new)>(c: Problem<S>, seen: map<NodeKey, Seen<S>>, visited: set<NodeKey>,
                           pred: map<NodeKey, (NodeKey, Label)>, queue: seq<Node<S>>, node: Node<S>, tr: Trace, a: Label)
    requires FiniteProblem(c) && Search(c, seen, visited, pred, queue) && Current(c, seen, queue, node, tr)
    requires a != TAU && IsTrace(c.impl, tr + [a]) && !IsTrace(c.spec, tr + [a]) && FollowedBefore(c, seen, tr, a)
    ensures Linked(seen, pred)
    ensures IsOutcome(c.m, c.spec, c.impl, Fails(TraceMismatch, tr + [a]))
  {
    hide Before, IsTrace, Reached, FiniteProblem, Queued, MetFrom, OthersDone, Names.NameLess, At;
    DoneBeforeCurrent(c, seen, queue, KeyOf(node), tr);
    hide DoneBefore;
    var events := tr + [a];
    assert events[..|events| - 1] == tr && events[|events| - 1] == a;
    assert ExploredTo(c, tr);
    hide Explored, JudgeAt;
    assert Fault(c.m, c.spec, c.impl, TraceMismatch, events);
    forall k, w | Fault(c.m, c.spec, c.impl, k, w) ensures (k == TraceMismatch && w == events) || Sooner(TraceMismatch, events, k, w) {
      NoFaultBefore(c, seen, tr, k, w);
      Compare(FaultNode(k, w), tr);
      if FaultNode(k, w) == tr && k == TraceMismatch {
        var front, b := FaultyEdge(c, w);
        assert front == tr;
        Names.NamesCompare(a, b);
        assert Names.NameLess(b, a) ==> Followed(c, seen, tr, b);
      }
    }
  }
}
