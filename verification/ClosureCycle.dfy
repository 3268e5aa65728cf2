/** The three-colour depth-first search for a cycle of internal actions among
    the states of a closure. */
module ClosureCycle {
  import opened Lts
  import opened Closures
  import opened Graphs

  datatype Color = White | Gray | Black

  datatype Frame = Frame(node: nat, neighbors: seq<nat>, cursor: nat)

  // ------------------------------------------------------------ index graph

  /** `index` sends each listed state to a position holding it. */
  ghost predicate Indexes<S(!new)>(states: seq<S>, index: map<S, nat>) {
    && (forall s :: s in states <==> s in index)
    && (forall s | s in index :: index[s] < |states| && states[index[s]] == s)
  }

  /** Positions of the internal successors that are listed. */
  function Neighbors<S(==)>(next: seq<(Label, S)>, index: map<S, nat>): seq<nat> {
    if next == [] then []
    else
      var e := next[0];
      (if e.0 == TAU && e.1 in index then [index[e.1]] else []) + Neighbors(next[1..], index)
  }

  lemma {:induction false} NeighborsMembers<S(!new)>(next: seq<(Label, S)>, index: map<S, nat>, w: nat)
    ensures w in Neighbors(next, index) <==> exists e :: e in next && e.0 == TAU && e.1 in index && index[e.1] == w
  {
    if next != [] {
      NeighborsMembers(next[1..], index, w);
      assert next == [next[0]] + next[1..];
      assert forall e :: e in next <==> e == next[0] || e in next[1..];
    }
  }

  ghost function TauGraph<S>(l: Lts<S>, states: seq<S>, index: map<S, nat>): Graph {
    seq(|states|, (i: nat) requires i < |states| => Neighbors(l.next(states[i]), index))
  }

  lemma TauGraphEdges<S(!new)>(l: Lts<S>, states: seq<S>, index: map<S, nat>)
    requires Indexes(states, index)
    ensures var g := TauGraph(l, states, index);
            && |g| == |states| && WellFormed(g)
            && (forall v, w | 0 <= v < |g| && w in g[v] :: Edge(l, states[v], TAU, states[w]))
            && (forall v, t | 0 <= v < |g| && t in index && Edge(l, states[v], TAU, t) :: index[t] in g[v])
  {
    var g := TauGraph(l, states, index);
    forall v, w | 0 <= v < |g| && w in g[v] ensures w < |states| && Edge(l, states[v], TAU, states[w]) {
      NeighborsMembers(l.next(states[v]), index, w);
    }
    forall v, w | 0 <= v < |g| && w in g[v] ensures w < |g| {
      NeighborsMembers(l.next(states[v]), index, w);
    }
    forall v, t | 0 <= v < |g| && t in index && Edge(l, states[v], TAU, t) ensures index[t] in g[v] {
      NeighborsMembers(l.next(states[v]), index, index[t]);
      assert (TAU, t) in l.next(states[v]) && (TAU, t).1 == t;
    }
  }

  lemma IndexCycle<S(!new)>(l: Lts<S>, states: seq<S>, index: map<S, nat>, p: seq<nat>)
    requires Indexes(states, index) && IsCycle(TauGraph(l, states, index), p)
    ensures HasTauCycle(l, MembersOf(states))
    ensures p[0] < |states| && exists q :: TauCycleIn(l, MembersOf(states), q) && q[0] == states[p[0]]
  {
    var g := TauGraph(l, states, index);
    TauGraphEdges(l, states, index);
    hide Indexes, TauGraph;
    var q := seq(|p|, (i: nat) requires i < |p| => states[p[i]]);
    assert TauCycleIn(l, MembersOf(states), q);
  }

  lemma StateCycle<S(!new)>(l: Lts<S>, states: seq<S>, index: map<S, nat>, q: seq<S>)
    requires Indexes(states, index) && TauCycleIn(l, MembersOf(states), q)
    ensures Cyclic(TauGraph(l, states, index)) && q[0] in index && OnCycle(TauGraph(l, states, index), index[q[0]])
  {
    var g := TauGraph(l, states, index);
    TauGraphEdges(l, states, index);
    forall i | 0 <= i < |q| ensures q[i] in index && index[q[i]] < |g| && states[index[q[i]]] == q[i] {
      assert q[i] in MembersOf(states);
    }
    hide *;
    var p := seq(|q|, (i: nat) requires i < |q| => index[q[i]]);
    forall i | 0 <= i < |p| - 1 ensures p[i + 1] in g[p[i]] {
      assert Edge(l, q[i], TAU, q[i + 1]) by { CycleEdge(l, MembersOf(states), q, i); }
      assert states[p[i]] == q[i];
    }
    assert |q| >= 2 && q[0] == q[|q| - 1] by { CycleEdge(l, MembersOf(states), q, 0); }
    CycleFromSteps(g, p);
  }

  lemma CycleEdge<S(!new)>(l: Lts<S>, x: iset<S>, q: seq<S>, i: nat)
    requires TauCycleIn(l, x, q) && i < |q| - 1
    ensures |q| >= 2 && q[0] == q[|q| - 1] && Edge(l, q[i], TAU, q[i + 1])
  {}

  lemma CycleFromSteps(g: Graph, p: seq<nat>)
    requires |p| >= 2 && p[0] == p[|p| - 1] && (forall i | 0 <= i < |p| :: p[i] < |g|)
    requires forall i | 0 <= i < |p| - 1 :: p[i + 1] in g[p[i]]
    ensures Cyclic(g) && OnCycle(g, p[0])
  {
    assert IsCycle(g, p);
  }

  lemma CycleCorrespondence<S(!new)>(l: Lts<S>, states: seq<S>, index: map<S, nat>)
    requires Indexes(states, index)
    ensures Cyclic(TauGraph(l, states, index)) <==> HasTauCycle(l, MembersOf(states))
  {
    hide IsCycle, TauCycleIn, TauGraph, Indexes;
    var g := TauGraph(l, states, index);
    if p :| IsCycle(g, p) { IndexCycle(l, states, index, p); }
    if q :| TauCycleIn(l, MembersOf(states), q) { StateCycle(l, states, index, q); }
  }

  // ------------------------------------------------------------- the search

  /** The finished nodes, in finishing order, only have earlier successors. */
  ghost predicate Finished(g: Graph, order: seq<nat>) {
    && (forall i | 0 <= i < |order| :: order[i] < |g|)
    && (forall i, w | 0 <= i < |order| && w in g[order[i]] :: w in order[..i])
  }

  ghost function Nodes(stack: seq<Frame>): seq<nat> {
    seq(|stack|, (k: nat) requires k < |stack| => stack[k].node)
  }

  /** The nodes on the stack are distinct and joined by edges. */
  ghost predicate OnStack(g: Graph, path: seq<nat>) {
    && (forall k | 0 <= k < |path| :: path[k] < |g|)
    && (forall k, m | 0 <= k < m < |path| :: path[k] != path[m])
    && (forall k | 0 <= k < |path| - 1 :: path[k + 1] in g[path[k]])
  }

  ghost predicate Colored(g: Graph, color: seq<Color>, path: seq<nat>, order: seq<nat>) {
    && |color| == |g|
    && forall v | 0 <= v < |g| :: (color[v] == Gray <==> v in path) && (color[v] == Black <==> v in order)
  }

  ghost predicate FrameOk(g: Graph, f: Frame) {
    f.node < |g| && f.neighbors == g[f.node] && f.cursor <= |f.neighbors|
  }

  ghost function TakenBy(f: Frame): seq<nat>
    requires f.cursor <= |f.neighbors|
  {
    f.neighbors[..f.cursor]
  }

  ghost predicate Settled(color: seq<Color>, stack: seq<Frame>, k: nat, w: nat) {
    w < |color| && (color[w] == Black || (k + 1 < |stack| && w == stack[k + 1].node))
  }

  /** Every neighbor a frame has taken is black or is the next node of the stack. */
  ghost predicate Taken(g: Graph, color: seq<Color>, stack: seq<Frame>) {
    && (forall k | 0 <= k < |stack| :: FrameOk(g, stack[k]))
    && forall k, w | 0 <= k < |stack| && w in TakenBy(stack[k]) :: Settled(color, stack, k, w)
  }

  ghost predicate Searching(g: Graph, color: seq<Color>, stack: seq<Frame>, order: seq<nat>) {
    && OnStack(g, Nodes(stack))
    && Colored(g, color, Nodes(stack), order)
    && Taken(g, color, stack)
    && Finished(g, order)
  }

  lemma {:induction false} PathDescends(g: Graph, order: seq<nat>, p: seq<nat>, k: nat)
    requires Finished(g, order) && IsPath(g, p) && |p| >= 2 && k <= |order| && p[0] in order[..k]
    ensures k > 0 && p[|p| - 1] in order[..k - 1]
  {
    var i :| 0 <= i < k && order[i] == p[0];
    assert p[1] in order[..i];
    assert order[..i] <= order[..k - 1];
    if |p| > 2 {
      assert IsPath(g, p[1..]);
      PathDescends(g, order, p[1..], k - 1);
      assert order[..k - 2] <= order[..k - 1];
    }
  }

  lemma {:induction false} FinishedHasNoCycle(g: Graph, order: seq<nat>, p: seq<nat>, k: nat)
    requires Finished(g, order) && IsCycle(g, p) && k <= |order|
    ensures p[0] !in order[..k]
  {
    if p[0] in order[..k] {
      PathDescends(g, order, p, k);
      FinishedHasNoCycle(g, order, p, k - 1);
    }
  }

  lemma AllFinishedAcyclic(g: Graph, order: seq<nat>)
    requires Finished(g, order) && forall v | 0 <= v < |g| :: v in order
    ensures !Cyclic(g)
  {
    forall p | IsCycle(g, p) ensures false {
      assert order[..|order|] == order;
      FinishedHasNoCycle(g, order, p, |order|);
    }
  }

  /** A neighbor that is still on the stack closes a cycle. */
  lemma GrayClosesCycle(g: Graph, path: seq<nat>, w: nat)
    requires OnStack(g, path) && path != [] && w in g[path[|path| - 1]] && w in path
    ensures Cyclic(g)
  {
    var k :| 0 <= k < |path| && path[k] == w;
    var p := path[k..] + [w];
    forall i | 0 <= i < |p| - 1 ensures p[i + 1] in g[p[i]] {
      assert p[i] == path[k + i];
    }
    assert IsCycle(g, p);
  }

  ghost function Work(stack: seq<Frame>): nat {
    if stack == [] then 0
    else
      var f := stack[|stack| - 1];
      Work(stack[..|stack| - 1]) + 1 + if f.cursor < |f.neighbors| then |f.neighbors| - f.cursor else 0
  }

  ghost function Whites(color: seq<Color>): set<nat> {
    set v | 0 <= v < |color| && color[v] == White
  }

  /** The stack after its top frame has moved its cursor. */
  function Advance(stack: seq<Frame>): seq<Frame>
    requires stack != []
  {
    var f := stack[|stack| - 1];
    stack[..|stack| - 1] + [f.(cursor := f.cursor + 1)]
  }

  lemma TakeOne(f: Frame, x: nat)
    requires f.cursor < |f.neighbors|
    ensures x in TakenBy(f.(cursor := f.cursor + 1)) <==> x in TakenBy(f) || x == f.neighbors[f.cursor]
  {
    assert f.neighbors[..f.cursor + 1] == TakenBy(f) + [f.neighbors[f.cursor]];
  }

  lemma FinishOrder(g: Graph, color: seq<Color>, stack: seq<Frame>, order: seq<nat>)
    requires Searching(g, color, stack, order) && stack != []
    requires stack[|stack| - 1].cursor == |stack[|stack| - 1].neighbors|
    ensures Finished(g, order + [stack[|stack| - 1].node])
  {
    var f := stack[|stack| - 1];
    var order' := order + [f.node];
    assert FrameOk(g, f) && TakenBy(f) == g[f.node];
    forall w | w in g[f.node] ensures w in order {
      assert Settled(color, stack, |stack| - 1, w);
    }
    assert forall i | 0 <= i <= |order| :: order'[..i] == order[..i];
  }

  lemma FinishTop(g: Graph, color: seq<Color>, stack: seq<Frame>, order: seq<nat>)
    requires Searching(g, color, stack, order) && stack != []
    requires stack[|stack| - 1].cursor == |stack[|stack| - 1].neighbors|
    ensures Searching(g, color[stack[|stack| - 1].node := Black], stack[..|stack| - 1], order + [stack[|stack| - 1].node])
    ensures Work(stack[..|stack| - 1]) < Work(stack)
  {
    var f := stack[|stack| - 1];
    var color', stack', order' := color[f.node := Black], stack[..|stack| - 1], order + [f.node];
    var path := Nodes(stack);
    assert Nodes(stack') == path[..|path| - 1];
    assert path == Nodes(stack') + [f.node];
    forall v | 0 <= v < |g|
      ensures (color'[v] == Gray <==> v in Nodes(stack')) && (color'[v] == Black <==> v in order')
    {
      assert v in path <==> v in Nodes(stack') || v == f.node;
      if v == f.node {
        assert forall k | 0 <= k < |path| - 1 :: path[k] != path[|path| - 1];
      }
    }
    FinishOrder(g, color, stack, order);
    forall k, w | 0 <= k < |stack'| && w in TakenBy(stack'[k]) ensures Settled(color', stack', k, w) {
      assert w in TakenBy(stack[k]) && Settled(color, stack, k, w);
    }
  }

  lemma StartAt(g: Graph, color: seq<Color>, order: seq<nat>, w: nat)
    requires Searching(g, color, [], order) && w < |g| && color[w] == White
    ensures Searching(g, color[w := Gray], [Frame(w, g[w], 0)], order)
  {
    assert Nodes([Frame(w, g[w], 0)]) == [w];
  }

  lemma PushWhite(g: Graph, color: seq<Color>, stack: seq<Frame>, order: seq<nat>, w: nat)
    requires Searching(g, color, stack, order) && stack != [] && w < |g| && color[w] == White
    requires var f := stack[|stack| - 1]; f.cursor < |f.neighbors| && f.neighbors[f.cursor] == w
    ensures Searching(g, color[w := Gray], Advance(stack) + [Frame(w, g[w], 0)], order)
    ensures Whites(color[w := Gray]) < Whites(color)
  {
    var color', stack' := color[w := Gray], Advance(stack) + [Frame(w, g[w], 0)];
    assert w in Whites(color) && w !in Whites(color');
    assert Nodes(stack') == Nodes(stack) + [w];
    assert Colored(g, color', Nodes(stack'), order);
    forall k, x | 0 <= k < |stack'| && x in TakenBy(stack'[k]) ensures Settled(color', stack', k, x) {
      if k == |stack| - 1 { TakeOne(stack[k], x); }
      if x != w { assert x in TakenBy(stack[k]) && Settled(color, stack, k, x); }
    }
  }

  lemma SkipBlack(g: Graph, color: seq<Color>, stack: seq<Frame>, order: seq<nat>)
    requires Searching(g, color, stack, order) && stack != []
    requires var f := stack[|stack| - 1];
             f.cursor < |f.neighbors| && f.neighbors[f.cursor] < |g| && color[f.neighbors[f.cursor]] == Black
    ensures Searching(g, color, Advance(stack), order)
    ensures Work(Advance(stack)) < Work(stack)
  {
    var stack' := Advance(stack);
    var top := |stack| - 1;
    assert stack'[..top] == stack[..top];
    assert Nodes(stack') == Nodes(stack);
    forall k, x | 0 <= k < |stack'| && x in TakenBy(stack'[k]) ensures Settled(color, stack', k, x) {
      if k == top { TakeOne(stack[k], x); }
      if color[x] != Black { assert x in TakenBy(stack[k]) && Settled(color, stack, k, x); }
    }
  }

  lemma StartSearch(g: Graph)
    ensures Searching(g, seq(|g|, _ => White), [], [])
  {}

  lemma SearchFacts(g: Graph, color: seq<Color>, stack: seq<Frame>, order: seq<nat>)
    requires Searching(g, color, stack, order)
    ensures |color| == |g| && forall v | 0 <= v < |g| :: color[v] == Black <==> v in order
    ensures stack == [] ==> forall v | 0 <= v < |g| :: color[v] != Gray
    ensures stack != [] ==> FrameOk(g, stack[|stack| - 1]) && color[stack[|stack| - 1].node] == Gray
    ensures stack != [] ==> OnStack(g, Nodes(stack)) && Nodes(stack)[|stack| - 1] == stack[|stack| - 1].node
    ensures forall v | 0 <= v < |g| :: color[v] == Gray <==> v in Nodes(stack)
  {
    if stack != [] { assert Nodes(stack)[|stack| - 1] in Nodes(stack); }
  }

  lemma SearchedAll(g: Graph, color: seq<Color>, order: seq<nat>)
    requires Searching(g, color, [], order) && forall v | 0 <= v < |g| :: color[v] == Black
    ensures !Cyclic(g)
  {
    AllFinishedAcyclic(g, order);
  }

  method IndexStates<S(==,!new)>(states: seq<S>) returns (index: map<S, nat>)
    ensures Indexes(states, index)
  {
    index := map[];
    for i := 0 to |states|
      invariant Indexes(states[..i], index)
    {
      index := index[states[i] := i];
      assert states[..i + 1] == states[..i] + [states[i]];
    }
    assert states[..|states|] == states;
  }

  /** Decides, for any list of states, whether they contain a cycle of internal
      actions among themselves. */
  method ClosureHasTauCycle<S(==,!new)>(l: Lts<S>, states: seq<S>) returns (cyclic: bool)
    ensures cyclic <==> HasTauCycle(l, MembersOf(states))
  {
    hide Searching, HasTauCycle, Cyclic, Indexes;
    var index := IndexStates(states);
    ghost var g := TauGraph(l, states, index);
    CycleCorrespondence(l, states, index);
    TauGraphEdges(l, states, index);
    var color := seq(|states|, _ => White);
    ghost var order: seq<nat> := [];
    StartSearch(g);
    for start := 0 to |states|
      invariant Searching(g, color, [], order) && |color| == |g|
      invariant forall v | 0 <= v < start :: color[v] == Black
    {
      SearchFacts(g, color, [], order);
      if color[start] != White { continue; }
      StartAt(g, color, order, start);
      ghost var started := color;
      color := color[start := Gray];
      var stack := [Frame(start, Neighbors(l.next(states[start]), index), 0)];
      while stack != []
        invariant Searching(g, color, stack, order) && |color| == |g|
        invariant forall v | 0 <= v < |g| && started[v] == Black :: color[v] == Black
        invariant color[start] != White
        decreases Whites(color), Work(stack)
      {
        SearchFacts(g, color, stack, order);
        var f := stack[|stack| - 1];
        if f.cursor >= |f.neighbors| {
          FinishTop(g, color, stack, order);
          color := color[f.node := Black];
          order := order + [f.node];
          stack := stack[..|stack| - 1];
          continue;
        }
        var next := f.neighbors[f.cursor];
        assert next in g[f.node];
        match color[next]
        case White =>
          PushWhite(g, color, stack, order, next);
          color := color[next := Gray];
          stack := Advance(stack) + [Frame(next, Neighbors(l.next(states[next]), index), 0)];
        case Gray =>
          GrayClosesCycle(g, Nodes(stack), next);
          return true;
        case Black =>
          SkipBlack(g, color, stack, order);
          stack := Advance(stack);
      }
      SearchFacts(g, color, stack, order);
    }
    SearchFacts(g, color, [], order);
    SearchedAll(g, color, order);
    cyclic := false;
  }
}
