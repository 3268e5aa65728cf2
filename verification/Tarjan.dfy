/** Tarjan's strongly connected components, and the node it picks on a cycle. */
module Tarjan {
  import opened Options
  import opened Graphs
  import opened Seqs

  /** The members reach each other, and no other node could join them. */
  ghost predicate IsComponent(g: Graph, c: seq<nat>) {
    && c != []
    && (forall x, y | x in c && y in c :: Reaches(g, x, y))
    && (forall x, y: nat | x in c && Reaches(g, x, y) && Reaches(g, y, x) :: y in c)
  }

  function Flatten(out: seq<seq<nat>>): seq<nat> {
    if out == [] then [] else Flatten(out[..|out| - 1]) + out[|out| - 1]
  }

  /** The mutable state of the algorithm, as a value. */
  datatype Snap = Snap(next: nat, index: map<nat, nat>, stack: seq<nat>, out: seq<seq<nat>>)

  ghost predicate Indexed(s: Snap, v: nat) {
    v in s.index
  }

  ghost function Index(s: Snap, v: nat): nat {
    if v in s.index then s.index[v] else 0
  }

  /** Indices are fresh numbers; the stack lists indexed nodes in index order. */
  ghost predicate Numbered(g: Graph, s: Snap) {
    && (forall v | v in s.index :: v < |g|)
    && (forall v: nat | Indexed(s, v) :: Index(s, v) < s.next)
    && (forall i | 0 <= i < |s.stack| :: Indexed(s, s.stack[i]))
    && (forall i, j | 0 <= i < j < |s.stack| :: Index(s, s.stack[i]) < Index(s, s.stack[j]))
  }

  /** Nodes whose call has returned only have indexed successors. */
  ghost predicate Explored(g: Graph, s: Snap, gray: set<nat>) {
    forall v: nat, w: nat | v < |g| && Indexed(s, v) && v !in gray && w in g[v] :: Indexed(s, w)
  }

  /** Nodes with a call in progress are on the stack and reach everything above them. */
  ghost predicate GrayReach(g: Graph, s: Snap, gray: set<nat>) {
    && (forall x | x in gray :: x in s.stack)
    && (forall x, y | x in gray && y in s.stack && Index(s, x) <= Index(s, y) :: Reaches(g, x, y))
  }

  ghost predicate Anchored(g: Graph, s: Snap, gray: set<nat>, y: nat) {
    exists x :: x in gray && Index(s, x) <= Index(s, y) && Reaches(g, y, x)
  }

  /** From every node on the stack a call in progress at or below it can be reached. */
  ghost predicate ReachGray(g: Graph, s: Snap, gray: set<nat>) {
    forall y | y in s.stack :: Anchored(g, s, gray, y)
  }

  /** What is emitted: the indexed nodes off the stack, each once, in components
      that no edge leaves for a node not emitted. */
  ghost predicate Emitted(g: Graph, s: Snap) {
    && Distinct(Flatten(s.out))
    && (forall v: nat :: v in Flatten(s.out) <==> Indexed(s, v) && v !in s.stack)
    && (forall v: nat, w: nat | v < |g| && v in Flatten(s.out) && w in g[v] :: w in Flatten(s.out))
    && (forall c | c in s.out :: IsComponent(g, c))
  }

  ghost predicate Inv(g: Graph, s: Snap, gray: set<nat>) {
    Numbered(g, s) && Explored(g, s, gray) && GrayReach(g, s, gray) && ReachGray(g, s, gray) && Emitted(g, s)
  }

  // --------------------------------------------------------------- a new node

  ghost function Pushed(s: Snap, v: nat): Snap
  {
    Snap(s.next + 1, s.index[v := s.next], s.stack + [v], s.out)
  }

  lemma PushNumbers(g: Graph, s: Snap, v: nat)
    requires Numbered(g, s) && v < |g| && !Indexed(s, v)
    ensures Numbered(g, Pushed(s, v)) && v !in s.stack
    ensures forall u: nat :: Indexed(Pushed(s, v), u) <==> Indexed(s, u) || u == v
    ensures forall u: nat | Indexed(s, u) :: Index(Pushed(s, v), u) == Index(s, u)
    ensures Index(Pushed(s, v), v) == s.next
  {
    var s' := Pushed(s, v);
    forall u: nat | Indexed(s', u) ensures Index(s', u) < s'.next {
      if u != v { assert Indexed(s, u) && Index(s', u) == Index(s, u); }
    }
  }

  lemma PushedStack(s: Snap, v: nat)
    ensures Pushed(s, v).stack == s.stack + [v] && Pushed(s, v).out == s.out
  {}

  lemma StackIsIndexed(g: Graph, s: Snap)
    requires Numbered(g, s)
    ensures forall y | y in s.stack :: Indexed(s, y) && Index(s, y) < s.next
  {}

  lemma PushKeepsGrayReach(g: Graph, s: Snap, gray: set<nat>, v: nat)
    requires Numbered(g, s) && GrayReach(g, s, gray) && v < |g| && !Indexed(s, v)
    requires forall x | x in gray :: Reaches(g, x, v)
    ensures GrayReach(g, Pushed(s, v), gray + {v})
  {
    hide Reaches, Pushed, Numbered, Indexed, Index;
    var s' := Pushed(s, v);
    PushNumbers(g, s, v);
    StackIsIndexed(g, s);
    ReachesSelf(g, v);
    PushedStack(s, v);
    assert forall y :: y in s'.stack <==> y in s.stack || y == v;
    forall x, y | x in gray + {v} && y in s'.stack && Index(s', x) <= Index(s', y) ensures Reaches(g, x, y) {
      if x == v {
        assert y != v ==> Index(s', y) < s.next;
      } else if y != v {
        assert Index(s, x) <= Index(s, y);
      }
    }
  }

  lemma PushKeepsGray(g: Graph, s: Snap, gray: set<nat>, v: nat)
    requires Numbered(g, s) && GrayReach(g, s, gray) && ReachGray(g, s, gray) && v < |g| && !Indexed(s, v)
    requires forall x | x in gray :: Reaches(g, x, v)
    ensures GrayReach(g, Pushed(s, v), gray + {v}) && ReachGray(g, Pushed(s, v), gray + {v})
  {
    PushKeepsGrayReach(g, s, gray, v);
    hide *;
    forall y | y in Pushed(s, v).stack ensures Anchored(g, Pushed(s, v), gray + {v}, y) {
      PushedStack(s, v);
      if y != v { PushKeepsAnchor(g, s, gray, v, y); } else { SelfAnchor(g, Pushed(s, v), gray + {v}, v); }
    }
    AllAnchored(g, Pushed(s, v), gray + {v});
  }

  lemma SelfAnchor(g: Graph, s: Snap, gray: set<nat>, v: nat)
    requires v < |g| && v in gray
    ensures Anchored(g, s, gray, v)
  {
    hide Reaches;
    ReachesSelf(g, v);
  }

  lemma AllAnchored(g: Graph, s: Snap, gray: set<nat>)
    ensures (forall y | y in s.stack :: Anchored(g, s, gray, y)) <==> ReachGray(g, s, gray)
  {
    hide Anchored;
  }

  lemma PushKeepsAnchor(g: Graph, s: Snap, gray: set<nat>, v: nat, y: nat)
    requires Numbered(g, s) && GrayReach(g, s, gray) && ReachGray(g, s, gray) && y in s.stack && v < |g| && !Indexed(s, v)
    ensures Anchored(g, Pushed(s, v), gray + {v}, y)
  {
    hide Reaches, Numbered, Index;
    PushNumbers(g, s, v);
    StackIsIndexed(g, s);
    assert Anchored(g, s, gray, y);
    var x :| x in gray && Index(s, x) <= Index(s, y) && Reaches(g, y, x);
    assert x in gray + {v} && Index(Pushed(s, v), x) <= Index(Pushed(s, v), y);
  }

  lemma PushKeepsInv(g: Graph, s: Snap, gray: set<nat>, v: nat)
    requires WellFormed(g) && Inv(g, s, gray) && v < |g| && !Indexed(s, v)
    requires forall x | x in gray :: Reaches(g, x, v)
    ensures Inv(g, Pushed(s, v), gray + {v})
  {
    hide Reaches, IsComponent, Anchored, Pushed;
    var s' := Pushed(s, v);
    PushNumbers(g, s, v);
    PushKeepsGray(g, s, gray, v);
    PushedStack(s, v);
    assert forall y :: y in s'.stack <==> y in s.stack || y == v;
    assert Explored(g, s', gray + {v});
    assert Emitted(g, s');
  }

  // ------------------------------------------------------ a call that returns

  ghost predicate LowNode(g: Graph, s: Snap, below: seq<nat>, v: nat, low: nat) {
    exists x :: (x in below || x == v) && Index(s, x) == low && Reaches(g, v, x)
  }

  /** What the call on `v` has established once all its edges are processed:
      `low` is the index of a node at or below `v` that `v` reaches, and no edge
      from `v` or above enters the stack below `v` at an index under `low`. */
  ghost predicate Lowest(g: Graph, s: Snap, below: seq<nat>, v: nat, low: nat) {
    && below + [v] <= s.stack
    && low <= Index(s, v)
    && LowNode(g, s, below, v, low)
    && (forall u: nat, w | u < |g| && u in s.stack[|below|..] && w in g[u] && w in below :: low <= Index(s, w))
  }

  lemma BelowIsLower(g: Graph, s: Snap, below: seq<nat>, v: nat, x: nat)
    requires Numbered(g, s) && below + [v] <= s.stack && x in s.stack
    ensures x in below <==> Index(s, x) < Index(s, v)
    ensures x in s.stack[|below|..] <==> Index(s, v) <= Index(s, x)
  {
    var i :| 0 <= i < |s.stack| && s.stack[i] == x;
    assert s.stack[|below|] == (below + [v])[|below|] == v;
    assert forall k | 0 <= k < |below| :: s.stack[k] == (below + [v])[k] == below[k];
    if i < |below| {
      assert below[i] == x;
    } else {
      assert s.stack[|below|..][i - |below|] == x;
    }
  }

  /** The call on `v` returns with `v` left on the stack: below it is a call in
      progress that `v` reaches. */
  lemma LowAnchors(g: Graph, s: Snap, gray: set<nat>, below: seq<nat>, v: nat, low: nat) returns (z: nat)
    requires ReachGray(g, s, gray + {v}) && Lowest(g, s, below, v, low) && low < Index(s, v)
    ensures z in gray && Index(s, z) <= low && Reaches(g, v, z)
  {
    hide Reaches, Index;
    var x :| (x in below || x == v) && Index(s, x) == low && Reaches(g, v, x);
    assert x in s.stack by { assert x in below + [v]; }
    assert Anchored(g, s, gray + {v}, x);
    z :| z in gray + {v} && Index(s, z) <= Index(s, x) && Reaches(g, x, z);
    ReachesTransitive(g, v, x, z);
  }

  lemma Reanchor(g: Graph, s: Snap, gray: set<nat>, v: nat, z: nat, y: nat)
    requires z in gray && Index(s, z) <= Index(s, v) && Reaches(g, v, z) && Anchored(g, s, gray + {v}, y)
    ensures Anchored(g, s, gray, y)
  {
    hide Reaches, Index;
    var r :| r in gray + {v} && Index(s, r) <= Index(s, y) && Reaches(g, y, r);
    if r == v {
      ReachesTransitive(g, y, v, z);
    }
  }

  lemma StayKeepsInv(g: Graph, s: Snap, gray: set<nat>, below: seq<nat>, v: nat, low: nat)
    requires Inv(g, s, gray + {v}) && v !in gray && Lowest(g, s, below, v, low) && low < Index(s, v)
    requires v < |g| && forall w | w in g[v] :: Indexed(s, w)
    ensures Inv(g, s, gray)
  {
    hide Reaches, Emitted, Numbered, Index, Indexed, Anchored, Lowest;
    var z := LowAnchors(g, s, gray, below, v, low);
    forall y | y in s.stack ensures Anchored(g, s, gray, y) {
      Reanchor(g, s, gray, v, z, y);
    }
  }

  /** Everything from `v` upwards on the stack and `v` reach each other. */
  lemma PoppedIsConnected(g: Graph, s: Snap, gray: set<nat>, below: seq<nat>, v: nat, x: nat)
    requires Numbered(g, s) && GrayReach(g, s, gray + {v}) && ReachGray(g, s, gray + {v})
    requires below + [v] <= s.stack && (forall z | z in gray :: z in below) && x in s.stack[|below|..]
    ensures Reaches(g, v, x) && Reaches(g, x, v)
  {
    hide Reaches, Numbered, Index, GrayReach, ReachGray;
    StackSplits(g, s, below, v);
    BelowIsLower(g, s, below, v, x);
    GrayReaches(g, s, gray + {v}, v, x);
    var z := ReachedGray(g, s, gray + {v}, x);
    if z != v {
      GrayReaches(g, s, gray + {v}, z, v);
      ReachesTransitive(g, x, z, v);
    }
  }

  lemma GrayReaches(g: Graph, s: Snap, gray: set<nat>, x: nat, y: nat)
    requires GrayReach(g, s, gray) && x in gray && y in s.stack && Index(s, x) <= Index(s, y)
    ensures Reaches(g, x, y)
  {}

  lemma ReachedGray(g: Graph, s: Snap, gray: set<nat>, y: nat) returns (x: nat)
    requires ReachGray(g, s, gray) && y in s.stack
    ensures x in gray && Index(s, x) <= Index(s, y) && Reaches(g, y, x)
  {
    hide Reaches, Index;
    assert Anchored(g, s, gray, y);
    x :| x in gray && Index(s, x) <= Index(s, y) && Reaches(g, y, x);
  }

  /** Edges from `v` upwards on the stack stay there or lead to emitted nodes. */
  lemma PoppedIsClosed(g: Graph, s: Snap, gray: set<nat>, below: seq<nat>, v: nat, u: nat, w: nat)
    requires Numbered(g, s) && Explored(g, s, gray + {v}) && Emitted(g, s) && Lowest(g, s, below, v, Index(s, v))
    requires v < |g| && (forall w | w in g[v] :: Indexed(s, w)) && forall x | x in gray :: x in below
    requires u < |g| && u in s.stack[|below|..] && w in g[u]
    ensures w in s.stack[|below|..] || w in Flatten(s.out)
  {
    BelowIsLower(g, s, below, v, u);
    StackIsIndexed(g, s);
    if u in below { assert false; }
    assert Indexed(s, w);
    if w in s.stack { BelowIsLower(g, s, below, v, w); }
  }

  /** The nodes popped when the call on `v` returns with its own index as low. */
  lemma PoppedIsComponent(g: Graph, s: Snap, gray: set<nat>, below: seq<nat>, v: nat)
    requires WellFormed(g) && Inv(g, s, gray + {v}) && Lowest(g, s, below, v, Index(s, v))
    requires v < |g| && (forall w | w in g[v] :: Indexed(s, w)) && forall x | x in gray :: x in below
    ensures IsComponent(g, s.stack[|below|..])
    ensures forall u: nat, w | u < |g| && u in s.stack[|below|..] && w in g[u] ::
              w in s.stack[|below|..] || w in Flatten(s.out)
  {
    hide Reaches, Numbered, Index, Explored, GrayReach, ReachGray;
    var c := s.stack[|below|..];
    assert c[0] == v by { assert s.stack[|below|] == (below + [v])[|below|]; }
    forall x, y | x in c && y in c ensures Reaches(g, x, y) {
      PoppedIsConnected(g, s, gray, below, v, x);
      PoppedIsConnected(g, s, gray, below, v, y);
      ReachesTransitive(g, x, v, y);
    }
    forall u: nat, w | u < |g| && u in c && w in g[u] ensures w in c || w in Flatten(s.out) {
      PoppedIsClosed(g, s, gray, below, v, u, w);
    }
    forall x, y: nat | x in c && Reaches(g, x, y) && Reaches(g, y, x) ensures y in c {
      assert x in s.stack && x !in Flatten(s.out);
      ClosedUnderReach(g, s, c, x, y);
      if y in Flatten(s.out) { ClosedUnderReach(g, s, [], y, x); }
    }
  }

  /** No path leaves the emitted nodes together with `c`. */
  lemma ClosedUnderReach(g: Graph, s: Snap, c: seq<nat>, x: nat, y: nat)
    requires WellFormed(g) && Emitted(g, s) && Reaches(g, x, y) && (x in c || x in Flatten(s.out))
    requires forall u: nat, w | u < |g| && u in c && w in g[u] :: w in c || w in Flatten(s.out)
    ensures y in c || y in Flatten(s.out)
  {
    var p :| IsPath(g, p) && p[0] == x && p[|p| - 1] == y;
    var i := 0;
    while i < |p| - 1
      invariant 0 <= i < |p| && (p[i] in c || p[i] in Flatten(s.out))
    {
      assert p[i + 1] in g[p[i]];
      i := i + 1;
    }
  }

  // -------------------------------------------------------------- emission

  lemma FlattenSnoc(out: seq<seq<nat>>, c: seq<nat>)
    ensures Flatten(out + [c]) == Flatten(out) + c
  {
    assert (out + [c])[..|out|] == out;
  }

  ghost function Popped(s: Snap, below: seq<nat>, c: seq<nat>): Snap {
    Snap(s.next, s.index, below, s.out + [c])
  }

  lemma EmitKeepsEmitted(g: Graph, s: Snap, below: seq<nat>, v: nat, c: seq<nat>)
    requires Numbered(g, s) && Emitted(g, s) && below + [v] <= s.stack
    requires Distinct(c) && (forall x :: x in c <==> x in s.stack[|below|..]) && IsComponent(g, c)
    requires forall u: nat, w | u < |g| && u in c && w in g[u] :: w in c || w in Flatten(s.out)
    ensures Emitted(g, Popped(s, below, c))
  {
    hide IsComponent, Index;
    FlattenSnoc(s.out, c);
    StackIsIndexed(g, s);
    var f, f' := Flatten(s.out), Flatten(s.out + [c]);
    StackSplits(g, s, below, v);
    forall x: nat ensures x in f' <==> Indexed(s, x) && x !in below {
      assert x in f' <==> x in f || x in c;
    }
    forall i, j | 0 <= i < j < |f'| ensures f'[i] != f'[j] {
      if i < |f| <= j { assert f[i] in f && c[j - |f|] in c; }
    }
  }

  lemma StackSplits(g: Graph, s: Snap, below: seq<nat>, v: nat)
    requires Numbered(g, s) && below + [v] <= s.stack
    ensures s.stack == below + s.stack[|below|..] && s.stack[|below|] == v && v !in below
    ensures forall x :: x in s.stack <==> x in below || x in s.stack[|below|..]
    ensures forall x | x in below :: x !in s.stack[|below|..] && Index(s, x) < Index(s, v)
    ensures Distinct(s.stack[|below|..])
  {
    assert s.stack == s.stack[..|below|] + s.stack[|below|..];
    assert s.stack[..|below|] == below;
    assert s.stack[|below|] == (below + [v])[|below|];
    forall x | x in below ensures x !in s.stack[|below|..] && Index(s, x) < Index(s, v) {
      BelowIsLower(g, s, below, v, x);
    }
  }

  lemma PoppedIndex(s: Snap, below: seq<nat>, c: seq<nat>)
    ensures forall y :: Index(Popped(s, below, c), y) == Index(s, y)
    ensures forall y :: Indexed(Popped(s, below, c), y) <==> Indexed(s, y)
  {}

  lemma PopKeepsNumbered(g: Graph, s: Snap, below: seq<nat>, v: nat, c: seq<nat>)
    requires Numbered(g, s) && below + [v] <= s.stack
    ensures Numbered(g, Popped(s, below, c))
  {
    var s' := Popped(s, below, c);
    PoppedIndex(s, below, c);
    forall i | 0 <= i < |below| ensures below[i] == s.stack[i] {
      assert below[i] == (below + [v])[i];
    }
  }

  lemma PopKeepsAnchor(g: Graph, s: Snap, gray: set<nat>, below: seq<nat>, v: nat, c: seq<nat>, y: nat)
    requires Anchored(g, s, gray + {v}, y) && Index(s, y) < Index(s, v)
    ensures Anchored(g, Popped(s, below, c), gray, y)
  {
    hide Reaches;
    var r :| r in gray + {v} && Index(s, r) <= Index(s, y) && Reaches(g, y, r);
    assert r in gray && Index(Popped(s, below, c), r) == Index(s, r);
  }

  lemma PopKeepsGray(g: Graph, s: Snap, gray: set<nat>, below: seq<nat>, v: nat, c: seq<nat>)
    requires Numbered(g, s) && GrayReach(g, s, gray + {v}) && ReachGray(g, s, gray + {v})
    requires below + [v] <= s.stack && forall x | x in gray :: x in below
    ensures GrayReach(g, Popped(s, below, c), gray) && ReachGray(g, Popped(s, below, c), gray)
  {
    hide Reaches, Numbered, Anchored, ReachGray;
    var s' := Popped(s, below, c);
    StackSplits(g, s, below, v);
    forall x, y | x in gray && y in below && Index(s', x) <= Index(s', y) ensures Reaches(g, x, y) {
      assert x in gray + {v} && y in s.stack && Index(s, x) <= Index(s, y);
    }
    PopKeepsReachGray(g, s, gray, below, v, c);
  }

  lemma PopKeepsReachGray(g: Graph, s: Snap, gray: set<nat>, below: seq<nat>, v: nat, c: seq<nat>)
    requires ReachGray(g, s, gray + {v}) && (forall y | y in below :: y in s.stack && Index(s, y) < Index(s, v))
    ensures ReachGray(g, Popped(s, below, c), gray)
  {
    hide Anchored;
    forall y | y in below ensures Anchored(g, Popped(s, below, c), gray, y) {
      PopKeepsAnchor(g, s, gray, below, v, c, y);
    }
  }

  lemma EmitKeepsInv(g: Graph, s: Snap, gray: set<nat>, below: seq<nat>, v: nat, c: seq<nat>)
    requires WellFormed(g) && Inv(g, s, gray + {v}) && Lowest(g, s, below, v, Index(s, v))
    requires v < |g| && (forall w | w in g[v] :: Indexed(s, w)) && forall x | x in gray :: x in below
    requires Distinct(c) && forall x :: x in c <==> x in s.stack[|below|..]
    ensures Inv(g, Popped(s, below, c), gray)
  {
    hide Reaches, Emitted, Index, Numbered, GrayReach, ReachGray;
    PoppedIsComponent(g, s, gray, below, v);
    StackSplits(g, s, below, v);
    assert IsComponent(g, c) by { assert s.stack[|below|] in s.stack[|below|..]; }
    EmitKeepsEmitted(g, s, below, v, c);
    PopKeepsNumbered(g, s, below, v, c);
    PopKeepsGray(g, s, gray, below, v, c);
    PoppedIndex(s, below, c);
  }

  // ------------------------------------------------ the edges of one node

  /** What a call leaves alone: old indices, the old stack, what was emitted. */
  ghost predicate Extends(s: Snap, s': Snap) {
    && s.next <= s'.next && s.stack <= s'.stack && s.out <= s'.out
    && (forall u | Indexed(s, u) :: Indexed(s', u) && Index(s', u) == Index(s, u))
    && (forall u | Indexed(s', u) && !Indexed(s, u) :: Index(s', u) >= s.next)
  }

  ghost predicate LowAbove(g: Graph, s: Snap, below: seq<nat>, k: nat, low: nat) {
    k <= |s.stack| && forall u: nat, w | u < |g| && u in s.stack[k..] && w in g[u] && w in below :: low <= Index(s, w)
  }

  /** The result of a call on `v` that started in `s` and ended in `s'`. */
  ghost predicate Returned(g: Graph, s: Snap, s': Snap, v: nat, low: nat) {
    && Extends(s, s') && Indexed(s', v) && !Indexed(s, v)
    && (if v in s'.stack then low < Index(s', v) && LowNode(g, s', s.stack, v, low)
        else s'.stack == s.stack && low == Index(s', v))
    && LowAbove(g, s', s.stack, |s.stack|, low)
  }

  /** Midway through the edges of `v`, the first `i` of them processed. */
  ghost predicate Working(g: Graph, s0: Snap, s: Snap, gray: set<nat>, v: nat, low: nat, i: nat) {
    && v < |g| && i <= |g[v]|
    && Inv(g, s, gray + {v}) && Extends(s0, s) && !Indexed(s0, v) && Indexed(s, v)
    && s0.stack + [v] <= s.stack && (forall x | x in gray :: x in s0.stack)
    && low <= Index(s, v) && LowNode(g, s, s0.stack, v, low)
    && LowAbove(g, s, s0.stack, |s0.stack| + 1, low)
    && (forall w | w in g[v][..i] :: Indexed(s, w) && (w in s0.stack ==> low <= Index(s, w)))
  }

  lemma ExtendsTransitive(s0: Snap, s: Snap, s': Snap)
    requires Extends(s0, s) && Extends(s, s')
    ensures Extends(s0, s')
  {}

  lemma StartWorking(g: Graph, s0: Snap, gray: set<nat>, v: nat)
    requires WellFormed(g) && Inv(g, s0, gray) && v < |g| && !Indexed(s0, v)
    requires forall x | x in gray :: Reaches(g, x, v)
    ensures Working(g, s0, Pushed(s0, v), gray, v, s0.next, 0)
  {
    hide Reaches, Inv, LowNode;
    var s := Pushed(s0, v);
    PushKeepsInv(g, s0, gray, v);
    InvNumbered(g, s0, gray);
    PushNumbers(g, s0, v);
    assert s.stack[|s0.stack| + 1..] == [];
    assert LowNode(g, s, s0.stack, v, s0.next) by { SelfLow(g, s, s0.stack, v); }
  }

  lemma InvNumbered(g: Graph, s: Snap, gray: set<nat>)
    requires Inv(g, s, gray)
    ensures Numbered(g, s) && forall x | x in gray :: x in s.stack
  {
    hide Numbered, Reaches;
  }

  lemma SelfLow(g: Graph, s: Snap, below: seq<nat>, v: nat)
    requires v < |g|
    ensures LowNode(g, s, below, v, Index(s, v))
  {
    hide Reaches;
    ReachesSelf(g, v);
  }

  function Min(a: nat, b: nat): nat {
    if a <= b then a else b
  }

  lemma TakeEdge(g: Graph, v: nat, i: nat)
    requires v < |g| && i < |g[v]|
    ensures forall w :: w in g[v][..i + 1] <==> w in g[v][..i] || w == g[v][i]
  {
    assert g[v][..i + 1] == g[v][..i] + [g[v][i]];
  }

  lemma LowEdge(g: Graph, s: Snap, below: seq<nat>, v: nat, w: nat)
    requires WellFormed(g) && Numbered(g, s) && below + [v] <= s.stack && v < |g| && w in g[v]
    requires w in s.stack && Index(s, w) <= Index(s, v)
    ensures LowNode(g, s, below, v, Index(s, w))
  {
    hide Reaches;
    ReachesEdge(g, v, w);
    BelowIsLower(g, s, below, v, w);
    StackSplits(g, s, below, v);
    if Index(s, w) == Index(s, v) { SelfLow(g, s, below, v); }
  }

  /** An edge to a node already indexed. */
  lemma SeenStep(g: Graph, s0: Snap, s: Snap, gray: set<nat>, v: nat, low: nat, i: nat)
    requires WellFormed(g) && v < |g| && i < |g[v]| && Working(g, s0, s, gray, v, low, i) && Indexed(s, g[v][i])
    ensures var w := g[v][i];
            Working(g, s0, s, gray, v, if w in s.stack then Min(low, Index(s, w)) else low, i + 1)
  {
    hide Inv, LowNode, Extends;
    var w := g[v][i];
    InvNumbered(g, s, gray + {v});
    TakeEdge(g, v, i);
    StackSplits(g, s, s0.stack, v);
    if w in s.stack && Index(s, w) < low {
      LowEdge(g, s, s0.stack, v, w);
    }
  }

  lemma ChildLowNode(g: Graph, s0: Snap, s: Snap, s': Snap, v: nat, w: nat, low: nat, lw: nat)
    requires WellFormed(g) && v < |g| && w in g[v] && Numbered(g, s) && Numbered(g, s')
    requires s0.stack + [v] <= s.stack && low <= Index(s, v) && LowNode(g, s, s0.stack, v, low)
    requires Returned(g, s, s', w, lw)
    ensures LowNode(g, s', s0.stack, v, Min(low, lw))
  {
    hide Reaches;
    StackIsIndexed(g, s);
    StackSplits(g, s, s0.stack, v);
    assert Indexed(s, v) && Index(s, v) < s.next;
    if lw < low {
      assert w in s'.stack;
      var x :| (x in s.stack || x == w) && Index(s', x) == lw && Reaches(g, w, x);
      assert x in s.stack && Index(s, x) == lw;
      BelowIsLower(g, s, s0.stack, v, x);
      ReachesEdge(g, v, w);
      ReachesTransitive(g, v, w, x);
    } else {
      var x :| (x in s0.stack || x == v) && Index(s, x) == low && Reaches(g, v, x);
      assert Indexed(s, x);
    }
  }

  lemma ChildLowAbove(g: Graph, s0: Snap, s: Snap, s': Snap, v: nat, w: nat, low: nat, lw: nat)
    requires Numbered(g, s) && s0.stack + [v] <= s.stack
    requires LowAbove(g, s, s0.stack, |s0.stack| + 1, low) && Returned(g, s, s', w, lw)
    ensures LowAbove(g, s', s0.stack, |s0.stack| + 1, Min(low, lw))
  {
    hide LowNode;
    StackIsIndexed(g, s);
    StackSplits(g, s, s0.stack, v);
    var k := |s0.stack| + 1;
    assert s'.stack[k..] == s.stack[k..] + s'.stack[|s.stack|..];
    forall u: nat, x | u < |g| && u in s'.stack[k..] && x in g[u] && x in s0.stack ensures Min(low, lw) <= Index(s', x) {
      assert x in s.stack && Index(s', x) == Index(s, x);
      assert u in s.stack[k..] || u in s'.stack[|s.stack|..];
    }
  }

  lemma ChildTaken(g: Graph, s0: Snap, s: Snap, s': Snap, v: nat, low: nat, lw: nat, i: nat)
    requires v < |g| && i < |g[v]| && Numbered(g, s) && s0.stack + [v] <= s.stack && Returned(g, s, s', g[v][i], lw)
    requires forall w | w in g[v][..i] :: Indexed(s, w) && (w in s0.stack ==> low <= Index(s, w))
    ensures forall w | w in g[v][..i + 1] :: Indexed(s', w) && (w in s0.stack ==> Min(low, lw) <= Index(s', w))
  {
    hide LowNode, LowAbove, Numbered, Index;
    StackIsIndexed(g, s);
    StackSplits(g, s, s0.stack, v);
    TakeEdge(g, v, i);
  }

  lemma ReturnedExtends(g: Graph, s0: Snap, s: Snap, s': Snap, v: nat, w: nat, lw: nat)
    requires Numbered(g, s) && s0.stack + [v] <= s.stack && Indexed(s, v) && Returned(g, s, s', w, lw)
    ensures Extends(s, s') && Indexed(s', v) && Index(s', v) == Index(s, v) && s0.stack + [v] <= s'.stack
  {
    hide LowNode, LowAbove, Numbered;
  }

  /** An edge to a new node, after the call on it has returned. */
  lemma ChildStep(g: Graph, s0: Snap, s: Snap, s': Snap, gray: set<nat>, v: nat, w: nat, low: nat, lw: nat, i: nat)
    requires v < |g| && i < |g[v]| && w == g[v][i]
    requires WellFormed(g) && Working(g, s0, s, gray, v, low, i)
    requires Inv(g, s', gray + {v}) && Returned(g, s, s', w, lw)
    ensures Working(g, s0, s', gray, v, Min(low, lw), i + 1)
  {
    hide Inv, LowNode, LowAbove, Numbered, Index, Extends, Returned, Indexed;
    InvNumbered(g, s, gray + {v});
    InvNumbered(g, s', gray + {v});
    ReturnedExtends(g, s0, s, s', v, w, lw);
    assert w in g[v];
    ChildLowNode(g, s0, s, s', v, w, low, lw);
    ChildLowAbove(g, s0, s, s', v, w, low, lw);
    ChildTaken(g, s0, s, s', v, low, lw, i);
    ExtendsTransitive(s0, s, s');
  }

  lemma WorkedIsLowest(g: Graph, s0: Snap, s: Snap, gray: set<nat>, v: nat, low: nat)
    requires v < |g| && Working(g, s0, s, gray, v, low, |g[v]|)
    ensures Lowest(g, s, s0.stack, v, low) && forall w | w in g[v] :: Indexed(s, w)
  {
    hide Inv, LowNode, Extends, Numbered, Index, Distinct;
    InvNumbered(g, s, gray + {v});
    StackSplits(g, s, s0.stack, v);
    assert g[v][..|g[v]|] == g[v];
    var k := |s0.stack|;
    assert s.stack[k..] == [v] + s.stack[k + 1..];
  }

  /** The call on `v` returns without emitting. */
  lemma ReturnStaying(g: Graph, s0: Snap, s: Snap, gray: set<nat>, v: nat, low: nat)
    requires WellFormed(g) && v < |g| && Working(g, s0, s, gray, v, low, |g[v]|) && low < Index(s, v)
    ensures Inv(g, s, gray) && Returned(g, s0, s, v, low)
  {
    hide Inv, LowNode, Extends, Reaches, Numbered, Index, Distinct;
    InvNumbered(g, s, gray + {v});
    WorkedIsLowest(g, s0, s, gray, v, low);
    StackSplits(g, s, s0.stack, v);
    StayKeepsInv(g, s, gray, s0.stack, v, low);
    assert v in s.stack by { assert v in s0.stack + [v]; }
    assert s0.stack <= s.stack;
  }

  /** The call on `v` returns after emitting the component `c`. */
  lemma ReturnEmitting(g: Graph, s0: Snap, s: Snap, gray: set<nat>, v: nat, c: seq<nat>)
    requires WellFormed(g) && v < |g| && Working(g, s0, s, gray, v, Index(s, v), |g[v]|)
    requires Distinct(c) && forall x :: x in c <==> x in s.stack[|s0.stack|..]
    ensures Inv(g, Popped(s, s0.stack, c), gray) && Returned(g, s0, Popped(s, s0.stack, c), v, Index(s, v))
  {
    hide Inv, LowNode, Reaches, Numbered, Index, Distinct;
    InvNumbered(g, s, gray + {v});
    var s' := Popped(s, s0.stack, c);
    WorkedIsLowest(g, s0, s, gray, v, Index(s, v));
    StackSplits(g, s, s0.stack, v);
    EmitKeepsInv(g, s, gray, s0.stack, v, c);
    PoppedIndex(s, s0.stack, c);
    assert s'.stack[|s0.stack|..] == [];
  }

  // --------------------------------------------------------- the algorithm

  ghost function IndexMap(indices: seq<Option<nat>>): map<nat, nat> {
    map v: nat | v < |indices| && indices[v].Some? :: indices[v].value
  }

  /** The state that the recursive calls share. */
  class SccSearch {
    const adj: Graph
    const indices: array<Option<nat>>
    const lowlink: array<nat>
    const onstack: array<bool>
    var nextIndex: nat
    var stack: seq<nat>
    var out: seq<seq<nat>>

    constructor (adj: Graph)
      ensures this.adj == adj && Valid() && fresh(indices) && fresh(lowlink) && fresh(onstack)
      ensures View() == Snap(0, map[], [], [])
    {
      this.adj := adj;
      indices := new Option<nat>[|adj|](_ => None);
      lowlink := new nat[|adj|](_ => 0);
      onstack := new bool[|adj|](_ => false);
      nextIndex, stack, out := 0, [], [];
    }

    ghost predicate Valid()
      reads this, onstack
    {
      && indices.Length == |adj| && lowlink.Length == |adj| && onstack.Length == |adj|
      && forall v: nat | v < |adj| :: onstack[v] <==> v in stack
    }

    ghost function View(): Snap
      reads this, indices
    {
      Snap(nextIndex, IndexMap(indices[..]), stack, out)
    }

    ghost function Whites(): set<nat>
      reads this, indices
    {
      set v: nat | v < |adj| && !Indexed(View(), v)
    }

    ghost function Low(v: nat): nat
      reads this, lowlink
    {
      if v < lowlink.Length then lowlink[v] else 0
    }

    method StrongConnect(v: nat, ghost gray: set<nat>)
      requires Valid() && WellFormed(adj) && Inv(adj, View(), gray)
      requires v < |adj| && !Indexed(View(), v) && forall x | x in gray :: Reaches(adj, x, v)
      modifies this, indices, lowlink, onstack
      ensures Valid() && Inv(adj, View(), gray)
      ensures Returned(adj, old(View()), View(), v, Low(v))
      ensures forall u | Indexed(old(View()), u) :: Low(u) == old(Low(u))
      ensures Whites() < old(Whites())
      decreases Whites()
    {
      hide Inv, Returned, Working, Reaches, Extends, Numbered;
      ghost var s0 := View();
      Enter(v, s0);
      StartWorking(adj, s0, gray, v);

      for i := 0 to |adj[v]|
        invariant Valid() && Working(adj, s0, View(), gray, v, Low(v), i)
        invariant forall u | Indexed(s0, u) :: Low(u) == old(Low(u))
        invariant Whites() < old(Whites())
      {
        var w := adj[v][i];
        ghost var s := View();
        ghost var low := lowlink[v];
        WorkingFacts(adj, s0, s, gray, v, low, i);
        if indices[w].None? {
          StrongConnect(w, gray + {v});
          lowlink[v] := Min(lowlink[v], lowlink[w]);
          ChildStep(adj, s0, s, View(), gray, v, w, low, Low(w), i);
          continue;
        }
        SeenStep(adj, s0, s, gray, v, low, i);
        if onstack[w] {
          lowlink[v] := Min(lowlink[v], indices[w].value);
        }
      }

      ghost var s := View();
      ghost var low := Low(v);
      WorkedFacts(adj, s0, s, gray, v, low);
      if lowlink[v] == indices[v].value {
        var scc := Pop(v, s0.stack);
        out := out + [scc];
        ReturnEmitting(adj, s0, s, gray, v, scc);
      } else {
        ReturnStaying(adj, s0, s, gray, v, low);
      }
    }

    /** Pops the stack down to and including `v`. */
    method Pop(v: nat, ghost below: seq<nat>) returns (scc: seq<nat>)
      requires Valid() && Distinct(stack) && below + [v] <= stack && forall x | x in stack :: x < |adj|
      modifies this`stack, onstack
      ensures Valid() && stack == below
      ensures Distinct(scc) && forall x :: x in scc <==> x in old(stack)[|below|..]
    {
      scc := [];
      ghost var full := stack;
      assert full[|below|] == (below + [v])[|below|];
      while stack != []
        invariant |below| < |stack| <= |full| && stack == full[..|stack|] && |scc| == |full| - |stack|
        invariant forall k | 0 <= k < |scc| :: scc[k] == full[|full| - 1 - k]
        invariant Valid()
      {
        var w := stack[|stack| - 1];
        assert w in full;
        stack := stack[..|stack| - 1];
        onstack[w] := false;
        scc := scc + [w];
        if w == v {
          break;
        }
      }
      ReversedMembers(scc, full[|below|..]);
    }

    /** Gives `v` the next index and puts it on the stack. */
    method Enter(v: nat, ghost s0: Snap)
      requires Valid() && s0 == View() && v < |adj|
      modifies this, indices, lowlink, onstack
      ensures Valid() && View() == Pushed(s0, v) && Low(v) == s0.next
      ensures forall u | u != v :: Low(u) == old(Low(u))
      ensures !Indexed(s0, v) ==> Whites() < old(Whites())
    {
      indices[v] := Some(nextIndex);
      lowlink[v] := nextIndex;
      nextIndex := nextIndex + 1;
      stack := stack + [v];
      onstack[v] := true;
      assert View().index == s0.index[v := s0.next];
      assert !Indexed(s0, v) ==> v in old(Whites()) && v !in Whites();
    }
  }

  lemma ReversedMembers(scc: seq<nat>, tail: seq<nat>)
    requires |scc| == |tail| && Distinct(tail) && forall k | 0 <= k < |scc| :: scc[k] == tail[|tail| - 1 - k]
    ensures Distinct(scc) && forall x :: x in scc <==> x in tail
  {
    forall x | x in tail ensures x in scc {
      var k :| 0 <= k < |tail| && tail[k] == x;
      assert scc[|tail| - 1 - k] == x;
    }
    forall i, j | 0 <= i < j < |scc| ensures scc[i] != scc[j] {
      assert tail[|tail| - 1 - j] != tail[|tail| - 1 - i];
    }
  }

  /** What the step on edge `i` needs to know. */
  lemma WorkingFacts(g: Graph, s0: Snap, s: Snap, gray: set<nat>, v: nat, low: nat, i: nat)
    requires WellFormed(g) && Working(g, s0, s, gray, v, low, i) && i < |g[v]|
    ensures g[v][i] < |g| && Inv(g, s, gray + {v})
    ensures Indexed(s, v) && forall u | Indexed(s0, u) :: Indexed(s, u)
    ensures forall x | x in gray + {v} :: Reaches(g, x, g[v][i])
  {
    hide LowNode, LowAbove, Numbered, ReachGray, Emitted, Explored, Reaches, Index;
    assert v in s.stack by { assert v in s0.stack + [v]; }
    StackSplits(g, s, s0.stack, v);
    assert g[v][i] in g[v];
    ReachesEdge(g, v, g[v][i]);
    forall x | x in gray + {v} ensures Reaches(g, x, g[v][i]) {
      assert Index(s, x) <= Index(s, v);
      ReachesTransitive(g, x, v, g[v][i]);
    }
  }

  /** What the end of the call needs to know. */
  lemma WorkedFacts(g: Graph, s0: Snap, s: Snap, gray: set<nat>, v: nat, low: nat)
    requires v < |g| && Working(g, s0, s, gray, v, low, |g[v]|)
    ensures Indexed(s, v) && low <= Index(s, v)
    ensures Distinct(s.stack) && s0.stack + [v] <= s.stack && forall x | x in s.stack :: x < |g|
  {
    hide LowNode, LowAbove, GrayReach, ReachGray, Emitted, Explored;
  }

  lemma StartInv(g: Graph)
    ensures Inv(g, Snap(0, map[], [], []), {})
  {
    hide Reaches;
  }

  lemma NothingAnchors(g: Graph, s: Snap, y: nat)
    ensures !Anchored(g, s, {}, y)
  {}

  lemma IdleStackEmpty(g: Graph, s: Snap)
    requires Inv(g, s, {})
    ensures s.stack == []
  {
    hide Reaches, Anchored;
    if s.stack != [] { NothingAnchors(g, s, s.stack[0]); }
  }

  lemma {:induction false} FlattenMember(out: seq<seq<nat>>, i: nat, x: nat)
    requires i < |out| && x in out[i]
    ensures x in Flatten(out)
  {
    var n := |out| - 1;
    if i < n {
      FlattenMember(out[..n], i, x);
    }
  }

  lemma OneHome(out: seq<seq<nat>>, i: nat, j: nat, x: nat)
    requires Distinct(Flatten(out)) && i < j < |out| && x in out[j]
    ensures x !in out[i]
  {
    PartOfFlatten(out, j);
    assert out[..j][i] == out[i];
    if x in out[i] { FlattenMember(out[..j], i, x); }
  }

  /** Each node is emitted exactly once, in a strongly connected component, and
      no two components could be merged. */
  method TarjanScc(adj: Graph) returns (out: seq<seq<nat>>)
    requires WellFormed(adj)
    ensures Distinct(Flatten(out)) && forall v: nat :: v in Flatten(out) <==> v < |adj|
    ensures forall c | c in out :: IsComponent(adj, c)
    ensures forall i, j, x, y | 0 <= i < j < |out| && x in out[i] && y in out[j] :: !(Reaches(adj, x, y) && Reaches(adj, y, x))
  {
    var search := new SccSearch(adj);
    StartInv(adj);
    for v := 0 to |adj|
      invariant search.adj == adj && fresh(search) && fresh(search.indices) && fresh(search.lowlink) && fresh(search.onstack)
      invariant search.Valid() && Inv(adj, search.View(), {})
      invariant forall u: nat | u < v :: Indexed(search.View(), u)
    {
      hide Inv, Returned, Reaches;
      if search.indices[v].None? {
        ghost var s := search.View();
        search.StrongConnect(v, {});
        ReturnedIndexes(adj, s, search.View(), v, search.Low(v));
      }
    }
    IdleStackEmpty(adj, search.View());
    out := search.out;
    forall i, j, x, y | 0 <= i < j < |out| && x in out[i] && y in out[j]
      ensures !(Reaches(adj, x, y) && Reaches(adj, y, x))
    {
      OneHome(out, i, j, y);
      assert out[i] in out;
    }
  }

  lemma ReturnedIndexes(g: Graph, s: Snap, s': Snap, v: nat, low: nat)
    requires Returned(g, s, s', v, low)
    ensures Indexed(s', v) && forall u | Indexed(s, u) :: Indexed(s', u)
  {}

  // ------------------------------------------------------------ cycle nodes

  lemma ComponentOnCycle(g: Graph, c: seq<nat>, v: nat)
    requires WellFormed(g) && IsComponent(g, c) && Distinct(c) && v in c && v < |g|
    ensures OnCycle(g, v) <==> |c| > 1 || v in g[v]
  {
    OnCycleIff(g, v);
    if |c| > 1 {
      var y := if c[0] == v then c[1] else c[0];
      assert Reaches(g, v, y) && Reaches(g, y, v);
      var p :| IsPath(g, p) && p[0] == v && p[|p| - 1] == y;
      assert IsPath(g, p[1..]);
      assert Reaches(g, p[1], y);
      ReachesTransitive(g, p[1], y, v);
    } else if v in g[v] {
      ReachesSelf(g, v);
    } else if w :| w in g[v] && Reaches(g, w, v) {
      ReachesEdge(g, v, w);
    }
  }

  /** Marks the nodes of one component when they lie on a cycle. */
  method MarkComponent(adj: Graph, scc: seq<nat>, inCycle: array<bool>)
    requires WellFormed(adj) && IsComponent(adj, scc) && Distinct(scc) && inCycle.Length == |adj|
    requires forall v | v in scc :: v < |adj| && !inCycle[v]
    modifies inCycle
    ensures forall v: nat | v < |adj| :: inCycle[v] == if v in scc then OnCycle(adj, v) else old(inCycle[v])
  {
    assert scc[0] in scc;
    forall v | v in scc ensures OnCycle(adj, v) <==> |scc| > 1 || v in adj[v] {
      ComponentOnCycle(adj, scc, v);
    }
    hide OnCycle;
    if |scc| > 1 {
      for k := 0 to |scc|
        invariant forall v: nat | v < |adj| :: inCycle[v] == if v in scc[..k] then true else old(inCycle[v])
      {
        assert scc[..k + 1] == scc[..k] + [scc[k]] && scc[k] in scc;
        inCycle[scc[k]] := true;
      }
      assert scc[..|scc|] == scc;
      return;
    }
    var v := scc[0];
    if v in adj[v] {
      inCycle[v] := true;
    }
  }

  /** The least node on a cycle, or none exactly when there is no cycle. */
  method FindFirstCycleNode(adj: Graph) returns (first: Option<nat>)
    requires WellFormed(adj)
    ensures first.Some? ==> first.value < |adj| && OnCycle(adj, first.value) && forall u: nat | u < first.value :: !OnCycle(adj, u)
    ensures first.None? <==> !Cyclic(adj)
  {
    hide Reaches, OnCycle, IsComponent, Cyclic;
    var sccs := TarjanScc(adj);
    var inCycle := new bool[|adj|](_ => false);
    for i := 0 to |sccs|
      invariant forall v: nat | v < |adj| :: inCycle[v] <==> v in Flatten(sccs[..i]) && OnCycle(adj, v)
    {
      var scc := sccs[i];
      assert sccs[..i + 1] == sccs[..i] + [scc];
      FlattenSnoc(sccs[..i], scc);
      assert forall v :: v in Flatten(sccs[..i + 1]) <==> v in Flatten(sccs[..i]) || v in scc;
      PartOfFlatten(sccs, i);
      MarkComponent(adj, scc, inCycle);
    }
    assert sccs[..|sccs|] == sccs;
    CyclicIff(adj);
    first := None;
    for v := 0 to |adj|
      invariant forall u: nat | u < v :: !inCycle[u]
    {
      if inCycle[v] {
        return Some(v);
      }
    }
  }

  lemma CyclicIff(g: Graph)
    ensures Cyclic(g) <==> exists v: nat :: v < |g| && OnCycle(g, v)
  {
    if p :| IsCycle(g, p) {
      assert OnCycle(g, p[0]);
    }
  }

  lemma FlattenSplit(out: seq<seq<nat>>, i: nat) returns (rest: seq<nat>)
    requires i < |out|
    ensures Flatten(out) == Flatten(out[..i]) + (out[i] + rest)
    decreases |out|
  {
    var n := |out| - 1;
    if i == n {
      rest := [];
      assert out[i] + rest == out[i];
    } else {
      var r := FlattenSplit(out[..n], i);
      assert out[..n][..i] == out[..i];
      rest := r + out[n];
      assert Flatten(out[..i]) + (out[i] + r) + out[n] == Flatten(out[..i]) + (out[i] + rest);
    }
  }

  lemma DistinctParts(a: seq<nat>, b: seq<nat>, c: seq<nat>)
    requires Distinct(a + (b + c))
    ensures Distinct(b) && forall x | x in b :: x in a + (b + c) && x !in a
  {
    var s := a + (b + c);
    forall i, j | 0 <= i < j < |b| ensures b[i] != b[j] {
      assert s[|a| + i] == b[i] && s[|a| + j] == b[j];
    }
    forall j | 0 <= j < |b| ensures b[j] in s && b[j] !in a {
      assert s[|a| + j] == b[j];
      forall i | 0 <= i < |a| ensures a[i] != b[j] { assert s[i] == a[i]; }
    }
  }

  lemma PartOfFlatten(out: seq<seq<nat>>, i: nat)
    requires Distinct(Flatten(out)) && i < |out|
    ensures Distinct(out[i]) && forall x | x in out[i] :: x in Flatten(out) && x !in Flatten(out[..i])
  {
    var rest := FlattenSplit(out, i);
    DistinctParts(Flatten(out[..i]), out[i], rest);
  }
}
