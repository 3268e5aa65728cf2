/** τ-closures and their signatures. */
module Closures {
  import opened Lts
  import opened Order

  /** The states of a closure sorted by encoding, and those encodings. */
  datatype Closure<S> = Closure(states: seq<S>, sig: seq<Bytes>)

  ghost predicate Canonical<S>(l: Lts<S>, c: Closure<S>) {
    && |c.sig| == |c.states|
    && (forall i | 0 <= i < |c.sig| :: c.sig[i] == l.enc(c.states[i]))
    && StrictlySorted(c.sig)
  }

  ghost predicate IsClosure<S(!new)>(l: Lts<S>, u: set<S>, c: Closure<S>, x: iset<S>) {
    && Canonical(l, c)
    && (forall s :: s in c.states <==> s in x)
    && (forall s | s in c.states :: s in u)
  }

  /** Signatures are canonical: two closures have the same signature exactly when
      they hold the same states, and then they are the same closure. */
  lemma SignatureCanonical<S(!new)>(l: Lts<S>, u: set<S>, c: Closure<S>, x: iset<S>, d: Closure<S>, y: iset<S>)
    requires Finite(l, u) && IsClosure(l, u, c, x) && IsClosure(l, u, d, y)
    ensures c.sig == d.sig <==> x == y
    ensures x == y ==> c == d
  {
    if c.sig == d.sig {
      SameSigSameStates(l, u, c, x, d, y);
      forall s ensures s in x <==> s in y { assert s in c.states <==> s in d.states; }
    }
    if x == y {
      forall b ensures b in c.sig <==> b in d.sig {
        if b in c.sig { SigCovers(l, u, c, x, d, y, b); }
        if b in d.sig { SigCovers(l, u, d, y, c, x, b); }
      }
      SortedUnique(c.sig, d.sig);
      SameSigSameStates(l, u, c, x, d, y);
    }
  }

  lemma SigCovers<S(!new)>(l: Lts<S>, u: set<S>, c: Closure<S>, x: iset<S>, d: Closure<S>, y: iset<S>, b: Bytes)
    requires IsClosure(l, u, c, x) && IsClosure(l, u, d, y) && x == y && b in c.sig
    ensures b in d.sig
  {
    var i :| 0 <= i < |c.sig| && c.sig[i] == b;
    assert c.states[i] in c.states;
    assert c.states[i] in d.states;
    var j :| 0 <= j < |d.states| && d.states[j] == c.states[i];
    assert d.sig[j] == b;
  }

  lemma SameSigSameStates<S(!new)>(l: Lts<S>, u: set<S>, c: Closure<S>, x: iset<S>, d: Closure<S>, y: iset<S>)
    requires Finite(l, u) && IsClosure(l, u, c, x) && IsClosure(l, u, d, y) && c.sig == d.sig
    ensures c.states == d.states
  {
    forall i | 0 <= i < |c.states| ensures c.states[i] == d.states[i] {
      assert c.states[i] in u && d.states[i] in u;
      assert c.sig[i] == d.sig[i];
    }
  }

  ghost function MembersOf<S(!new)>(q: seq<S>): iset<S> {
    iset s | s in q
  }

  // -------------------------------------------------------- computing closures

  method SortByEncoding<S(==,!new)>(l: Lts<S>, ghost u: set<S>, visited: set<S>) returns (c: Closure<S>)
    requires Finite(l, u) && visited <= u
    ensures IsClosure(l, u, c, iset s | s in visited)
  {
    c := Closure([], []);
    var rest := visited;
    while rest != {}
      invariant rest <= visited && Canonical(l, c)
      invariant forall s :: s in c.states <==> s in visited && s !in rest
      decreases rest
    {
      var s :| s in rest;
      assert l.enc(s) !in c.sig by {
        forall i | 0 <= i < |c.sig| ensures c.sig[i] != l.enc(s) {
          assert c.states[i] in c.states;
        }
      }
      var i := Place(c.sig, l.enc(s));
      var d := Closure(c.states[..i] + [s] + c.states[i..], c.sig[..i] + [l.enc(s)] + c.sig[i..]);
      InsertKeepsMembers(c.states, i, s);
      c, rest := d, rest - {s};
    }
  }

  lemma InsertKeepsMembers<S>(q: seq<S>, i: nat, s: S)
    requires i <= |q|
    ensures forall t :: t in q[..i] + [s] + q[i..] <==> t in q || t == s
  {
    assert q == q[..i] + q[i..];
  }

  /** Queue every new target of an internal transition of `state`. */
  method Expand<S(==)>(l: Lts<S>, state: S, visited: set<S>, queue: seq<S>) returns (visited': set<S>, queue': seq<S>)
    ensures forall t :: t in visited' <==> t in visited || Edge(l, state, TAU, t)
    ensures forall s :: s in queue' <==> s in queue || (s in visited' && s !in visited)
    ensures visited' == visited ==> queue' == queue
  {
    visited', queue' := visited, queue;
    var next := l.next(state);
    for i := 0 to |next|
      invariant forall t :: t in visited' <==> t in visited || (TAU, t) in next[..i]
      invariant forall s :: s in queue' <==> s in queue || (s in visited' && s !in visited)
      invariant visited' == visited ==> queue' == queue
    {
      if next[i].0 == TAU && next[i].1 !in visited' {
        visited', queue' := visited' + {next[i].1}, queue' + [next[i].1];
      }
    }
    assert next[..|next|] == next;
  }

  /** Invariant of the closure search: what is visited lies in the closure `y` of
      the seeds `x`, and only queued states may have unvisited internal successors. */
  ghost predicate Searching<S(!new)>(l: Lts<S>, u: set<S>, x: iset<S>, y: iset<S>, visited: set<S>, queue: seq<S>) {
    && visited <= u
    && (forall s | s in x :: s in visited)
    && (forall s | s in queue :: s in visited)
    && (forall s | s in visited :: s in y)
    && (forall s, t | s in visited && s !in queue && Edge(l, s, TAU, t) :: t in visited)
  }

  lemma SearchStep<S(!new)>(l: Lts<S>, u: set<S>, x: iset<S>, y: iset<S>, visited: set<S>, queue: seq<S>, visited': set<S>, queue': seq<S>)
    requires Finite(l, u) && TauClosed(l, y) && Searching(l, u, x, y, visited, queue) && queue != []
    requires forall t :: t in visited' <==> t in visited || Edge(l, queue[0], TAU, t)
    requires forall s :: s in queue' <==> s in queue[1..] || (s in visited' && s !in visited)
    ensures Searching(l, u, x, y, visited', queue')
  {
    assert forall s | s in queue :: s == queue[0] || s in queue[1..];
    assert forall s | s in queue[1..] :: s in queue;
  }

  lemma SearchDone<S(!new)>(l: Lts<S>, u: set<S>, x: iset<S>, visited: set<S>)
    requires Searching(l, u, x, TauClosure(l, x), visited, [])
    ensures (iset s | s in visited) == TauClosure(l, x)
  {
    TauClosureLeast(l, x, iset s | s in visited);
  }

  method ComputeTauClosure<S(==,!new)>(l: Lts<S>, ghost u: set<S>, seeds: seq<S>) returns (c: Closure<S>)
    requires Finite(l, u) && forall s | s in seeds :: s in u
    ensures IsClosure(l, u, c, TauClosure(l, MembersOf(seeds)))
  {
    hide TauClosure, Canonical, TauClosed;
    ghost var x := MembersOf(seeds);
    ghost var y := TauClosure(l, x);
    TauClosureContains(l, x);
    TauClosureClosed(l, x);
    var visited: set<S> := {};
    var queue: seq<S> := [];
    for i := 0 to |seeds|
      invariant forall s :: s in visited <==> s in seeds[..i]
      invariant forall s :: s in queue <==> s in visited
    {
      if seeds[i] !in visited {
        visited, queue := visited + {seeds[i]}, queue + [seeds[i]];
      }
    }
    assert seeds[..|seeds|] == seeds;
    while queue != []
      invariant Searching(l, u, x, y, visited, queue)
      decreases u - visited, |queue|
    {
      var visited', queue' := Expand(l, queue[0], visited, queue[1..]);
      SearchStep(l, u, x, y, visited, queue, visited', queue');
      visited, queue := visited', queue';
    }
    SearchDone(l, u, x, visited);
    c := SortByEncoding(l, u, visited);
  }

  lemma StepSnoc<S(!new)>(l: Lts<S>, q: seq<S>, s: S, a: Label)
    ensures Step(l, MembersOf(q + [s]), a) == Step(l, MembersOf(q), a) + iset t: S | Edge(l, s, a, t)
  {
    var x, y := MembersOf(q + [s]), MembersOf(q);
    forall t: S ensures t in Step(l, x, a) <==> t in Step(l, y, a) || Edge(l, s, a, t) {
      if StepsTo(l, x, a, t) {
        var r :| r in x && Edge(l, r, a, t);
        if r != s { assert r in y; }
      }
      if StepsTo(l, y, a, t) {
        var r :| r in y && Edge(l, r, a, t);
        assert r in x;
      }
      if Edge(l, s, a, t) { assert s in x; }
    }
  }

  method ComputeNext<S(==,!new)>(l: Lts<S>, ghost u: set<S>, src: seq<S>, a: Label) returns (c: Closure<S>)
    requires Finite(l, u) && forall s | s in src :: s in u
    ensures IsClosure(l, u, c, Next(l, MembersOf(src), a))
  {
    var seeds: seq<S> := [];
    for i := 0 to |src|
      invariant MembersOf(seeds) == Step(l, MembersOf(src[..i]), a)
      invariant forall s | s in seeds :: s in u
    {
      var next := l.next(src[i]);
      ghost var seeds0 := seeds;
      for j := 0 to |next|
        invariant forall t :: t in seeds <==> t in seeds0 || (a, t) in next[..j]
      {
        if next[j].0 == a {
          seeds := seeds + [next[j].1];
        }
      }
      assert next[..|next|] == next;
      assert src[..i + 1] == src[..i] + [src[i]];
      StepSnoc(l, src[..i], src[i], a);
      assert forall t :: t in seeds <==> t in MembersOf(seeds0) || Edge(l, src[i], a, t);
    }
    assert src[..|src|] == src;
    c := ComputeTauClosure(l, u, seeds);
  }

  ghost function StatesOf<S(!new)>(c: Closure<S>): iset<S> {
    MembersOf(c.states)
  }

  /** `c` is a closure of the system `l`. */
  ghost predicate Proper<S(!new)>(l: Lts<S>, u: set<S>, c: Closure<S>) {
    IsClosure(l, u, c, StatesOf(c))
  }
}
