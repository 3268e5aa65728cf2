/** Which process a property check is about. */
module CspmAssertions {
  import opened Options
  import opened CspmSyntax
  import opened CspmProvider

  /** The bodies by name, a later declaration before an earlier one. */
  function LastBodies(decls: seq<ProcessDecl>): map<string, Process> {
    if decls == [] then map[]
    else LastBodies(decls[..|decls| - 1])[decls[|decls| - 1].name := decls[|decls| - 1].expr]
  }

  /** The body that the last assertion of the kind is about, if there is one. */
  function SelectTarget(assertions: seq<Assertion>, bodies: map<string, Process>, kind: PropertyKind): Option<Process> {
    if assertions == [] then None
    else
      var a := assertions[|assertions| - 1];
      if a.AssertProperty? && a.kind == kind && a.target in bodies then Some(bodies[a.target])
      else SelectTarget(assertions[..|assertions| - 1], bodies, kind)
  }

  /** The module as a property check takes it: an entry, a single declaration or else
      the target of an assertion. */
  function ForProperty(m: Module, kind: PropertyKind): Module {
    if m.entry.Some? || |m.declarations| == 1 then m
    else
      var target := SelectTarget(m.assertions, LastBodies(m.declarations), kind);
      if target.Some? then m.(entry := target) else m
  }

  method SelectLastPropertyTarget(m: Module, kind: PropertyKind) returns (r: Option<Process>)
    ensures r == SelectTarget(m.assertions, LastBodies(m.declarations), kind)
  {
    var bodies: map<string, Process> := map[];
    for i := 0 to |m.declarations|
      invariant bodies == LastBodies(m.declarations[..i])
    {
      assert m.declarations[..i + 1][..i] == m.declarations[..i];
      bodies := bodies[m.declarations[i].name := m.declarations[i].expr];
    }
    assert m.declarations[..|m.declarations|] == m.declarations;
    assert m.assertions[..|m.assertions|] == m.assertions;
    for i := |m.assertions| downto 0
      invariant SelectTarget(m.assertions[..i], bodies, kind) == SelectTarget(m.assertions, bodies, kind)
    {
      var a := m.assertions[i];
      assert m.assertions[..i + 1][..i] == m.assertions[..i];
      if !a.AssertProperty? || a.kind != kind {
        continue;
      }
      if a.target in bodies {
        return Some(bodies[a.target]);
      }
    }
    r := None;
  }

  method ModuleForPropertyCheck(m: Module, kind: PropertyKind) returns (r: Module)
    ensures r == ForProperty(m, kind)
  {
    if m.entry.Some? || |m.declarations| == 1 {
      return m;
    }
    r := m;
    var entry := SelectLastPropertyTarget(m, kind);
    if entry.Some? {
      r := r.(entry := entry);
    }
  }

  // ------------------------------------------------------ which one it is

  lemma {:induction false} LastBodiesHold(decls: seq<ProcessDecl>, x: string)
    ensures x in LastBodies(decls) <==> exists d :: d in decls && d.name == x
    ensures x in LastBodies(decls) ==> ProcessDecl(x, LastBodies(decls)[x]) in decls
  {
    if decls != [] {
      var n := |decls| - 1;
      LastBodiesHold(decls[..n], x);
      assert decls == decls[..n] + [decls[n]];
      assert decls[n] == ProcessDecl(decls[n].name, decls[n].expr);
    }
  }

  /** The `i`-th assertion is the last one of the kind. */
  ghost predicate LastOfKind(assertions: seq<Assertion>, kind: PropertyKind, i: nat, x: string) {
    && i < |assertions| && assertions[i] == AssertProperty(x, kind)
    && forall j | i < j < |assertions| :: !(assertions[j].AssertProperty? && assertions[j].kind == kind)
  }

  lemma {:induction false} SelectsLast(assertions: seq<Assertion>, bodies: map<string, Process>, kind: PropertyKind)
    requires forall a | a in assertions && a.AssertProperty? :: a.target in bodies
    ensures match SelectTarget(assertions, bodies, kind)
            case Some(e) => exists i, x :: LastOfKind(assertions, kind, i, x) && x in bodies && e == bodies[x]
            case None => forall a | a in assertions && a.AssertProperty? :: a.kind != kind
  {
    if assertions != [] {
      var n := |assertions| - 1;
      var a := assertions[n];
      assert a in assertions && assertions == assertions[..n] + [a];
      if a.AssertProperty? && a.kind == kind {
        assert LastOfKind(assertions, kind, n, a.target);
      } else {
        SelectsLast(assertions[..n], bodies, kind);
        var e := SelectTarget(assertions, bodies, kind);
        if e.Some? {
          var i, x :| LastOfKind(assertions[..n], kind, i, x) && x in bodies && e.value == bodies[x];
          assert LastOfKind(assertions, kind, i, x);
        }
      }
    }
  }

  /** In an accepted module without an entry of its own, the check is about the process
      that the last assertion of the kind names, and there is nothing to check exactly
      when no assertion is of the kind. The module that is checked is accepted too. */
  lemma ChecksLastAssertion(m: Module, kind: PropertyKind)
    requires Accepted(m)
    ensures Accepted(ForProperty(m, kind))
    ensures m.entry.Some? || |m.declarations| == 1 ==> ForProperty(m, kind) == m
    ensures m.entry.None? && |m.declarations| != 1 ==>
              match InitialExpr(ForProperty(m, kind))
              case Some(e) => exists i, x :: LastOfKind(m.assertions, kind, i, x) && ProcessDecl(x, e) in m.declarations
              case None => forall a | a in m.assertions && a.AssertProperty? :: a.kind != kind
  {
    hide TypecheckProcess, Declared, Keyed, LastOfKind, LastBodies, SelectTarget;
    var bodies := LastBodies(m.declarations);
    forall x ensures x in bodies <==> exists d :: d in m.declarations && d.name == x {
      LastBodiesHold(m.declarations, x);
    }
    forall a | a in m.assertions && a.AssertProperty? ensures a.target in bodies {
      assert a.target in Targets(a);
    }
    SelectsLast(m.assertions, bodies, kind);
    if m.entry.None? && |m.declarations| != 1 && SelectTarget(m.assertions, bodies, kind).Some? {
      var i, x :| LastOfKind(m.assertions, kind, i, x) && x in bodies && SelectTarget(m.assertions, bodies, kind).value == bodies[x];
      LastBodiesHold(m.declarations, x);
      assert TypedIn(ProcessDecl(x, bodies[x]).expr, m);
    }
  }
}
