/** Traces in order of length and then label by label: the order in which a
    breadth-first search that takes labels in order comes to them. */
module Shortlex {
  import opened Lts
  import opened Names
  import Utf8

  /** Label by label, for traces of the same length. */
  predicate Lex(v: Trace, w: Trace) {
    v != [] && w != [] && (NameLess(v[0], w[0]) || (v[0] == w[0] && Lex(v[1..], w[1..])))
  }

  predicate Before(v: Trace, w: Trace) {
    |v| < |w| || (|v| == |w| && Lex(v, w))
  }

  predicate AtMost(v: Trace, w: Trace) {
    v == w || Before(v, w)
  }

  lemma {:induction false} LexTransitive(u: Trace, v: Trace, w: Trace)
    requires Lex(u, v) && Lex(v, w)
    ensures Lex(u, w)
  {
    hide NameLess;
    if NameLess(u[0], v[0]) {
      if NameLess(v[0], w[0]) { NamesTransitive(u[0], v[0], w[0]); }
    } else if u[0] == w[0] {
      NamesCompare(u[0], w[0]);
      LexTransitive(u[1..], v[1..], w[1..]);
    }
  }

  lemma {:induction false} LexCompare(v: Trace, w: Trace)
    requires |v| == |w|
    ensures v == w || Lex(v, w) || Lex(w, v)
    ensures !(Lex(v, w) && Lex(w, v)) && !Lex(v, v)
  {
    hide NameLess;
    if v != [] {
      NamesCompare(v[0], w[0]);
      NamesCompare(v[0], v[0]);
      LexCompare(v[1..], w[1..]);
      assert v == [v[0]] + v[1..] && w == [w[0]] + w[1..];
    }
  }

  lemma Transitive(u: Trace, v: Trace, w: Trace)
    requires (Before(u, v) && AtMost(v, w)) || (AtMost(u, v) && Before(v, w))
    ensures Before(u, w)
  {
    hide Lex;
    if |u| == |v| == |w| && Lex(u, v) && Lex(v, w) { LexTransitive(u, v, w); }
  }

  lemma Compare(v: Trace, w: Trace)
    ensures v == w || Before(v, w) || Before(w, v)
    ensures !(Before(v, w) && Before(w, v)) && !Before(v, v)
  {
    hide Lex;
    LexCompare(v, v);
    if |v| == |w| { LexCompare(v, w); }
  }

  /** One more label: the traces decide, and only for equal traces the labels. */
  lemma {:induction false} LexAppend(v: Trace, w: Trace, a: Label, b: Label)
    requires |v| == |w|
    ensures Lex(v + [a], w + [b]) <==> Lex(v, w) || (v == w && NameLess(a, b))
  {
    hide NameLess;
    var v', w' := v + [a], w + [b];
    if v == [] {
      assert v' == [a] && w' == [b] && v'[1..] == [] && w'[1..] == [];
    } else {
      assert v'[1..] == v[1..] + [a] && w'[1..] == w[1..] + [b];
      LexAppend(v[1..], w[1..], a, b);
      assert v == [v[0]] + v[1..] && w == [w[0]] + w[1..];
      if v[0] == w[0] { NamesCompare(v[0], w[0]); }
    }
  }

  lemma Append(v: Trace, w: Trace, a: Label, b: Label)
    ensures Before(v + [a], w + [b]) <==> Before(v, w) || (v == w && NameLess(a, b))
  {
    hide Lex;
    if |v| == |w| { LexAppend(v, w, a, b); }
  }

  lemma AppendAtMost(v: Trace, w: Trace, a: Label)
    requires AtMost(v, w)
    ensures AtMost(v + [a], w + [a])
  {
    hide Lex, NameLess;
    Append(v, w, a, a);
  }

  /** The shorter trace comes first, and of two of one length the one with the label
      that is spelled first where they first differ. */
  ghost predicate ComesFirst(v: Trace, w: Trace) {
    |v| < |w| || (|v| == |w| && DiffersFirst(v, w))
  }

  ghost predicate DiffersFirst(v: Trace, w: Trace) {
    exists k: nat :: k < |v| && k < |w| && v[..k] == w[..k] && Utf8.SpelledBefore(v[k], w[k])
  }

  lemma {:induction false} LexIsDifference(v: Trace, w: Trace)
    ensures Lex(v, w) <==> DiffersFirst(v, w)
  {
    hide NameLess, Utf8.SpelledBefore;
    if v != [] && w != [] {
      NameLessIsSpelled(v[0], w[0]);
      LexIsDifference(v[1..], w[1..]);
      if NameLess(v[0], w[0]) { assert v[..0] == w[..0]; }
      if v[0] == w[0] && DiffersFirst(v[1..], w[1..]) {
        var k: nat :| k < |v[1..]| && k < |w[1..]| && v[1..][..k] == w[1..][..k] && Utf8.SpelledBefore(v[1..][k], w[1..][k]);
        assert v[..k + 1] == [v[0]] + v[1..][..k] && w[..k + 1] == [w[0]] + w[1..][..k];
      }
      if DiffersFirst(v, w) {
        var k: nat :| k < |v| && k < |w| && v[..k] == w[..k] && Utf8.SpelledBefore(v[k], w[k]);
        if k > 0 {
          assert v[0] == v[..k][0] == w[..k][0] == w[0];
          assert v[1..][..k - 1] == v[..k][1..] && w[1..][..k - 1] == w[..k][1..];
        }
      }
    }
  }

  lemma BeforeIsFirst(v: Trace, w: Trace)
    ensures Before(v, w) <==> ComesFirst(v, w)
  {
    LexIsDifference(v, w);
  }
}
