/** Strings as UTF-8 bytes (RFC 3629), the form in which names are stored. */
module Utf8 {
  import opened Options
  import opened Lts
  import Order

  function EncodeChar(c: char): (b: Bytes)
    ensures 1 <= |b| <= 4
  {
    EncodeCode(c as int)
  }

  function EncodeCode(n: nat): (b: Bytes)
    requires n < 0x110000
    ensures 1 <= |b| <= 4
  {
    if n < 0x80 then [n]
    else if n < 0x800 then [0xC0 + n / 0x40, Tail(n)]
    else if n < 0x10000 then [0xE0 + n / 0x40 / 0x40, Tail(n / 0x40), Tail(n)]
    else [0xF0 + n / 0x40 / 0x40 / 0x40, Tail(n / 0x40 / 0x40), Tail(n / 0x40), Tail(n)]
  }

  /** A continuation byte with the low six bits of `n`. */
  function Tail(n: nat): Byte {
    0x80 + n % 0x40
  }

  predicate IsTail(b: Byte) {
    0x80 <= b < 0xC0
  }

  /** `high` followed by the six bits of a continuation byte. */
  function Glue(high: nat, b: Byte): nat
    requires IsTail(b)
  {
    high * 0x40 + (b as int - 0x80)
  }

  function Encode(s: string): Bytes {
    if s == [] then [] else EncodeChar(s[0]) + Encode(s[1..])
  }

  /** The number the first character stands for and how many bytes it takes. */
  function FirstCode(b: Bytes): (r: Option<(nat, nat)>)
    requires b != []
    ensures r.Some? ==> 1 <= r.value.1 <= |b|
  {
    var lead: int := b[0];
    if lead < 0x80 then Some((lead, 1))
    else if lead < 0xC0 then None
    else if lead < 0xE0 then
      if |b| >= 2 && IsTail(b[1]) then Some((Glue(lead - 0xC0, b[1]), 2)) else None
    else if lead < 0xF0 then
      if |b| >= 3 && IsTail(b[1]) && IsTail(b[2]) then Some((Glue(Glue(lead - 0xE0, b[1]), b[2]), 3)) else None
    else if lead < 0xF8 then
      if |b| >= 4 && IsTail(b[1]) && IsTail(b[2]) && IsTail(b[3]) then
        Some((Glue(Glue(Glue(lead - 0xF0, b[1]), b[2]), b[3]), 4))
      else None
    else None
  }

  predicate Scalar(n: nat) {
    n < 0xD800 || 0xE000 <= n < 0x110000
  }

  /** The least number that needs `k` bytes; smaller ones are overlong. */
  function Least(k: nat): nat {
    if k <= 1 then 0 else if k == 2 then 0x80 else if k == 3 then 0x800 else 0x10000
  }

  function Decode(b: Bytes): Option<string> {
    if b == [] then Some([])
    else
      var first := FirstCode(b);
      if first.None? || !Scalar(first.value.0) || first.value.0 < Least(first.value.1) then None
      else
        var rest := Decode(b[first.value.1..]);
        if rest.None? then None else Some([first.value.0 as char] + rest.value)
  }

  lemma GlueTail(n: nat)
    ensures IsTail(Tail(n)) && Glue(n / 0x40, Tail(n)) == n
  {}

  lemma TailGlue(high: nat, b: Byte)
    requires IsTail(b)
    ensures Glue(high, b) / 0x40 == high && Tail(Glue(high, b)) == b
  {}

  lemma CodeRoundTrip(n: nat, rest: Bytes)
    requires n < 0x110000
    ensures FirstCode(EncodeCode(n) + rest) == Some((n, |EncodeCode(n)|)) && Least(|EncodeCode(n)|) <= n
  {
    hide Tail, Glue, IsTail;
    GlueTail(n);
    GlueTail(n / 0x40);
    GlueTail(n / 0x40 / 0x40);
  }

  lemma {:induction false} RoundTrip(s: string)
    ensures Decode(Encode(s)) == Some(s)
  {
    if s != [] {
      CodeRoundTrip(s[0] as int, Encode(s[1..]));
      assert Encode(s)[|EncodeChar(s[0])|..] == Encode(s[1..]);
      RoundTrip(s[1..]);
      assert s == [s[0]] + s[1..];
    }
  }

  /** What decodes was encoded from what it decodes to: no two byte strings are the same name. */
  lemma {:induction false} DecodedEncodes(b: Bytes)
    requires Decode(b).Some?
    ensures Encode(Decode(b).value) == b
  {
    hide FirstCode, EncodeCode;
    if b != [] {
      var (n, k) := FirstCode(b).value;
      DecodedEncodes(b[k..]);
      FirstCodeRoundTrip(b);
      var s := Decode(b).value;
      assert s[0] == n as char && s[1..] == Decode(b[k..]).value;
      assert b == b[..k] + b[k..];
    }
  }

  lemma FirstCodeRoundTrip(b: Bytes)
    requires b != [] && FirstCode(b).Some? && FirstCode(b).value.0 < 0x110000 && Least(FirstCode(b).value.1) <= FirstCode(b).value.0
    ensures EncodeCode(FirstCode(b).value.0) == b[..FirstCode(b).value.1]
  {
    hide Tail;
    var lead: int := b[0];
    if 0xC0 <= lead < 0xE0 {
      TailGlue(lead - 0xC0, b[1]);
    } else if 0xE0 <= lead < 0xF0 {
      TailGlue(lead - 0xE0, b[1]);
      TailGlue(Glue(lead - 0xE0, b[1]), b[2]);
    } else if 0xF0 <= lead {
      TailGlue(lead - 0xF0, b[1]);
      TailGlue(Glue(lead - 0xF0, b[1]), b[2]);
      TailGlue(Glue(Glue(lead - 0xF0, b[1]), b[2]), b[3]);
    }
  }

  // ---------------------------------------------------------------- the order

  /** Smaller numbers have smaller bytes. */
  lemma CodesAscend(m: nat, n: nat, rest: Bytes, more: Bytes)
    requires m < n < 0x110000
    ensures Order.Less(EncodeCode(m) + rest, EncodeCode(n) + more)
  {
    var a, b := EncodeCode(m), EncodeCode(n);
    if |a| == |b| {
      SameLength(m, n);
      LessAppend(a, b, rest, more);
    } else {
      assert a[0] < b[0];
      assert (a + rest)[0] == a[0] && (b + more)[0] == b[0];
    }
  }

  lemma LessAppend(a: Bytes, b: Bytes, rest: Bytes, more: Bytes)
    requires |a| == |b| && Order.Less(a, b)
    ensures Order.Less(a + rest, b + more)
  {
    Order.LessIsPrecedence(a, b);
    var k: nat :| k <= |a| && k < |b| && a[..k] == b[..k] && (k == |a| || a[k] < b[k]);
    assert (a + rest)[..k] == a[..k] && (b + more)[..k] == b[..k];
    Order.LessIsPrecedence(a + rest, b + more);
  }

  lemma TailsAscend(a: Bytes, b: Bytes, m: nat, n: nat)
    requires |a| == |b| && m < n && if m / 0x40 < n / 0x40 then Order.Less(a, b) else a == b
    ensures Order.Less(a + [Tail(m)], b + [Tail(n)])
  {
    Order.LessSnoc(a, b, Tail(m), Tail(n));
  }

  lemma LeadsAscend(base: nat, m: nat, n: nat)
    requires m <= n && base + n < 256
    ensures if m < n then Order.Less([base + m], [base + n]) else [base + m] == [base + n]
  {}

  lemma SameLength(m: nat, n: nat)
    requires m < n < 0x110000 && |EncodeCode(m)| == |EncodeCode(n)|
    ensures Order.Less(EncodeCode(m), EncodeCode(n))
  {
    hide Tail, Order.Less;
    if n < 0x80 {
      LeadsAscend(0, m, n);
    } else if n < 0x800 {
      TwoAscend(0xC0, m, n);
    } else if n < 0x10000 {
      ThreeAscend(0xE0, m, n);
    } else {
      FourAscend(m, n);
    }
  }

  lemma TwoAscend(base: nat, m: nat, n: nat)
    requires m < n && base + n / 0x40 < 256
    ensures Order.Less([base + m / 0x40, Tail(m)], [base + n / 0x40, Tail(n)])
  {
    hide Tail, Order.Less;
    LeadsAscend(base, m / 0x40, n / 0x40);
    TailsAscend([base + m / 0x40], [base + n / 0x40], m, n);
    assert [base + m / 0x40, Tail(m)] == [base + m / 0x40] + [Tail(m)] && [base + n / 0x40, Tail(n)] == [base + n / 0x40] + [Tail(n)];
  }

  lemma ThreeAscend(base: nat, m: nat, n: nat)
    requires m < n && base + n / 0x40 / 0x40 < 256
    ensures Order.Less([base + m / 0x40 / 0x40, Tail(m / 0x40), Tail(m)], [base + n / 0x40 / 0x40, Tail(n / 0x40), Tail(n)])
  {
    hide Tail, Order.Less;
    var a, b := [base + m / 0x40 / 0x40, Tail(m / 0x40)], [base + n / 0x40 / 0x40, Tail(n / 0x40)];
    if m / 0x40 < n / 0x40 { TwoAscend(base, m / 0x40, n / 0x40); }
    TailsAscend(a, b, m, n);
    assert [base + m / 0x40 / 0x40, Tail(m / 0x40), Tail(m)] == a + [Tail(m)];
    assert [base + n / 0x40 / 0x40, Tail(n / 0x40), Tail(n)] == b + [Tail(n)];
  }

  lemma FourAscend(m: nat, n: nat)
    requires m < n < 0x110000
    ensures Order.Less([0xF0 + m / 0x40 / 0x40 / 0x40, Tail(m / 0x40 / 0x40), Tail(m / 0x40), Tail(m)],
                       [0xF0 + n / 0x40 / 0x40 / 0x40, Tail(n / 0x40 / 0x40), Tail(n / 0x40), Tail(n)])
  {
    hide Tail, Order.Less;
    var a := [0xF0 + m / 0x40 / 0x40 / 0x40, Tail(m / 0x40 / 0x40), Tail(m / 0x40)];
    var b := [0xF0 + n / 0x40 / 0x40 / 0x40, Tail(n / 0x40 / 0x40), Tail(n / 0x40)];
    if m / 0x40 < n / 0x40 { ThreeAscend(0xF0, m / 0x40, n / 0x40); }
    TailsAscend(a, b, m, n);
    assert [0xF0 + m / 0x40 / 0x40 / 0x40, Tail(m / 0x40 / 0x40), Tail(m / 0x40), Tail(m)] == a + [Tail(m)];
    assert [0xF0 + n / 0x40 / 0x40 / 0x40, Tail(n / 0x40 / 0x40), Tail(n / 0x40), Tail(n)] == b + [Tail(n)];
  }

  /** Strings come in the order of their characters: where they first differ, or the
      shorter one ends. */
  ghost predicate SpelledBefore(x: string, y: string) {
    exists k: nat :: k <= |x| && k < |y| && x[..k] == y[..k] && (k == |x| || x[k] < y[k])
  }

  lemma SpelledTail(x: string, y: string)
    requires x != [] && y != [] && x[0] == y[0]
    ensures SpelledBefore(x, y) <==> SpelledBefore(x[1..], y[1..])
  {
    if SpelledBefore(x[1..], y[1..]) {
      var k: nat :| k <= |x[1..]| && k < |y[1..]| && x[1..][..k] == y[1..][..k] && (k == |x[1..]| || x[1..][k] < y[1..][k]);
      assert x[..k + 1] == [x[0]] + x[1..][..k] && y[..k + 1] == [y[0]] + y[1..][..k];
    }
    if SpelledBefore(x, y) {
      var k: nat :| k <= |x| && k < |y| && x[..k] == y[..k] && (k == |x| || x[k] < y[k]);
      assert k > 0;
      assert x[1..][..k - 1] == x[..k][1..] && y[1..][..k - 1] == y[..k][1..];
    }
  }

  lemma SpelledHead(x: string, y: string)
    requires x == [] || y == [] || x[0] != y[0]
    ensures SpelledBefore(x, y) <==> y != [] && (x == [] || x[0] < y[0])
  {
    if y != [] && (x == [] || x[0] < y[0]) { assert x[..0] == y[..0]; }
  }

  /** The bytes of strings come in the order of their characters. */
  lemma {:induction false} BytesAsSpelled(x: string, y: string)
    ensures Order.Less(Encode(x), Encode(y)) <==> SpelledBefore(x, y)
  {
    hide Order.Less, EncodeCode, SpelledBefore;
    if x == [] || y == [] {
      SpelledHead(x, y);
      EmptyIsLeast(Encode(x), Encode(y));
    } else if x[0] == y[0] {
      Order.CommonPrefix(EncodeChar(x[0]), Encode(x[1..]), Encode(y[1..]));
      BytesAsSpelled(x[1..], y[1..]);
      SpelledTail(x, y);
    } else {
      SpelledHead(x, y);
      if x[0] < y[0] {
        CodesAscend(x[0] as int, y[0] as int, Encode(x[1..]), Encode(y[1..]));
      } else {
        CodesAscend(y[0] as int, x[0] as int, Encode(y[1..]), Encode(x[1..]));
        NotBoth(Encode(x), Encode(y));
      }
    }
  }

  lemma EmptyIsLeast(a: Bytes, b: Bytes)
    requires a == [] || b == []
    ensures Order.Less(a, b) <==> b != []
  {}

  lemma NotBoth(a: Bytes, b: Bytes)
    ensures !(Order.Less(a, b) && Order.Less(b, a))
  {
    if Order.Less(a, b) && Order.Less(b, a) {
      Order.Transitive(a, b, a);
      Order.Irreflexive(a);
    }
  }

  // --------------------------------------------------------------- the layout

  /** The bits of a character as RFC 3629 lays them out in section 3: one byte below 128,
      or a first byte whose leading ones count the bytes and then six bits in each. */
  ghost predicate LaidOut(b: Bytes, n: nat) {
    if n < 0x80 then b == [n]
    else if n < 0x800 then |b| == 2 && b[0] / 32 == 6 && b[1] / 64 == 2 && b[0] as int % 32 * 64 + b[1] as int % 64 == n
    else if n < 0x10000 then
      |b| == 3 && b[0] / 16 == 14 && b[1] / 64 == 2 && b[2] / 64 == 2 && (b[0] as int % 16 * 64 + b[1] as int % 64) * 64 + b[2] as int % 64 == n
    else
      && |b| == 4 && b[0] / 8 == 30 && b[1] / 64 == 2 && b[2] / 64 == 2 && b[3] / 64 == 2
      && ((b[0] as int % 8 * 64 + b[1] as int % 64) * 64 + b[2] as int % 64) * 64 + b[3] as int % 64 == n
  }

  lemma CodesAreLaidOut(n: nat)
    requires n < 0x110000
    ensures LaidOut(EncodeCode(n), n)
  {}
}
