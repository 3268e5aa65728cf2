/** The binary codec for states: what it writes it reads back, leaving exactly
    what follows. */
module CspmCodec {
  import opened Lts
  import CspmSyntax
  import opened CspmStep
  import opened Names
  import Order
  import Utf8

  datatype CodecError = UnexpectedEof | InvalidUtf8 | UnknownTag | TrailingBytes

  datatype Result<T> = Ok(value: T) | Err(error: CodecError)

  /** A value read from the front of the bytes, and the bytes that remain. */
  type Parsed<T> = Result<(T, Bytes)>

  // ---------------------------------------------------------------- integers

  function Power256(width: nat): nat {
    if width == 0 then 1 else 256 * Power256(width - 1)
  }

  /** The low `width` bytes, most significant first. */
  function BigEndian(n: nat, width: nat): (b: Bytes)
    ensures |b| == width
  {
    if width == 0 then [] else BigEndian(n / 256, width - 1) + [n % 256]
  }

  function FromBigEndian(b: Bytes): (n: nat)
    ensures n < Power256(|b|)
  {
    if b == [] then 0 else FromBigEndian(b[..|b| - 1]) * 256 + b[|b| - 1]
  }

  lemma {:induction false} IntegerRoundTrip(n: nat, width: nat)
    requires n < Power256(width)
    ensures FromBigEndian(BigEndian(n, width)) == n
  {
    if width > 0 {
      IntegerRoundTrip(n / 256, width - 1);
      var b := BigEndian(n, width);
      assert b[..|b| - 1] == BigEndian(n / 256, width - 1);
    }
  }

  /** Numbers that fit are written in their order. */
  lemma {:induction false} IntegersAscend(m: nat, n: nat, width: nat)
    requires m < Power256(width) && n < Power256(width)
    ensures Order.Less(BigEndian(m, width), BigEndian(n, width)) <==> m < n
  {
    hide Order.Less;
    if width == 0 {
      Order.Irreflexive([]);
    } else {
      IntegersAscend(m / 256, n / 256, width - 1);
      Order.LessSnoc(BigEndian(m / 256, width - 1), BigEndian(n / 256, width - 1), m % 256, n % 256);
      IntegerRoundTrip(m / 256, width - 1);
      IntegerRoundTrip(n / 256, width - 1);
    }
  }

  lemma Widths()
    ensures Power256(4) == 0x1_0000_0000 && Power256(8) == 0x1_0000_0000_0000_0000
  {
    assert Power256(2) == 0x1_0000;
    assert Power256(4) == 0x1_0000_0000;
    assert Power256(6) == 0x1_0000_0000_0000;
  }

  type U64 = CspmSyntax.U64

  type U32 = n: nat | n < 0x1_0000_0000

  // ---------------------------------------------------------------- encoding

  function NameBytes(x: string): Bytes {
    BigEndian(|Utf8.Encode(x)|, 4) + Utf8.Encode(x)
  }

  function NamesBytes(names: seq<string>): Bytes {
    if names == [] then [] else NameBytes(names[0]) + NamesBytes(names[1..])
  }

  function BindingsBytes(keys: seq<string>, env: Env): Bytes
    requires forall x | x in keys :: x in env
  {
    if keys == [] then []
    else NameBytes(keys[0]) + BigEndian(env[keys[0]], 8) + BindingsBytes(keys[1..], env)
  }

  function SetBytes(names: set<string>): Bytes {
    BigEndian(|names|, 4) + NamesBytes(Sorted(names))
  }

  function EnvBytes(env: Env): Bytes {
    BigEndian(|env|, 4) + BindingsBytes(Sorted(env.Keys), env)
  }

  function Encoding(s: State): Bytes {
    match s
    case Expr(id, env) => [1] + BigEndian(id, 4) + EnvBytes(env)
    case Par(sync, left, right) => [2] + SetBytes(sync) + Encoding(left) + Encoding(right)
    case Hid(hidden, inner) => [3] + SetBytes(hidden) + Encoding(inner)
  }

  method EncodeNames(names: set<string>) returns (out: Bytes)
    ensures out == SetBytes(names)
  {
    out := BigEndian(|names|, 4);
    var keys := Sorted(names);
    for i := 0 to |keys|
      invariant out + NamesBytes(keys[i..]) == SetBytes(names)
    {
      out := out + BigEndian(|Utf8.Encode(keys[i])|, 4);
      out := out + Utf8.Encode(keys[i]);
      assert keys[i..][1..] == keys[i + 1..];
    }
  }

  method EncodeEnv(env: Env) returns (out: Bytes)
    ensures out == EnvBytes(env)
  {
    hide NameBytes, BigEndian, Sorted;
    out := BigEndian(|env|, 4);
    var keys := Sorted(env.Keys);
    for i := 0 to |keys|
      invariant out + BindingsBytes(keys[i..], env) == EnvBytes(env)
    {
      assert keys[i] in keys && keys[i..][1..] == keys[i + 1..];
      out := out + NameBytes(keys[i]) + BigEndian(env[keys[i]], 8);
    }
  }

  method Encode(s: State) returns (out: Bytes)
    ensures out == Encoding(s)
  {
    match s
    case Expr(id, env) =>
      var bindings := EncodeEnv(env);
      out := [1] + BigEndian(id, 4) + bindings;
    case Par(sync, left, right) =>
      var names := EncodeNames(sync);
      var l := Encode(left);
      var r := Encode(right);
      out := [2] + names + l + r;
    case Hid(hidden, inner) =>
      var names := EncodeNames(hidden);
      var i := Encode(inner);
      out := [3] + names + i;
  }

  // ---------------------------------------------------------------- decoding

  function Split(b: Bytes, n: nat): (r: Parsed<Bytes>)
    ensures r.Ok? ==> |r.value.1| + n == |b| && |r.value.0| == n
  {
    if |b| < n then Err(UnexpectedEof) else Ok((b[..n], b[n..]))
  }

  function ParseU32(b: Bytes): (r: Parsed<U32>)
    ensures r.Ok? ==> |r.value.1| + 4 == |b|
  {
    Widths();
    match Split(b, 4)
    case Err(e) => Err(e)
    case Ok((head, rest)) => Ok((FromBigEndian(head), rest))
  }

  function ParseU64(b: Bytes): (r: Parsed<U64>)
    ensures r.Ok? ==> |r.value.1| + 8 == |b|
  {
    Widths();
    match Split(b, 8)
    case Err(e) => Err(e)
    case Ok((head, rest)) => Ok((FromBigEndian(head), rest))
  }

  function ParseName(b: Bytes): (r: Parsed<string>)
    ensures r.Ok? ==> |r.value.1| < |b|
  {
    match ParseU32(b)
    case Err(e) => Err(e)
    case Ok((n, rest)) =>
      match Split(rest, n)
      case Err(e) => Err(e)
      case Ok((head, rest')) =>
        match Utf8.Decode(head)
        case None => Err(InvalidUtf8)
        case Some(x) => Ok((x, rest'))
  }

  function ParseNames(b: Bytes, count: nat, names: set<string>): (r: Parsed<set<string>>)
    ensures r.Ok? ==> |r.value.1| <= |b|
    decreases count
  {
    if count == 0 then Ok((names, b))
    else
      match ParseName(b)
      case Err(e) => Err(e)
      case Ok((x, rest)) => ParseNames(rest, count - 1, names + {x})
  }

  function ParseSet(b: Bytes): (r: Parsed<set<string>>)
    ensures r.Ok? ==> |r.value.1| < |b|
  {
    match ParseU32(b)
    case Err(e) => Err(e)
    case Ok((count, rest)) => ParseNames(rest, count, {})
  }

  function ParseBindings(b: Bytes, count: nat, env: Env): (r: Parsed<Env>)
    ensures r.Ok? ==> |r.value.1| <= |b|
    decreases count
  {
    if count == 0 then Ok((env, b))
    else
      match ParseName(b)
      case Err(e) => Err(e)
      case Ok((x, rest)) =>
        match ParseU64(rest)
        case Err(e) => Err(e)
        case Ok((v, rest')) => ParseBindings(rest', count - 1, env[x := v])
  }

  function ParseEnv(b: Bytes): (r: Parsed<Env>)
    ensures r.Ok? ==> |r.value.1| < |b|
  {
    match ParseU32(b)
    case Err(e) => Err(e)
    case Ok((count, rest)) => ParseBindings(rest, count, map[])
  }

  function ParseState(b: Bytes): (r: Parsed<State>)
    ensures r.Ok? ==> |r.value.1| < |b|
    decreases |b|
  {
    match Split(b, 1)
    case Err(e) => Err(e)
    case Ok((tag, rest)) =>
      if tag[0] == 1 then
        match ParseU32(rest)
        case Err(e) => Err(e)
        case Ok((id, rest')) =>
          match ParseEnv(rest')
          case Err(e) => Err(e)
          case Ok((env, rest'')) => Ok((Expr(id, env), rest''))
      else if tag[0] == 2 then
        match ParseSet(rest)
        case Err(e) => Err(e)
        case Ok((sync, rest')) =>
          match ParseState(rest')
          case Err(e) => Err(e)
          case Ok((left, rest'')) =>
            match ParseState(rest'')
            case Err(e) => Err(e)
            case Ok((right, rest''')) => Ok((Par(sync, left, right), rest'''))
      else if tag[0] == 3 then
        match ParseSet(rest)
        case Err(e) => Err(e)
        case Ok((hidden, rest')) =>
          match ParseState(rest')
          case Err(e) => Err(e)
          case Ok((inner, rest'')) => Ok((Hid(hidden, inner), rest''))
      else Err(UnknownTag)
  }

  function Decoding(b: Bytes): Result<State> {
    match ParseState(b)
    case Err(e) => Err(e)
    case Ok((s, rest)) => if rest == [] then Ok(s) else Err(TrailingBytes)
  }

  /** What reading must yield, and the bytes it must leave when it succeeds. */
  ghost predicate Reads<T>(want: Parsed<T>, got: Result<T>, left: Bytes) {
    match want
    case Ok((v, rest)) => got == Ok(v) && left == rest
    case Err(e) => got == Err(e)
  }

  /** The decoder: the bytes still to be read. */
  class Reader {
    var input: Bytes

    constructor (bytes: Bytes)
      ensures input == bytes
    {
      input := bytes;
    }

    method Take(n: nat) returns (r: Result<Bytes>)
      modifies this
      ensures Reads(Split(old(input), n), r, input)
    {
      if |input| < n {
        return Err(UnexpectedEof);
      }
      r := Ok(input[..n]);
      input := input[n..];
    }

    method TakeU32() returns (r: Result<U32>)
      modifies this
      ensures Reads(ParseU32(old(input)), r, input)
    {
      Widths();
      var head := Take(4);
      if head.Err? {
        return Err(head.error);
      }
      r := Ok(FromBigEndian(head.value));
    }

    method TakeU64() returns (r: Result<U64>)
      modifies this
      ensures Reads(ParseU64(old(input)), r, input)
    {
      Widths();
      var head := Take(8);
      if head.Err? {
        return Err(head.error);
      }
      r := Ok(FromBigEndian(head.value));
    }

    method TakeName() returns (r: Result<string>)
      modifies this
      ensures Reads(ParseName(old(input)), r, input)
    {
      var n := TakeU32();
      if n.Err? {
        return Err(n.error);
      }
      var head := Take(n.value);
      if head.Err? {
        return Err(head.error);
      }
      var name := Utf8.Decode(head.value);
      r := if name.None? then Err(InvalidUtf8) else Ok(name.value);
    }

    method TakeNames() returns (r: Result<set<string>>)
      modifies this
      ensures Reads(ParseSet(old(input)), r, input)
    {
      var count := TakeU32();
      if count.Err? {
        return Err(count.error);
      }
      var names: set<string> := {};
      for i := 0 to count.value
        invariant ParseNames(input, count.value - i, names) == ParseSet(old(input))
      {
        var x := TakeName();
        if x.Err? {
          return Err(x.error);
        }
        names := names + {x.value};
      }
      r := Ok(names);
    }

    method TakeEnv() returns (r: Result<Env>)
      modifies this
      ensures Reads(ParseEnv(old(input)), r, input)
    {
      hide ParseName, ParseU64, ParseU32;
      var count := TakeU32();
      if count.Err? {
        return Err(count.error);
      }
      var env: Env := map[];
      for i := 0 to count.value
        invariant ParseBindings(input, count.value - i, env) == ParseEnv(old(input))
      {
        var x := TakeName();
        if x.Err? {
          return Err(x.error);
        }
        var v := TakeU64();
        if v.Err? {
          return Err(v.error);
        }
        env := env[x.value := v.value];
      }
      r := Ok(env);
    }

    method DecodeState() returns (r: Result<State>)
      modifies this
      ensures Reads(ParseState(old(input)), r, input)
      decreases |input|
    {
      var tag := Take(1);
      if tag.Err? {
        return Err(tag.error);
      }
      match tag.value[0]
      case 1 =>
        var id := TakeU32();
        if id.Err? {
          return Err(id.error);
        }
        var env := TakeEnv();
        if env.Err? {
          return Err(env.error);
        }
        r := Ok(Expr(id.value, env.value));
      case 2 =>
        var sync := TakeNames();
        if sync.Err? {
          return Err(sync.error);
        }
        var left := DecodeState();
        if left.Err? {
          return left;
        }
        var right := DecodeState();
        if right.Err? {
          return right;
        }
        r := Ok(Par(sync.value, left.value, right.value));
      case 3 =>
        var hidden := TakeNames();
        if hidden.Err? {
          return Err(hidden.error);
        }
        var inner := DecodeState();
        if inner.Err? {
          return inner;
        }
        r := Ok(Hid(hidden.value, inner.value));
      case _ =>
        r := Err(UnknownTag);
    }
  }

  method Decode(bytes: Bytes) returns (r: Result<State>)
    ensures r == Decoding(bytes)
  {
    var reader := new Reader(bytes);
    r := reader.DecodeState();
    if r.Ok? && reader.input != [] {
      r := Err(TrailingBytes);
    }
  }

  // -------------------------------------------------------------- round trip

  predicate NameFits(x: string) {
    |Utf8.Encode(x)| < 0x1_0000_0000
  }

  predicate NamesFit(names: set<string>) {
    |names| < 0x1_0000_0000 && forall x | x in names :: NameFits(x)
  }

  /** All counts and lengths fit the four bytes they are written in. */
  predicate Fits(s: State) {
    match s
    case Expr(id, env) => id < 0x1_0000_0000 && NamesFit(env.Keys)
    case Par(sync, left, right) => NamesFit(sync) && Fits(left) && Fits(right)
    case Hid(hidden, inner) => NamesFit(hidden) && Fits(inner)
  }

  lemma U32RoundTrip(n: nat, rest: Bytes)
    requires n < 0x1_0000_0000
    ensures ParseU32(BigEndian(n, 4) + rest) == Ok((n, rest))
  {
    Widths();
    IntegerRoundTrip(n, 4);
    var b := BigEndian(n, 4) + rest;
    assert b[..4] == BigEndian(n, 4) && b[4..] == rest;
  }

  lemma U64RoundTrip(n: U64, rest: Bytes)
    ensures ParseU64(BigEndian(n, 8) + rest) == Ok((n, rest))
  {
    Widths();
    IntegerRoundTrip(n, 8);
    var b := BigEndian(n, 8) + rest;
    assert b[..8] == BigEndian(n, 8) && b[8..] == rest;
  }

  lemma NameRoundTrip(x: string, rest: Bytes)
    requires NameFits(x)
    ensures ParseName(NameBytes(x) + rest) == Ok((x, rest))
  {
    hide BigEndian, Utf8.Encode, Utf8.Decode;
    var e := Utf8.Encode(x);
    assert NameBytes(x) + rest == BigEndian(|e|, 4) + (e + rest);
    U32RoundTrip(|e|, e + rest);
    assert (e + rest)[..|e|] == e && (e + rest)[|e|..] == rest;
    Utf8.RoundTrip(x);
  }

  lemma {:induction false} NamesRoundTrip(keys: seq<string>, rest: Bytes, names: set<string>)
    requires forall x | x in keys :: NameFits(x)
    ensures ParseNames(NamesBytes(keys) + rest, |keys|, names) == Ok((names + (set x | x in keys), rest))
  {
    hide NameBytes, ParseName, NameFits;
    if keys == [] {
      assert NamesBytes(keys) + rest == rest && names + (set x | x in keys) == names;
    } else {
      var more := NamesBytes(keys[1..]) + rest;
      assert NamesBytes(keys) + rest == NameBytes(keys[0]) + more;
      NameRoundTrip(keys[0], more);
      NamesRoundTrip(keys[1..], rest, names + {keys[0]});
      assert names + {keys[0]} + (set x | x in keys[1..]) == names + (set x | x in keys);
    }
  }

  lemma SetRoundTrip(names: set<string>, rest: Bytes)
    requires NamesFit(names)
    ensures ParseSet(SetBytes(names) + rest) == Ok((names, rest))
  {
    hide BigEndian, NamesBytes, ParseNames, Sorted, NameFits;
    var keys := Sorted(names);
    assert SetBytes(names) + rest == BigEndian(|names|, 4) + (NamesBytes(keys) + rest);
    U32RoundTrip(|names|, NamesBytes(keys) + rest);
    NamesRoundTrip(keys, rest, {});
    assert {} + (set x | x in keys) == names;
  }

  lemma {:induction false} BindingsRoundTrip(keys: seq<string>, env: Env, rest: Bytes, found: Env)
    requires forall x | x in keys :: x in env && NameFits(x)
    ensures ParseBindings(BindingsBytes(keys, env) + rest, |keys|, found) == Ok((found + (map x | x in keys :: env[x]), rest))
  {
    hide NameBytes, ParseName, NameFits, BigEndian, ParseU64;
    if keys == [] {
      assert BindingsBytes(keys, env) + rest == rest && found + (map x | x in keys :: env[x]) == found;
    } else {
      var more := BindingsBytes(keys[1..], env) + rest;
      var x := keys[0];
      assert BindingsBytes(keys, env) + rest == NameBytes(x) + (BigEndian(env[x], 8) + more);
      NameRoundTrip(x, BigEndian(env[x], 8) + more);
      U64RoundTrip(env[x], more);
      BindingsRoundTrip(keys[1..], env, rest, found[x := env[x]]);
      assert found[x := env[x]] + (map x | x in keys[1..] :: env[x]) == found + (map x | x in keys :: env[x]);
    }
  }

  lemma EnvRoundTrip(env: Env, rest: Bytes)
    requires NamesFit(env.Keys)
    ensures ParseEnv(EnvBytes(env) + rest) == Ok((env, rest))
  {
    hide BigEndian, BindingsBytes, ParseBindings, Sorted, NameFits;
    var keys := Sorted(env.Keys);
    assert |env| == |env.Keys|;
    assert EnvBytes(env) + rest == BigEndian(|env|, 4) + (BindingsBytes(keys, env) + rest);
    U32RoundTrip(|env|, BindingsBytes(keys, env) + rest);
    BindingsRoundTrip(keys, env, rest, map[]);
    assert map[] + (map x | x in keys :: env[x]) == env;
  }

  /** Reading back an encoding yields the state and leaves exactly what follows. */
  lemma {:induction false} StateRoundTrip(s: State, rest: Bytes)
    requires Fits(s)
    ensures ParseState(Encoding(s) + rest) == Ok((s, rest))
  {
    hide BigEndian, EnvBytes, SetBytes, ParseEnv, ParseSet, NamesFit, ParseU32;
    var b := Encoding(s) + rest;
    match s
    case Expr(id, env) =>
      assert b[..1] == [1] && b[1..] == BigEndian(id, 4) + (EnvBytes(env) + rest);
      U32RoundTrip(id, EnvBytes(env) + rest);
      EnvRoundTrip(env, rest);
    case Par(sync, left, right) =>
      assert b[..1] == [2] && b[1..] == SetBytes(sync) + (Encoding(left) + (Encoding(right) + rest));
      SetRoundTrip(sync, Encoding(left) + (Encoding(right) + rest));
      StateRoundTrip(left, Encoding(right) + rest);
      StateRoundTrip(right, rest);
    case Hid(hidden, inner) =>
      assert b[..1] == [3] && b[1..] == SetBytes(hidden) + (Encoding(inner) + rest);
      SetRoundTrip(hidden, Encoding(inner) + rest);
      StateRoundTrip(inner, rest);
  }

  // ---------------------------------------------------- what can be decoded

  lemma ParsedNameFits(b: Bytes)
    requires ParseName(b).Ok?
    ensures NameFits(ParseName(b).value.0)
  {
    var (n, rest) := ParseU32(b).value;
    Utf8.DecodedEncodes(rest[..n]);
  }

  lemma {:induction false} ParsedNamesFit(b: Bytes, count: nat, names: set<string>)
    requires ParseNames(b, count, names).Ok? && forall x | x in names :: NameFits(x)
    ensures var r := ParseNames(b, count, names).value.0; |r| <= |names| + count && forall x | x in r :: NameFits(x)
    decreases count
  {
    hide ParseName, NameFits;
    if count > 0 {
      ParsedNameFits(b);
      var (x, rest) := ParseName(b).value;
      ParsedNamesFit(rest, count - 1, names + {x});
    }
  }

  lemma {:induction false} ParsedBindingsFit(b: Bytes, count: nat, env: Env)
    requires ParseBindings(b, count, env).Ok? && forall x | x in env :: NameFits(x)
    ensures var r := ParseBindings(b, count, env).value.0; |r.Keys| <= |env.Keys| + count && forall x | x in r :: NameFits(x)
    decreases count
  {
    hide ParseName, NameFits, ParseU64;
    if count > 0 {
      ParsedNameFits(b);
      var (x, rest) := ParseName(b).value;
      var (v, rest') := ParseU64(rest).value;
      assert env[x := v].Keys == env.Keys + {x};
      ParsedBindingsFit(rest', count - 1, env[x := v]);
    }
  }

  /** Only states whose counts and lengths fit are ever decoded. */
  lemma {:induction false} ParsedFits(b: Bytes)
    requires ParseState(b).Ok?
    ensures Fits(ParseState(b).value.0)
    decreases |b|
  {
    hide NameFits, ParseNames, ParseBindings;
    var rest := b[1..];
    if b[0] == 1 {
      var (id, rest') := ParseU32(rest).value;
      var (count, more) := ParseU32(rest').value;
      ParsedBindingsFit(more, count, map[]);
    } else {
      var (count, more) := ParseU32(rest).value;
      ParsedNamesFit(more, count, {});
      var rest' := ParseSet(rest).value.1;
      ParsedFits(rest');
      if b[0] == 2 { ParsedFits(ParseState(rest').value.1); }
    }
  }

  /** The round trip holds exactly for the states whose counts and lengths fit. */
  lemma RoundTrip(s: State)
    ensures Decoding(Encoding(s)) == Ok(s) <==> Fits(s)
  {
    if Fits(s) {
      StateRoundTrip(s, []);
      assert Encoding(s) + [] == Encoding(s);
    }
    if Decoding(Encoding(s)) == Ok(s) {
      ParsedFits(Encoding(s));
    }
  }

  /** A state that hides a channel with a name of 2^32 characters or more is not read back. */
  lemma LongNameIsLost(name: string)
    requires |name| >= 0x1_0000_0000
    ensures Decoding(Encoding(Hid({name}, Expr(0, map[])))) != Ok(Hid({name}, Expr(0, map[])))
  {
    Utf8LongName(name);
    assert name in {name};
    RoundTrip(Hid({name}, Expr(0, map[])));
  }

  lemma {:induction false} Utf8LongName(x: string)
    ensures |x| <= |Utf8.Encode(x)|
  {
    if x != [] { Utf8LongName(x[1..]); }
  }

  /** No encoding is a prefix of another one: in particular, none occurs twice. */
  lemma PrefixFree(s: State, t: State)
    requires Fits(s) && Fits(t) && Encoding(s) <= Encoding(t)
    ensures s == t
  {
    var rest := Encoding(t)[|Encoding(s)|..];
    assert Encoding(t) == Encoding(s) + rest;
    StateRoundTrip(s, rest);
    StateRoundTrip(t, []);
    assert Encoding(t) + [] == Encoding(t);
  }

  // ------------------------------------------------------------------ the layout

  /** What the bytes are worth, the first one most. */
  ghost function Worth(b: Bytes): nat {
    if b == [] then 0 else Worth(b[..|b| - 1]) * 256 + b[|b| - 1]
  }

  /** The names of a set in the order of their characters. */
  ghost predicate Lists(names: seq<string>, all: set<string>) {
    && |names| == |all| && (forall x :: x in all <==> x in names)
    && forall i, j | 0 <= i < j < |names| :: Utf8.SpelledBefore(names[i], names[j])
  }

  /** The length of the name in bytes, in four bytes, and the name. */
  ghost predicate WritesName(b: Bytes, x: string) {
    |b| >= 4 && b[4..] == Utf8.Encode(x) && Worth(b[..4]) == |b| - 4
  }

  ghost predicate WritesNames(b: Bytes, names: seq<string>) {
    if names == [] then b == []
    else exists k :: 0 <= k <= |b| && WritesName(b[..k], names[0]) && WritesNames(b[k..], names[1..])
  }

  ghost predicate WritesBindings(b: Bytes, names: seq<string>, env: Env) {
    if names == [] then b == []
    else
      && names[0] in env
      && exists k :: 0 <= k <= |b| - 8 && WritesName(b[..k], names[0]) && Worth(b[k..k + 8]) == env[names[0]]
                     && WritesBindings(b[k + 8..], names[1..], env)
  }

  /** How many, in four bytes, and then the names in order. */
  ghost predicate WritesSet(b: Bytes, all: set<string>) {
    |b| >= 4 && Worth(b[..4]) == |all| && exists names :: Lists(names, all) && WritesNames(b[4..], names)
  }

  ghost predicate WritesEnv(b: Bytes, env: Env) {
    |b| >= 4 && Worth(b[..4]) == |env| && exists names :: Lists(names, env.Keys) && WritesBindings(b[4..], names, env)
  }

  /** One byte for the shape, and then the fields. */
  ghost predicate WritesState(b: Bytes, s: State)
    decreases s
  {
    match s
    case Expr(id, env) => |b| >= 5 && b[0] == 1 && Worth(b[1..5]) == id && WritesEnv(b[5..], env)
    case Par(sync, l, r) =>
      b != [] && b[0] == 2
      && exists i, j :: 1 <= i <= j <= |b| && WritesSet(b[1..i], sync) && WritesState(b[i..j], l) && WritesState(b[j..], r)
    case Hid(hidden, inner) =>
      b != [] && b[0] == 3 && exists i :: 1 <= i <= |b| && WritesSet(b[1..i], hidden) && WritesState(b[i..], inner)
  }

  lemma {:induction false} WorthIsFrom(b: Bytes)
    ensures Worth(b) == FromBigEndian(b)
  {
    if b != [] { WorthIsFrom(b[..|b| - 1]); }
  }

  lemma IntegerWritten(n: nat, width: nat)
    requires n < Power256(width)
    ensures Worth(BigEndian(n, width)) == n
  {
    IntegerRoundTrip(n, width);
    WorthIsFrom(BigEndian(n, width));
  }

  lemma NameWritten(x: string)
    requires NameFits(x)
    ensures WritesName(NameBytes(x), x)
  {
    hide BigEndian, Worth;
    Widths();
    IntegerWritten(|Utf8.Encode(x)|, 4);
    assert NameBytes(x)[..4] == BigEndian(|Utf8.Encode(x)|, 4) && NameBytes(x)[4..] == Utf8.Encode(x);
  }

  lemma SortedLists(all: set<string>)
    ensures Lists(Sorted(all), all)
  {
    hide Sorted, NameLess, Utf8.SpelledBefore;
    forall i, j | 0 <= i < j < |Sorted(all)| ensures Utf8.SpelledBefore(Sorted(all)[i], Sorted(all)[j]) {
      SortedAscends(all, i, j);
      NameLessIsSpelled(Sorted(all)[i], Sorted(all)[j]);
    }
  }

  lemma {:induction false} NamesWritten(names: seq<string>)
    requires forall x | x in names :: NameFits(x)
    ensures WritesNames(NamesBytes(names), names)
  {
    hide NameFits, WritesName, NameBytes;
    if names != [] {
      NameWritten(names[0]);
      NamesWritten(names[1..]);
      var k := |NameBytes(names[0])|;
      assert NamesBytes(names)[..k] == NameBytes(names[0]) && NamesBytes(names)[k..] == NamesBytes(names[1..]);
    }
  }

  lemma {:induction false} BindingsWritten(names: seq<string>, env: Env)
    requires forall x | x in names :: x in env && NameFits(x)
    ensures WritesBindings(BindingsBytes(names, env), names, env)
  {
    hide NameFits, WritesName, NameBytes, BigEndian, Worth;
    if names != [] {
      NameWritten(names[0]);
      BindingsWritten(names[1..], env);
      Widths();
      IntegerWritten(env[names[0]], 8);
      var k := |NameBytes(names[0])|;
      var b := BindingsBytes(names, env);
      assert b[..k] == NameBytes(names[0]) && b[k..k + 8] == BigEndian(env[names[0]], 8) && b[k + 8..] == BindingsBytes(names[1..], env);
    }
  }

  lemma SetWritten(all: set<string>)
    requires NamesFit(all)
    ensures WritesSet(SetBytes(all), all)
  {
    hide NameFits, WritesNames, NamesBytes, BigEndian, Worth, Lists, Sorted;
    SortedLists(all);
    Widths();
    IntegerWritten(|all|, 4);
    NamesWritten(Sorted(all));
    assert SetBytes(all)[..4] == BigEndian(|all|, 4) && SetBytes(all)[4..] == NamesBytes(Sorted(all));
  }

  lemma EnvWritten(env: Env)
    requires NamesFit(env.Keys)
    ensures WritesEnv(EnvBytes(env), env)
  {
    hide NameFits, WritesBindings, BindingsBytes, BigEndian, Worth, Lists, Sorted;
    SortedLists(env.Keys);
    Widths();
    IntegerWritten(|env|, 4);
    BindingsWritten(Sorted(env.Keys), env);
    assert EnvBytes(env)[..4] == BigEndian(|env|, 4) && EnvBytes(env)[4..] == BindingsBytes(Sorted(env.Keys), env);
  }

  /** States that fit are written field by field. */
  lemma {:induction false} StateWritten(s: State)
    requires Fits(s)
    ensures WritesState(Encoding(s), s)
  {
    hide WritesSet, WritesEnv, SetBytes, EnvBytes, BigEndian, Worth, NamesFit;
    var b := Encoding(s);
    match s {
      case Expr(id, env) =>
        Widths();
        IntegerWritten(id, 4);
        EnvWritten(env);
        assert b[1..5] == BigEndian(id, 4) && b[5..] == EnvBytes(env);
      case Par(sync, l, r) =>
        SetWritten(sync);
        StateWritten(l);
        StateWritten(r);
        var i := 1 + |SetBytes(sync)|;
        var j := i + |Encoding(l)|;
        assert b[1..i] == SetBytes(sync) && b[i..j] == Encoding(l) && b[j..] == Encoding(r);
      case Hid(hidden, inner) =>
        SetWritten(hidden);
        StateWritten(inner);
        var i := 1 + |SetBytes(hidden)|;
        assert b[1..i] == SetBytes(hidden) && b[i..] == Encoding(inner);
    }
  }
}
