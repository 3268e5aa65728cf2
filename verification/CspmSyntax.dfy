/** The parsed CSPM module and its type checker. */
module CspmSyntax {
  import opened Options

  /** Unsigned 64-bit integers. */
  type U64 = n: nat | n < 0x1_0000_0000_0000_0000

  datatype DomainDecl = RangeDecl(min: U64, max: U64) | NamedType(name: string)

  datatype ChannelDecl = ChannelDecl(names: seq<string>, domain: Option<DomainDecl>)

  datatype EventValue = Int(n: U64) | Ident(name: string)

  datatype EventInput = Const(n: U64) | Bind(name: string)

  datatype EventSeg = Dot(value: EventValue) | Out(value: EventValue) | In(input: EventInput)

  datatype Event = Event(channel: string, seg: Option<EventSeg>)

  datatype ChoiceKind = External | Internal

  datatype ParallelKind = Interleaving | Interface

  datatype Process =
    | Stop
    | Ref(name: string)
    | Prefix(event: Event, next: Process)
    | Choice(kind: ChoiceKind, left: Process, right: Process)
    | Parallel(pkind: ParallelKind, left: Process, right: Process, sync: Option<seq<string>>)
    | Hide(inner: Process, hidden: seq<string>)

  datatype ProcessDecl = ProcessDecl(name: string, expr: Process)

  datatype PropertyKind = DeadlockFree | DivergenceFree | Deterministic

  /** What a module asserts; the semantic model that goes with it is left out, as no
      checker looks at it. */
  datatype Assertion = AssertProperty(target: string, kind: PropertyKind) | AssertRefinement(spec: string, impl: string)

  datatype Module =
    Module(channels: seq<ChannelDecl>, declarations: seq<ProcessDecl>, assertions: seq<Assertion>, entry: Option<Process>)

  /** What a channel carries. */
  datatype Domain = Unit | IntRange(min: U64, max: U64)

  datatype TypeError =
    | UndefinedProcess | UndefinedChannel | UndefinedVariable
    | UnexpectedPayload | MissingPayload | UnsupportedDot
    | OutOfRange | DomainMismatch | DuplicateBinding
    | InvalidDomain | UnsupportedDomain | DuplicateChannel | DuplicateProcess

  datatype Outcome<T> = Ok(value: T) | Err(error: TypeError)

  type Channels = map<string, Domain>
  type Vars = map<string, Domain>

  function CheckIntDomain(n: U64, d: Domain, vars: Vars): Outcome<Vars>
    requires d.IntRange?
  {
    if n < d.min || n > d.max then Err(OutOfRange) else Ok(vars)
  }

  /** Checks one event; an input binding extends the variables. */
  function TypecheckEvent(event: Event, channels: Channels, vars: Vars): Outcome<Vars> {
    if event.channel !in channels then Err(UndefinedChannel)
    else
      var d := channels[event.channel];
      match (d, event.seg)
      case (Unit, None) => Ok(vars)
      case (Unit, Some(_)) => Err(UnexpectedPayload)
      case (IntRange(_, _), None) => Err(MissingPayload)
      case (IntRange(_, _), Some(Dot(Int(n)))) => CheckIntDomain(n, d, vars)
      case (IntRange(_, _), Some(Dot(Ident(_)))) => Err(UnsupportedDot)
      case (IntRange(_, _), Some(Out(Int(n)))) => CheckIntDomain(n, d, vars)
      case (IntRange(_, _), Some(Out(Ident(x)))) =>
        if x !in vars then Err(UndefinedVariable)
        else if vars[x] != d then Err(DomainMismatch)
        else Ok(vars)
      case (IntRange(_, _), Some(In(Const(n)))) => CheckIntDomain(n, d, vars)
      case (IntRange(_, _), Some(In(Bind(x)))) =>
        if x in vars then Err(DuplicateBinding) else Ok(vars[x := d])
  }

  function TypecheckProcess(e: Process, channels: Channels, processes: set<string>, vars: Vars): Outcome<()> {
    match e
    case Stop => Ok(())
    case Ref(name) => if name in processes then Ok(()) else Err(UndefinedProcess)
    case Prefix(event, next) =>
      (match TypecheckEvent(event, channels, vars)
       case Err(error) => Err(error)
       case Ok(vars') => TypecheckProcess(next, channels, processes, vars'))
    case Choice(_, left, right) =>
      (match TypecheckProcess(left, channels, processes, vars)
       case Err(error) => Err(error)
       case Ok(_) => TypecheckProcess(right, channels, processes, vars))
    case Parallel(_, left, right, sync) =>
      (match TypecheckProcess(left, channels, processes, vars)
       case Err(error) => Err(error)
       case Ok(_) =>
         match TypecheckProcess(right, channels, processes, vars)
         case Err(error) => Err(error)
         case Ok(_) => if sync.Some? then TypecheckEventSet(sync.value, channels) else Ok(()))
    case Hide(inner, hidden) =>
      (match TypecheckProcess(inner, channels, processes, vars)
       case Err(error) => Err(error)
       case Ok(_) => TypecheckEventSet(hidden, channels))
  }

  function TypecheckEventSet(names: seq<string>, channels: Channels): Outcome<()> {
    if forall x | x in names :: x in channels then Ok(()) else Err(UndefinedChannel)
  }

  // ------------------------------------------------------------- modules

  /** What one declaration of channels means, without any check. */
  function DomainOf(d: Option<DomainDecl>): Domain {
    match d
    case None => Unit
    case Some(RangeDecl(min, max)) => IntRange(min, max)
    case Some(NamedType(_)) => Unit
  }

  /** Whether the domain of a declaration is supported; the compiler does not look
      at the bounds of a range, the type checker does. */
  predicate Supported(d: Option<DomainDecl>, checkRanges: bool) {
    d.Some? ==> d.value.RangeDecl? && (checkRanges ==> d.value.min <= d.value.max)
  }

  function Entries(names: seq<string>, d: Domain): seq<(string, Domain)> {
    seq(|names|, i requires 0 <= i < |names| => (names[i], d))
  }

  /** All declared channels with their domains, in order. */
  function Declared(decls: seq<ChannelDecl>): seq<(string, Domain)> {
    if decls == [] then []
    else
      var d := decls[|decls| - 1];
      Declared(decls[..|decls| - 1]) + Entries(d.names, DomainOf(d.domain))
  }

  ghost predicate DistinctKeys<T>(s: seq<(string, T)>) {
    forall i, j | 0 <= i < j < |s| :: s[i].0 != s[j].0
  }

  function Keyed<T>(s: seq<(string, T)>): map<string, T> {
    if s == [] then map[] else Keyed(s[..|s| - 1])[s[|s| - 1].0 := s[|s| - 1].1]
  }

  ghost function ProcessNames(m: Module): set<string> {
    set d | d in m.declarations :: d.name
  }

  ghost predicate TypedIn(e: Process, m: Module) {
    TypecheckProcess(e, Keyed(Declared(m.channels)), ProcessNames(m), map[]).Ok?
  }

  function Targets(a: Assertion): seq<string> {
    match a
    case AssertProperty(target, _) => [target]
    case AssertRefinement(spec, impl) => [spec, impl]
  }

  ghost predicate TargetsDeclared(a: Assertion, processes: set<string>) {
    forall x | x in Targets(a) :: x in processes
  }

  /** What the type checker accepts. */
  ghost predicate Accepted(m: Module) {
    && (forall d | d in m.channels :: Supported(d.domain, true))
    && DistinctKeys(Declared(m.channels))
    && DistinctNames(m.declarations)
    && (forall d | d in m.declarations :: TypedIn(d.expr, m))
    && (m.entry.Some? ==> TypedIn(m.entry.value, m))
    && (forall a | a in m.assertions :: TargetsDeclared(a, ProcessNames(m)))
  }

  /** One declaration after the others. */
  lemma DeclaredSnoc(decls: seq<ChannelDecl>, d: ChannelDecl)
    ensures Declared(decls + [d]) == Declared(decls) + Entries(d.names, DomainOf(d.domain))
  {
    assert (decls + [d])[..|decls|] == decls;
  }

  lemma {:induction false} DeclaredPrefix(decls: seq<ChannelDecl>, i: nat)
    requires i <= |decls|
    ensures Declared(decls[..i]) <= Declared(decls)
    decreases |decls|
  {
    if i < |decls| {
      DeclaredPrefix(decls[..|decls| - 1], i);
      assert decls[..|decls| - 1][..i] == decls[..i];
    } else {
      assert decls[..i] == decls;
    }
  }

  lemma PrefixNotDistinct<T>(s: seq<(string, T)>, t: seq<(string, T)>)
    requires s <= t && !DistinctKeys(s)
    ensures !DistinctKeys(t)
  {
    var i, j :| 0 <= i < j < |s| && s[i].0 == s[j].0;
    assert t[i] == s[i] && t[j] == s[j];
  }

  lemma {:induction false} KeyedMembers<T>(s: seq<(string, T)>, x: string)
    ensures x in Keyed(s) <==> exists i :: 0 <= i < |s| && s[i].0 == x
    ensures x in Keyed(s) ==> exists i :: 0 <= i < |s| && s[i] == (x, Keyed(s)[x])
  {
    if s != [] {
      var n := |s| - 1;
      KeyedMembers(s[..n], x);
      if x == s[n].0 {
        assert s[n] == (x, Keyed(s)[x]);
      } else if x in Keyed(s[..n]) {
        var i :| 0 <= i < n && s[..n][i] == (x, Keyed(s[..n])[x]);
        assert s[i] == (x, Keyed(s)[x]);
      } else {
        forall i | 0 <= i < |s| ensures s[i].0 != x { if i < n { assert s[..n][i] == s[i]; } }
      }
    }
  }

  lemma KeyedSnoc<T>(s: seq<(string, T)>, e: (string, T))
    ensures Keyed(s + [e]) == Keyed(s)[e.0 := e.1]
    ensures DistinctKeys(s + [e]) <==> DistinctKeys(s) && e.0 !in Keyed(s)
  {
    assert (s + [e])[..|s|] == s;
    KeyedMembers(s, e.0);
    if DistinctKeys(s + [e]) {
      forall i | 0 <= i < |s| ensures s[i].0 != e.0 { assert (s + [e])[i].0 != (s + [e])[|s|].0; }
      forall i, j | 0 <= i < j < |s| ensures s[i].0 != s[j].0 { assert (s + [e])[i].0 != (s + [e])[j].0; }
    }
  }

  /** Enters the names of one declaration, up to the first that is already there. */
  method EnterNames(names: seq<string>, d: Domain, channels: Channels, ghost before: seq<(string, Domain)>) returns (r: Outcome<Channels>)
    requires channels == Keyed(before) && DistinctKeys(before)
    ensures r.Ok? <==> DistinctKeys(before + Entries(names, d))
    ensures r.Ok? ==> r.value == Keyed(before + Entries(names, d))
    ensures r.Err? ==> r.error == DuplicateChannel
  {
    hide Keyed, DistinctKeys;
    var entered := channels;
    ghost var all := Entries(names, d);
    assert before + all[..0] == before;
    for k := 0 to |names|
      invariant entered == Keyed(before + all[..k]) && DistinctKeys(before + all[..k])
    {
      assert before + all[..k + 1] == (before + all[..k]) + [all[k]];
      KeyedSnoc(before + all[..k], all[k]);
      if names[k] in entered {
        assert before + all[..k + 1] <= before + all;
        PrefixNotDistinct(before + all[..k + 1], before + all);
        return Err(DuplicateChannel);
      }
      entered := entered[names[k] := d];
    }
    assert all[..|all|] == all;
    r := Ok(entered);
  }

  /** Enters the channels of all declarations into a map, rejecting the first one
      that is declared twice or whose domain is not supported. */
  method CollectChannels(decls: seq<ChannelDecl>, checkRanges: bool) returns (r: Outcome<Channels>)
    ensures r.Ok? <==> DistinctKeys(Declared(decls)) && forall d | d in decls :: Supported(d.domain, checkRanges)
    ensures r.Ok? ==> r.value == Keyed(Declared(decls))
    ensures r.Ok? <==> NoChannelTwice(decls) && DomainsFit(decls, checkRanges)
    ensures r.Ok? ==> ChannelsAre(decls, r.value)
  {
    hide Keyed, DistinctKeys, Entries, Declared, NoChannelTwice, DomainsFit, ChannelsAre;
    DistinctIsNoTwice(decls);
    SupportedIsFit(decls, checkRanges);
    if DistinctKeys(Declared(decls)) { KeyedIsDeclared(decls); }
    var channels: Channels := map[];
    NoneDeclared(decls);
    for i := 0 to |decls|
      invariant channels == Keyed(Declared(decls[..i])) && DistinctKeys(Declared(decls[..i]))
      invariant forall k | 0 <= k < i :: Supported(decls[k].domain, checkRanges)
    {
      var d := decls[i];
      assert d in decls;
      if d.domain.Some? && d.domain.value.NamedType? {
        return Err(UnsupportedDomain);
      }
      if checkRanges && d.domain.Some? && d.domain.value.min > d.domain.value.max {
        return Err(InvalidDomain);
      }
      assert decls[..i + 1] == decls[..i] + [d];
      DeclaredSnoc(decls[..i], d);
      var entered := EnterNames(d.names, DomainOf(d.domain), channels, Declared(decls[..i]));
      if entered.Err? {
        DeclaredPrefix(decls, i + 1);
        PrefixNotDistinct(Declared(decls[..i + 1]), Declared(decls));
        return entered;
      }
      channels := entered.value;
    }
    assert decls[..|decls|] == decls;
    r := Ok(channels);
  }

  lemma NoneDeclared(decls: seq<ChannelDecl>)
    ensures Keyed(Declared(decls[..0])) == map[] && DistinctKeys(Declared(decls[..0]))
  {}

  /** The top-level expression, or else the only process declared. */
  ghost predicate IsEntry(m: Module, e: Process) {
    m.entry == Some(e) || (m.entry.None? && |m.declarations| == 1 && m.declarations[0].expr == e)
  }

  // ------------------------------------------ channels, said of declarations

  ghost predicate Declares(decls: seq<ChannelDecl>, ch: string, domain: Option<DomainDecl>) {
    exists d :: d in decls && ch in d.names && d.domain == domain
  }

  /** The value is in a range declared for the channel. */
  ghost predicate Carries(decls: seq<ChannelDecl>, ch: string, v: U64) {
    exists min: U64, max: U64 :: Declares(decls, ch, Some(RangeDecl(min, max))) && min <= v <= max
  }

  /** The `j`-th name of the `i`-th declaration. */
  ghost predicate NameAt(decls: seq<ChannelDecl>, i: nat, j: nat, ch: string) {
    i < |decls| && j < |decls[i].names| && decls[i].names[j] == ch
  }

  /** No name is declared in two places. */
  ghost predicate NoChannelTwice(decls: seq<ChannelDecl>) {
    forall i: nat, j: nat, k: nat, l: nat, ch | NameAt(decls, i, j, ch) && NameAt(decls, k, l, ch) :: i == k && j == l
  }

  /** No domain is a named type, and where it matters no range is empty. */
  ghost predicate DomainsFit(decls: seq<ChannelDecl>, checkRanges: bool) {
    forall d | d in decls ::
      match d.domain
      case None => true
      case Some(RangeDecl(min, max)) => checkRanges ==> min <= max
      case Some(NamedType(_)) => false
  }

  /** The channels are the declared names; one without a domain carries nothing, and a
      range carries its numbers from the first to the last. */
  ghost predicate ChannelsAre(decls: seq<ChannelDecl>, channels: Channels) {
    && (forall ch :: ch in channels <==> exists domain :: Declares(decls, ch, domain))
    && (forall ch | Declares(decls, ch, None) :: ch in channels && channels[ch] == Unit)
    && forall ch, min: U64, max: U64 | Declares(decls, ch, Some(RangeDecl(min, max))) ::
         ch in channels && channels[ch].IntRange? && channels[ch].min == min && channels[ch].max == max
  }

  ghost function Offset(decls: seq<ChannelDecl>, i: nat): nat
    requires i <= |decls|
  {
    |Declared(decls[..i])|
  }

  lemma OffsetNext(decls: seq<ChannelDecl>, i: nat)
    requires i < |decls|
    ensures Offset(decls, i + 1) == Offset(decls, i) + |decls[i].names|
    ensures Declared(decls[..i + 1]) == Declared(decls[..i]) + Entries(decls[i].names, DomainOf(decls[i].domain))
  {
    assert decls[..i + 1] == decls[..i] + [decls[i]];
    DeclaredSnoc(decls[..i], decls[i]);
  }

  lemma {:induction false} OffsetsGrow(decls: seq<ChannelDecl>, i: nat, k: nat)
    requires i <= k <= |decls|
    ensures Offset(decls, i) <= Offset(decls, k)
  {
    if i < k {
      OffsetsGrow(decls, i, k - 1);
      OffsetNext(decls, k - 1);
    }
  }

  /** Where the name of a declaration comes in the list of all. */
  lemma EntryAt(decls: seq<ChannelDecl>, i: nat, j: nat, ch: string)
    requires NameAt(decls, i, j, ch)
    ensures Offset(decls, i) + j < |Declared(decls)| && Declared(decls)[Offset(decls, i) + j] == (ch, DomainOf(decls[i].domain))
  {
    hide Declared;
    OffsetNext(decls, i);
    DeclaredPrefix(decls, i + 1);
    assert Declared(decls)[Offset(decls, i) + j] == Declared(decls[..i + 1])[Offset(decls, i) + j];
  }

  lemma {:induction false} PlaceOfEntry(decls: seq<ChannelDecl>, i: nat, n: nat) returns (k: nat, j: nat)
    requires i <= |decls| && n < Offset(decls, i)
    ensures k < i && j < |decls[k].names| && n == Offset(decls, k) + j
  {
    hide Declared;
    assert i > 0 by { NothingDeclared(decls); }
    OffsetNext(decls, i - 1);
    if n < Offset(decls, i - 1) {
      k, j := PlaceOfEntry(decls, i - 1, n);
    } else {
      k, j := i - 1, n - Offset(decls, i - 1);
    }
  }

  lemma NothingDeclared(decls: seq<ChannelDecl>)
    ensures Offset(decls, 0) == 0
  {}

  lemma {:induction false} DistinctIsNoTwice(decls: seq<ChannelDecl>)
    ensures DistinctKeys(Declared(decls)) <==> NoChannelTwice(decls)
  {
    hide Declared;
    assert decls[..|decls|] == decls;
    if NoChannelTwice(decls) {
      forall n, o | 0 <= n < o < |Declared(decls)| ensures Declared(decls)[n].0 != Declared(decls)[o].0 {
        var i, j := PlaceOfEntry(decls, |decls|, n);
        var k, l := PlaceOfEntry(decls, |decls|, o);
        EntryAt(decls, i, j, decls[i].names[j]);
        EntryAt(decls, k, l, decls[k].names[l]);
        assert NameAt(decls, i, j, decls[i].names[j]) && NameAt(decls, k, l, decls[k].names[l]);
      }
    }
    if DistinctKeys(Declared(decls)) {
      forall i: nat, j: nat, k: nat, l: nat, ch | NameAt(decls, i, j, ch) && NameAt(decls, k, l, ch) ensures i == k && j == l {
        EntryAt(decls, i, j, ch);
        EntryAt(decls, k, l, ch);
        assert Offset(decls, i) + j == Offset(decls, k) + l;
        OffsetNext(decls, i);
        OffsetNext(decls, k);
        if i < k { OffsetsGrow(decls, i + 1, k); }
        if k < i { OffsetsGrow(decls, k + 1, i); }
      }
    }
  }

  lemma DeclaredOnce(decls: seq<ChannelDecl>, ch: string, domain: Option<DomainDecl>)
    requires DistinctKeys(Declared(decls)) && Declares(decls, ch, domain)
    ensures ch in Keyed(Declared(decls)) && Keyed(Declared(decls))[ch] == DomainOf(domain)
  {
    hide Declared, Keyed;
    var d :| d in decls && ch in d.names && d.domain == domain;
    var i :| 0 <= i < |decls| && decls[i] == d;
    var j :| 0 <= j < |d.names| && d.names[j] == ch;
    EntryAt(decls, i, j, ch);
    KeyedMembers(Declared(decls), ch);
  }

  /** The map of channels is what the declarations say. */
  lemma KeyedIsDeclared(decls: seq<ChannelDecl>)
    requires DistinctKeys(Declared(decls))
    ensures ChannelsAre(decls, Keyed(Declared(decls)))
  {
    hide Declared, Keyed, Declares;
    var channels := Keyed(Declared(decls));
    forall ch, domain | Declares(decls, ch, domain) ensures ch in channels && channels[ch] == DomainOf(domain) {
      DeclaredOnce(decls, ch, domain);
    }
    forall ch | ch in channels ensures exists domain :: Declares(decls, ch, domain) {
      KeyedMembers(Declared(decls), ch);
      var n :| 0 <= n < |Declared(decls)| && Declared(decls)[n].0 == ch;
      assert decls[..|decls|] == decls;
      var i, j := PlaceOfEntry(decls, |decls|, n);
      EntryAt(decls, i, j, decls[i].names[j]);
      DeclaresIt(decls, i, ch);
    }
  }

  lemma DeclaresIt(decls: seq<ChannelDecl>, i: nat, ch: string)
    requires i < |decls| && ch in decls[i].names
    ensures Declares(decls, ch, decls[i].domain)
  {}

  lemma SupportedIsFit(decls: seq<ChannelDecl>, checkRanges: bool)
    ensures (forall d | d in decls :: Supported(d.domain, checkRanges)) <==> DomainsFit(decls, checkRanges)
  {}

  ghost predicate DistinctNames(decls: seq<ProcessDecl>) {
    forall i, j | 0 <= i < j < |decls| :: decls[i].name != decls[j].name
  }

  /** The names of the declared processes, unless one is declared twice. */
  method CollectNames(decls: seq<ProcessDecl>) returns (r: Option<set<string>>)
    ensures r.Some? <==> DistinctNames(decls)
    ensures r.Some? ==> r.value == set d | d in decls :: d.name
  {
    var names: set<string> := {};
    for i := 0 to |decls|
      invariant names == set d | d in decls[..i] :: d.name
      invariant forall j, k | 0 <= j < k < i :: decls[j].name != decls[k].name
    {
      var d := decls[i];
      assert decls[..i + 1] == decls[..i] + [d];
      if d.name in names {
        ghost var e :| e in decls[..i] && e.name == d.name;
        ghost var j :| 0 <= j < i && decls[j] == e;
        return None;
      }
      forall j | 0 <= j < i ensures decls[j].name != d.name { assert decls[j] in decls[..i]; }
      names := names + {d.name};
    }
    assert decls[..|decls|] == decls;
    r := Some(names);
  }

  // --------------------------------------- typing, said of declarations

  /** What an event with a payload may carry on a channel with the range, and the
      variables after it. */
  ghost predicate AllowsPayload(seg: Option<EventSeg>, min: U64, max: U64, vars: Vars, vars': Vars) {
    match seg
    case None => false
    case Some(Dot(Int(v))) => min <= v <= max && vars' == vars
    case Some(Dot(Ident(_))) => false
    case Some(Out(Int(v))) => min <= v <= max && vars' == vars
    case Some(Out(Ident(x))) => x in vars && vars[x] == IntRange(min, max) && vars' == vars
    case Some(In(Const(v))) => min <= v <= max && vars' == vars
    case Some(In(Bind(x))) => x !in vars && vars' == vars[x := IntRange(min, max)]
  }

  ghost predicate AllowsEvent(decls: seq<ChannelDecl>, event: Event, vars: Vars, vars': Vars) {
    || (Declares(decls, event.channel, None) && event.seg.None? && vars' == vars)
    || exists min: U64, max: U64 ::
         Declares(decls, event.channel, Some(RangeDecl(min, max))) && AllowsPayload(event.seg, min, max, vars, vars')
  }

  ghost predicate HasProcess(m: Module, x: string) {
    exists d :: d in m.declarations && d.name == x
  }

  ghost predicate HasChannels(decls: seq<ChannelDecl>, names: seq<string>) {
    forall ch | ch in names :: exists domain :: Declares(decls, ch, domain)
  }

  /** The expression is well typed where the variables have the given ranges. */
  ghost predicate Allows(m: Module, e: Process, vars: Vars) {
    match e
    case Stop => true
    case Ref(x) => HasProcess(m, x)
    case Prefix(event, next) => exists vars' :: AllowsEvent(m.channels, event, vars, vars') && Allows(m, next, vars')
    case Choice(_, l, r) => Allows(m, l, vars) && Allows(m, r, vars)
    case Parallel(_, l, r, sync) => Allows(m, l, vars) && Allows(m, r, vars) && (sync.Some? ==> HasChannels(m.channels, sync.value))
    case Hide(inner, hidden) => Allows(m, inner, vars) && HasChannels(m.channels, hidden)
  }

  ghost predicate AssertionAllowed(m: Module, a: Assertion) {
    match a
    case AssertProperty(target, _) => HasProcess(m, target)
    case AssertRefinement(spec, impl) => HasProcess(m, spec) && HasProcess(m, impl)
  }

  /** The module is well typed. */
  ghost predicate Allowed(m: Module) {
    && NoChannelTwice(m.channels) && DomainsFit(m.channels, true)
    && DistinctNames(m.declarations)
    && (forall d | d in m.declarations :: Allows(m, d.expr, map[]))
    && (m.entry.Some? ==> Allows(m, m.entry.value, map[]))
    && forall a | a in m.assertions :: AssertionAllowed(m, a)
  }

  ghost predicate ChannelFacts(decls: seq<ChannelDecl>, channels: Channels) {
    && ChannelsAre(decls, channels)
    && forall ch | ch in channels :: (channels[ch].Unit? && Declares(decls, ch, None))
                                     || (channels[ch].IntRange? && Declares(decls, ch, Some(RangeDecl(channels[ch].min, channels[ch].max))))
  }

  lemma ChannelsHaveFacts(decls: seq<ChannelDecl>, channels: Channels)
    requires ChannelsAre(decls, channels) && DomainsFit(decls, false)
    ensures ChannelFacts(decls, channels)
  {
    forall ch | ch in channels
      ensures (channels[ch].Unit? && Declares(decls, ch, None))
              || (channels[ch].IntRange? && Declares(decls, ch, Some(RangeDecl(channels[ch].min, channels[ch].max))))
    {
      var domain :| Declares(decls, ch, domain);
      var d :| d in decls && ch in d.names && d.domain == domain;
      match domain
      case None =>
      case Some(RangeDecl(_, _)) =>
      case Some(NamedType(_)) => assert false;
    }
  }

  lemma EventAllowedExactly(decls: seq<ChannelDecl>, channels: Channels, event: Event, vars: Vars, vars': Vars)
    requires ChannelFacts(decls, channels)
    ensures TypecheckEvent(event, channels, vars) == Ok(vars') <==> AllowsEvent(decls, event, vars, vars')
  {
    hide Declares;
  }

  lemma {:induction false} AllowedExactly(m: Module, channels: Channels, e: Process, vars: Vars)
    requires ChannelFacts(m.channels, channels)
    ensures TypecheckProcess(e, channels, ProcessNames(m), vars).Ok? <==> Allows(m, e, vars)
  {
    hide TypecheckEvent, AllowsEvent;
    match e {
      case Stop =>
      case Ref(_) =>
      case Prefix(event, next) =>
        var one := TypecheckEvent(event, channels, vars);
        forall vars' ensures one == Ok(vars') <==> AllowsEvent(m.channels, event, vars, vars') {
          EventAllowedExactly(m.channels, channels, event, vars, vars');
        }
        if one.Ok? { AllowedExactly(m, channels, next, one.value); }
      case Choice(_, l, r) =>
        AllowedExactly(m, channels, l, vars);
        AllowedExactly(m, channels, r, vars);
      case Parallel(_, l, r, sync) =>
        AllowedExactly(m, channels, l, vars);
        AllowedExactly(m, channels, r, vars);
        if sync.Some? { ChannelSetExactly(m.channels, channels, sync.value); }
      case Hide(inner, hidden) =>
        AllowedExactly(m, channels, inner, vars);
        ChannelSetExactly(m.channels, channels, hidden);
    }
  }

  lemma ChannelSetExactly(decls: seq<ChannelDecl>, channels: Channels, names: seq<string>)
    requires ChannelFacts(decls, channels)
    ensures TypecheckEventSet(names, channels).Ok? <==> HasChannels(decls, names)
  {
    hide Declares;
  }

  /** What the type checker accepts is what is well typed. */
  lemma AcceptedIsAllowed(m: Module)
    ensures Accepted(m) <==> Allowed(m)
  {
    DistinctIsNoTwice(m.channels);
    SupportedIsFit(m.channels, true);
    hide Keyed, Declared, DistinctKeys, NoChannelTwice, TypecheckProcess, Allows, ChannelFacts, DistinctNames;
    if DistinctKeys(Declared(m.channels)) && DomainsFit(m.channels, true) {
      var channels := Keyed(Declared(m.channels));
      KeyedIsDeclared(m.channels);
      ChannelsHaveFacts(m.channels, channels);
      forall e ensures TypedIn(e, m) <==> Allows(m, e, map[]) { AllowedExactly(m, channels, e, map[]); }
      forall a | a in m.assertions ensures TargetsDeclared(a, ProcessNames(m)) <==> AssertionAllowed(m, a) { TargetsExactly(m, a); }
    }
  }

  lemma TargetsExactly(m: Module, a: Assertion)
    ensures TargetsDeclared(a, ProcessNames(m)) <==> AssertionAllowed(m, a)
  {
    match a
    case AssertProperty(target, _) => assert target in Targets(a);
    case AssertRefinement(spec, impl) => assert spec in Targets(a) && impl in Targets(a);
  }

  method CheckTargets(assertions: seq<Assertion>, processes: set<string>) returns (ok: bool)
    ensures ok <==> forall a | a in assertions :: TargetsDeclared(a, processes)
  {
    for i := 0 to |assertions|
      invariant forall j | 0 <= j < i :: TargetsDeclared(assertions[j], processes)
    {
      var targets := Targets(assertions[i]);
      for k := 0 to |targets|
        invariant forall j | 0 <= j < k :: targets[j] in processes
      {
        if targets[k] !in processes {
          assert targets[k] in Targets(assertions[i]) && assertions[i] in assertions;
          return false;
        }
      }
    }
    ok := true;
  }

  /** The type checker: accepts exactly what `Accepted` describes. */
  method TypecheckModule(m: Module) returns (r: Outcome<()>)
    ensures r.Ok? <==> Accepted(m)
    ensures r.Ok? <==> Allowed(m)
  {
    hide Allowed;
    AcceptedIsAllowed(m);
    var channels := CollectChannels(m.channels, true);
    if channels.Err? {
      return Err(channels.error);
    }
    var names := CollectNames(m.declarations);
    if names.None? {
      return Err(DuplicateProcess);
    }
    var processes := names.value;
    assert processes == ProcessNames(m);
    for i := 0 to |m.declarations|
      invariant forall j | 0 <= j < i :: TypedIn(m.declarations[j].expr, m)
    {
      var one := TypecheckProcess(m.declarations[i].expr, channels.value, processes, map[]);
      if one.Err? {
        assert !TypedIn(m.declarations[i].expr, m);
        return Err(one.error);
      }
    }
    if m.entry.Some? {
      var one := TypecheckProcess(m.entry.value, channels.value, processes, map[]);
      if one.Err? {
        return Err(one.error);
      }
    }
    var targetsOk := CheckTargets(m.assertions, processes);
    if !targetsOk {
      return Err(UndefinedProcess);
    }
    r := Ok(());
  }
}
