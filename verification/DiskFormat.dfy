/** The byte formats of the log and the index of the disk store. */
module DiskFormat {
  import opened Options
  import opened Lts
  import Order
  import opened Seqs
  import Utf8

  const NEWLINE: Byte := 10
  const RETURN: Byte := 13

  // --------------------------------------------------------------------- hex

  function HexDigit(n: nat): Byte
    requires n < 16
  {
    if n < 10 then 48 + n else 87 + n
  }

  /** Both cases are read, lower case is written. */
  function Nibble(b: Byte): (r: Option<nat>)
    ensures r.Some? ==> r.value < 16
  {
    if 48 <= b <= 57 then Some(b - 48)
    else if 97 <= b <= 102 then Some(b - 87)
    else if 65 <= b <= 70 then Some(b - 55)
    else None
  }

  function HexEncode(b: Bytes): (h: Bytes)
    ensures |h| == 2 * |b|
  {
    if b == [] then [] else [HexDigit(b[0] / 16), HexDigit(b[0] % 16)] + HexEncode(b[1..])
  }

  function HexDecode(h: Bytes): Option<Bytes> {
    if h == [] then Some([])
    else if |h| == 1 then None
    else
      var high, low, rest := Nibble(h[0]), Nibble(h[1]), HexDecode(h[2..]);
      if high.Some? && low.Some? && rest.Some? then Some([high.value * 16 + low.value] + rest.value) else None
  }

  lemma {:induction false} HexRoundTrip(b: Bytes)
    ensures HexDecode(HexEncode(b)) == Some(b)
    ensures forall x | x in HexEncode(b) :: Nibble(x).Some?
  {
    if b != [] {
      HexRoundTrip(b[1..]);
      assert HexEncode(b)[2..] == HexEncode(b[1..]);
      assert b == [b[0]] + b[1..];
    }
  }

  lemma {:induction false} AsciiIsUtf8(b: Bytes)
    requires forall i | 0 <= i < |b| :: b[i] < 128
    ensures Utf8.Decode(b).Some?
  {
    if b != [] { AsciiIsUtf8(b[1..]); }
  }

  // ------------------------------------------------------------------- lines

  /** The position of the first newline, or the length when there is none. */
  function LineEnd(b: Bytes): (n: nat)
    ensures n <= |b| && (n < |b| ==> b[n] == NEWLINE) && NEWLINE !in b[..n]
  {
    if b == [] || b[0] == NEWLINE then 0
    else
      assert b[..1 + LineEnd(b[1..])] == [b[0]] + b[1..][..LineEnd(b[1..])];
      1 + LineEnd(b[1..])
  }

  lemma {:induction false} LineEndIs(line: Bytes, rest: Bytes)
    requires NEWLINE !in line && (rest == [] || rest[0] == NEWLINE)
    ensures LineEnd(line + rest) == |line|
  {
    if line != [] {
      LineEndIs(line[1..], rest);
      assert (line + rest)[1..] == line[1..] + rest;
    } else {
      assert line + rest == rest;
    }
  }

  function TrimReturns(line: Bytes): Bytes {
    if line != [] && line[|line| - 1] == RETURN then TrimReturns(line[..|line| - 1]) else line
  }

  function TrimOneReturn(line: Bytes): Bytes {
    if line != [] && line[|line| - 1] == RETURN then line[..|line| - 1] else line
  }

  /** The lines of a file: terminated by a newline, or the last one by the end. */
  function LinesOf(b: Bytes): seq<Bytes>
    decreases |b|
  {
    if b == [] then []
    else
      var n := LineEnd(b);
      if n == |b| then [b] else [TrimOneReturn(b[..n])] + LinesOf(b[n + 1..])
  }

  /** A record as it is written. */
  function Line(record: Bytes): Bytes {
    HexEncode(record) + [NEWLINE]
  }

  lemma LineIsPlain(record: Bytes)
    ensures NEWLINE !in HexEncode(record)
    ensures TrimReturns(HexEncode(record)) == HexEncode(record) && TrimOneReturn(HexEncode(record)) == HexEncode(record)
    ensures Utf8.Decode(HexEncode(record)).Some?
    ensures record != [] ==> HexEncode(record) != []
  {
    HexRoundTrip(record);
    assert Nibble(NEWLINE).None? && Nibble(RETURN).None?;
    forall i | 0 <= i < |HexEncode(record)| ensures HexEncode(record)[i] < 128 { assert HexEncode(record)[i] in HexEncode(record); }
    AsciiIsUtf8(HexEncode(record));
  }

  // --------------------------------------------------------------------- log

  datatype Outcome<T> = Done(value: T) | InvalidInput | InvalidData | Crashed

  /** The record a line of hex stands for, if the codec takes it. */
  function ValidatedRecord(line: Bytes, valid: Bytes -> bool): Option<Bytes> {
    var record := HexDecode(line);
    if record.Some? && record.value != [] && valid(record.value) then record else None
  }

  /** Collects the records of all complete lines, and where the last of them ends. */
  function ScanLog(data: Bytes, valid: Bytes -> bool, index: set<Bytes>, consumed: nat): Outcome<(set<Bytes>, nat)>
    decreases |data|
  {
    var n := LineEnd(data);
    if n == |data| then Done((index, consumed))
    else
      var added := ScanLine(data[..n], valid, index);
      if added.Done? then ScanLog(data[n + 1..], valid, added.value, consumed + n + 1) else InvalidData
  }

  function ScanLine(line: Bytes, valid: Bytes -> bool, index: set<Bytes>): Outcome<set<Bytes>> {
    if line == [] then Done(index)
    else if Utf8.Decode(line).None? then InvalidData
    else
      var text := TrimReturns(line);
      if text == [] then Done(index)
      else
        var record := ValidatedRecord(text, valid);
        if record.Some? then Done(index + {record.value}) else InvalidData
  }

  /** The log that holds the records, in order. */
  function LogOf(records: seq<Bytes>): Bytes {
    if records == [] then [] else LogOf(records[..|records| - 1]) + Line(records[|records| - 1])
  }

  ghost predicate AllValid(records: seq<Bytes>, valid: Bytes -> bool) {
    forall r | r in records :: r != [] && valid(r)
  }

  lemma LogSnoc(records: seq<Bytes>, r: Bytes)
    ensures LogOf(records + [r]) == LogOf(records) + Line(r) && Members(records + [r]) == Members(records) + {r}
  {
    assert (records + [r])[..|records|] == records;
  }

  lemma {:induction false} LogFront(r: Bytes, records: seq<Bytes>)
    ensures LogOf([r] + records) == Line(r) + LogOf(records)
  {
    hide Line;
    if records == [] {
      assert [r] + records == [r];
      assert LogOf([r][..0]) == [];
    } else {
      var n := |records| - 1;
      LogFront(r, records[..n]);
      assert ([r] + records)[..n + 1] == [r] + records[..n];
    }
  }

  lemma ScanRecordLine(r: Bytes, valid: Bytes -> bool, index: set<Bytes>)
    requires r != [] && valid(r)
    ensures ScanLine(HexEncode(r), valid, index) == Done(index + {r})
  {
    LineIsPlain(r);
    HexRoundTrip(r);
  }

  /** Scanning goes on after a complete line, if that is in order. */
  lemma ScanStep(line: Bytes, more: Bytes, valid: Bytes -> bool, index: set<Bytes>, consumed: nat)
    requires NEWLINE !in line
    ensures var added := ScanLine(line, valid, index);
            ScanLog(line + [NEWLINE] + more, valid, index, consumed)
              == if added.Done? then ScanLog(more, valid, added.value, consumed + |line| + 1) else InvalidData
  {
    hide ScanLine, LineEnd;
    var data := line + [NEWLINE] + more;
    assert data == line + ([NEWLINE] + more);
    LineEndIs(line, [NEWLINE] + more);
    assert data[..|line|] == line && data[|line| + 1..] == more;
  }

  lemma ScanTail(tail: Bytes, valid: Bytes -> bool, index: set<Bytes>, consumed: nat)
    requires NEWLINE !in tail
    ensures ScanLog(tail, valid, index, consumed) == Done((index, consumed))
  {
    hide LineEnd;
    assert tail + [] == tail;
    LineEndIs(tail, []);
  }

  lemma LogEmpty()
    ensures LogOf([]) == [] && Members<Bytes>([]) == {}
  {}

  /** Whatever follows the last newline of a log, its scan finds the complete records. */
  lemma {:induction false} ScanFinds(records: seq<Bytes>, tail: Bytes, valid: Bytes -> bool, index: set<Bytes>, consumed: nat)
    requires AllValid(records, valid) && NEWLINE !in tail
    ensures ScanLog(LogOf(records) + tail, valid, index, consumed) == Done((index + Members(records), consumed + |LogOf(records)|))
    decreases |records|
  {
    hide HexEncode, ScanLine, ScanLog, LogOf;
    if records == [] {
      LogEmpty();
      assert LogOf(records) + tail == tail;
      ScanTail(tail, valid, index, consumed);
      assert index + Members(records) == index;
    } else {
      var r, more := records[0], LogOf(records[1..]) + tail;
      assert r in records && records == [r] + records[1..];
      LogFront(r, records[1..]);
      assert LogOf(records) + tail == HexEncode(r) + [NEWLINE] + more;
      LineIsPlain(r);
      ScanRecordLine(r, valid, index);
      ScanStep(HexEncode(r), more, valid, index, consumed);
      ScanFinds(records[1..], tail, valid, index + {r}, consumed + |HexEncode(r)| + 1);
      assert index + {r} + Members(records[1..]) == index + Members(records);
    }
  }

  // ------------------------------------------------------------------- index

  /** The ASCII bytes of "cspx-disk-index-v1". */
  const INDEX_MAGIC: Bytes := [99, 115, 112, 120, 45, 100, 105, 115, 107, 45, 105, 110, 100, 101, 120, 45, 118, 49]

  /** The ASCII bytes of " log_len=". */
  const LOG_LEN: Bytes := [32, 108, 111, 103, 95, 108, 101, 110, 61]

  function Decimal(n: nat): (d: Bytes)
    ensures d != [] && forall i | 0 <= i < |d| :: 48 <= d[i] <= 57
  {
    (if n < 10 then [] else Decimal(n / 10)) + [48 + n % 10]
  }

  function ParseDigits(d: Bytes): Option<nat> {
    if d == [] then Some(0)
    else
      var n, last := |d| - 1, d[|d| - 1];
      var front := ParseDigits(d[..n]);
      if front.None? || last < 48 || last > 57 then None else Some(front.value * 10 + (last - 48))
  }

  /** An unsigned 64-bit integer, with an optional plus sign. */
  function ParseU64(b: Bytes): Option<nat> {
    var digits := if b != [] && b[0] == 43 then b[1..] else b;
    if digits == [] then None
    else
      var n := ParseDigits(digits);
      if n.Some? && n.value >= 0x1_0000_0000_0000_0000 then None else n
  }

  lemma {:induction false} DigitsRoundTrip(n: nat)
    ensures ParseDigits(Decimal(n)) == Some(n)
  {
    var d := Decimal(n);
    if n >= 10 {
      DigitsRoundTrip(n / 10);
      assert d[..|d| - 1] == Decimal(n / 10);
    } else {
      assert d[..0] == [];
    }
  }

  function StripPrefix(b: Bytes, prefix: Bytes): Option<Bytes> {
    if prefix <= b then Some(b[|prefix|..]) else None
  }

  function Header(len: nat): Bytes {
    INDEX_MAGIC + LOG_LEN + Decimal(len)
  }

  function ParseHeader(line: Bytes): Option<nat> {
    var rest := StripPrefix(TrimReturns(line), INDEX_MAGIC);
    if rest.None? then None
    else
      var value := StripPrefix(rest.value, LOG_LEN);
      if value.None? then None else ParseU64(value.value)
  }

  predicate Plain(line: Bytes) {
    forall i | 0 <= i < |line| :: 32 <= line[i] < 128
  }

  lemma PlainLine(line: Bytes)
    requires Plain(line)
    ensures NEWLINE !in line && TrimReturns(line) == line && TrimOneReturn(line) == line && Utf8.Decode(line).Some?
  {
    AsciiIsUtf8(line);
  }

  lemma HeaderRoundTrip(len: nat)
    ensures Plain(Header(len))
    ensures ParseHeader(Header(len)) == if len < 0x1_0000_0000_0000_0000 then Some(len) else None
  {
    hide Decimal, ParseDigits;
    var magic, key, d := INDEX_MAGIC, LOG_LEN, Decimal(len);
    assert Plain(INDEX_MAGIC) && Plain(LOG_LEN);
    assert Plain(Header(len));
    PlainLine(Header(len));
    assert Header(len)[|magic|..] == key + d && (key + d)[|key|..] == d;
    DigitsRoundTrip(len);
  }

  /** The records that the lines stand for. */
  function LoadRecords(lines: seq<Bytes>, valid: Bytes -> bool, index: set<Bytes>): (r: Outcome<Option<set<Bytes>>>)
    ensures r.Done? || r.InvalidData?
  {
    if lines == [] then Done(Some(index))
    else if Utf8.Decode(lines[0]).None? then InvalidData
    else if lines[0] == [] then LoadRecords(lines[1..], valid, index)
    else
      var record := ValidatedRecord(lines[0], valid);
      if record.None? then InvalidData else LoadRecords(lines[1..], valid, index + {record.value})
  }

  /** The index in a file, if it is one for a log of the expected length. */
  function LoadIndex(file: Bytes, valid: Bytes -> bool, expected: nat): (r: Outcome<Option<set<Bytes>>>)
    ensures r.Done? || r.InvalidData?
  {
    var lines := LinesOf(file);
    if lines == [] then Done(None)
    else if Utf8.Decode(lines[0]).None? then InvalidData
    else if ParseHeader(lines[0]) != Some(expected) then Done(None)
    else LoadRecords(lines[1..], valid, {})
  }

  function Joined(lines: seq<Bytes>): Bytes {
    if lines == [] then [] else lines[0] + [NEWLINE] + Joined(lines[1..])
  }

  ghost predicate HexLines(lines: seq<Bytes>, records: set<Bytes>) {
    && (forall x | x in lines :: HexDecode(x).Some? && HexDecode(x).value in records && x == HexEncode(HexDecode(x).value))
    && (forall r | r in records :: HexEncode(r) in lines)
  }

  /** The index file of a set of records: a header and their sorted lines. */
  ghost predicate IsIndexFile(file: Bytes, records: set<Bytes>, len: nat) {
    exists lines :: Order.StrictlySorted(lines) && HexLines(lines, records) && file == Header(len) + [NEWLINE] + Joined(lines)
  }

  lemma FirstLine(b: Bytes)
    requires LineEnd(b) < |b|
    ensures LinesOf(b) == [TrimOneReturn(b[..LineEnd(b)])] + LinesOf(b[LineEnd(b) + 1..])
  {
    hide LineEnd, TrimOneReturn;
  }

  lemma LinesStep(line: Bytes, more: Bytes)
    requires Plain(line)
    ensures LinesOf(line + [NEWLINE] + more) == [line] + LinesOf(more)
  {
    hide LinesOf;
    PlainLine(line);
    hide Plain, TrimOneReturn, LineEnd;
    var b := line + [NEWLINE] + more;
    assert b == line + ([NEWLINE] + more);
    LineEndIs(line, [NEWLINE] + more);
    assert b[..|line|] == line && b[|line| + 1..] == more;
    FirstLine(b);
  }

  lemma {:induction false} JoinedLines(lines: seq<Bytes>)
    requires forall x | x in lines :: Plain(x)
    ensures LinesOf(Joined(lines)) == lines
  {
    hide LinesOf, Plain;
    if lines == [] {
      assert LinesOf(Joined(lines)) == [] by { NoLines(); }
    } else {
      assert lines[0] in lines;
      LinesStep(lines[0], Joined(lines[1..]));
      JoinedLines(lines[1..]);
    }
  }

  lemma NoLines()
    ensures LinesOf([]) == []
  {}

  lemma HexIsPlain(record: Bytes)
    ensures Plain(HexEncode(record))
  {
    HexRoundTrip(record);
    forall i | 0 <= i < |HexEncode(record)| ensures 32 <= HexEncode(record)[i] < 128 {
      assert HexEncode(record)[i] in HexEncode(record);
    }
  }

  ghost function Decoded(lines: seq<Bytes>): set<Bytes> {
    set x | x in lines && HexDecode(x).Some? :: HexDecode(x).value
  }

  lemma {:induction false} LoadsRecords(lines: seq<Bytes>, valid: Bytes -> bool, index: set<Bytes>)
    requires forall x | x in lines :: HexDecode(x).Some? && x == HexEncode(HexDecode(x).value) && HexDecode(x).value != [] && valid(HexDecode(x).value)
    ensures LoadRecords(lines, valid, index) == Done(Some(index + Decoded(lines)))
  {
    hide HexDecode, HexEncode, Utf8.Decode;
    if lines != [] {
      var x := lines[0];
      assert x in lines;
      var r := HexDecode(x).value;
      LineIsPlain(r);
      LoadsRecords(lines[1..], valid, index + {r});
      assert index + {r} + Decoded(lines[1..]) == index + Decoded(lines);
    } else {
      assert index + Decoded(lines) == index;
    }
  }

  /** An index file is loaded exactly for the log length it names, with its records. */
  lemma IndexLoads(file: Bytes, records: set<Bytes>, len: nat, valid: Bytes -> bool, expected: nat)
    requires IsIndexFile(file, records, len) && forall r | r in records :: r != [] && valid(r)
    ensures LoadIndex(file, valid, expected) == Done(if len == expected < 0x1_0000_0000_0000_0000 then Some(records) else None)
  {
    hide HexEncode, HexDecode, Header, ParseHeader, LinesOf, Joined, Plain, Utf8.Decode;
    var lines :| Order.StrictlySorted(lines) && HexLines(lines, records) && file == Header(len) + [NEWLINE] + Joined(lines);
    HeaderRoundTrip(len);
    PlainLine(Header(len));
    LinesStep(Header(len), Joined(lines));
    forall x | x in lines ensures Plain(x) { HexIsPlain(HexDecode(x).value); }
    JoinedLines(lines);
    assert LinesOf(file)[1..] == lines;
    LoadsRecords(lines, valid, {});
    assert {} + Decoded(lines) == records by {
      forall r | r in records ensures r in Decoded(lines) { HexRoundTrip(r); }
    }
  }
}
