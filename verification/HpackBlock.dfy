/**
 Header blocks of RFC 7541 section 6: what the decoder makes of any bytes, and what a list of representations means.
 */
module HpackBlock {
  import opened Bits
  import opened HuffmanCode
  import opened HuffmanTable
  import opened HpackStatic
  import opened HpackTable
  import opened HpackInteger

  /** An assertion of the source that fails counts as an outcome of its own. */
  datatype Status = Accept | Reject | AssertFailure

  /** The dynamic table and the headers so far. */
  datatype Config = Config(table: State, headers: seq<Entry>)
  {
    function With(e: Entry): Config {
      Config(table, headers + [e])
    }
  }

  datatype Outcome = Outcome(status: Status, config: Config, used: nat)

  // ---- what the decoder makes of bytes

  /** An integer whose prefix is the low bits of the first byte. */
  function Prefixed(t: seq<byte>, mask: nat): Read<uint32>
    requires t != [] && mask < 256
  {
    var first := t[0] % (mask + 1);
    if first < mask then Got(first, 1)
    else match Number(t[1..], mask)
      case Got(v, n) => Got(v, 1 + n)
      case Bad => Bad
  }

  /** The length of a string: the decoder looks for more bytes behind a zero, not behind a full prefix. */
  function LiteralLength(t: seq<byte>): (r: Read<uint32>)
    requires t != []
    ensures r.Got? ==> 1 <= r.used <= |t|
  {
    if t[0] % 128 != 0 then Got(t[0] % 128, 1)
    else match Number(t[1..], 127)
      case Got(v, n) => Got(v, 1 + n)
      case Bad => Bad
  }

  /** The payload of a string literal. A length of 0 moves the cursor by 2^32. */
  function LiteralPayload(t: seq<byte>): (r: Read<seq<byte>>)
    ensures r.Got? ==> t != [] && r.used > 1
  {
    if t == [] then Bad
    else match LiteralLength(t)
      case Bad => Bad
      case Got(v, n) => if |t| - n < v then Bad else Got(t[n..n + v], n + 1 + Uint32(v - 1))
  }

  /** A string literal; the Huffman verdict is not looked at. */
  ghost function Literal(t: seq<byte>): (r: Read<Text>)
    ensures r.Got? ==> r.used > 1
  {
    match LiteralPayload(t)
    case Bad => Bad
    case Got(payload, n) => Got(if t[0] >= 128 then Decoded(EncodeTable(), payload).out else payload, n)
  }

  /** The same with the error that section 5.2 asks for when a Huffman payload is not an encoding. */
  ghost function LiteralByRfc(t: seq<byte>): Read<Text> {
    match LiteralPayload(t)
    case Bad => Bad
    case Got(payload, n) => if t[0] >= 128 && !Decoded(EncodeTable(), payload).ok then Bad else Literal(t)
  }

  ghost function LiteralAt(t: seq<byte>, n: nat): Read<Text> {
    if n <= |t| then Literal(t[n..]) else Bad
  }

  function IndexStatus(c: Config, index: nat): Status {
    if index == 0 then AssertFailure else if HasIndex(c.table.entries, index) then Accept else Reject
  }

  function IndexedField(t: seq<byte>, c: Config): Outcome
    requires t != []
  {
    if t[0] % 128 == 0 then Outcome(Reject, c, 0)
    else match Prefixed(t, 127)
      case Bad => Outcome(Reject, c, 0)
      case Got(i, n) =>
        if IndexStatus(c, i) != Accept then Outcome(IndexStatus(c, i), c, 0)
        else Outcome(Accept, c.With(AtIndex(c.table.entries, i)), n)
  }

  datatype NameRead = NameRead(status: Status, name: Text, used: nat)

  /** The name of a literal field: a string behind the first byte, or the name of an indexed entry. */
  ghost function FieldName(t: seq<byte>, mask: nat, c: Config): (r: NameRead)
    requires t != [] && mask < 256
    ensures r.status == Accept ==> r.used > 0
  {
    if t[0] % (mask + 1) == 0 then
      match Literal(t[1..])
      case Bad => NameRead(Reject, [], 0)
      case Got(name, n) => NameRead(Accept, name, 1 + n)
    else
      match Prefixed(t, mask)
      case Bad => NameRead(Reject, [], 0)
      case Got(i, n) =>
        if IndexStatus(c, i) != Accept then NameRead(IndexStatus(c, i), [], 0)
        else NameRead(Accept, AtIndex(c.table.entries, i).name, n)
  }

  ghost function LiteralField(t: seq<byte>, mask: nat, indexing: bool, c: Config): Outcome
    requires t != [] && mask < 256
  {
    var name := FieldName(t, mask, c);
    if name.status != Accept then Outcome(name.status, c, 0)
    else match LiteralAt(t, name.used)
      case Bad => Outcome(Reject, c, 0)
      case Got(value, n) =>
        var e := Entry(name.name, value);
        var table := if indexing then c.table.After(Step.Add(e)) else c.table;
        Outcome(Accept, Config(table, c.headers + [e]), name.used + n)
  }

  function SizeUpdateField(t: seq<byte>, c: Config): Outcome
    requires t != []
  {
    match Prefixed(t, 31)
    case Bad => Outcome(Reject, c, 0)
    case Got(limit, n) => Outcome(Accept, c.(table := c.table.After(Step.Resize(limit))), n)
  }

  ghost function Field(t: seq<byte>, c: Config): (r: Outcome)
    requires t != []
    ensures r.status == Accept ==> r.used > 0
  {
    if t[0] >= 128 then IndexedField(t, c)
    else if t[0] >= 64 then LiteralField(t, 63, true, c)
    else if t[0] >= 32 then SizeUpdateField(t, c)
    else LiteralField(t, 15, false, c)
  }

  datatype BlockRead = BlockRead(status: Status, config: Config)

  /** A whole block. */
  ghost function Block(t: seq<byte>, c: Config): BlockRead
    decreases |t|
  {
    if t == [] then BlockRead(Accept, c)
    else
      var f := Field(t, c);
      if f.status != Accept then BlockRead(f.status, f.config)
      else if f.used >= |t| then BlockRead(Accept, f.config)
      else Block(t[f.used..], f.config)
  }

  // ---- representations, as section 6 writes and means them

  datatype Str = Str(huffman: bool, text: Text)

  datatype Name = NewName(text: Str) | NameAt(index: nat)

  datatype Kind = Incremental | WithoutIndexing | NeverIndexed

  datatype Repr = Indexed(index: nat) | LiteralHeader(kind: Kind, name: Name, value: Str) | SizeUpdate(limit: nat)

  function EncodeInt(high: nat, mask: nat, n: nat): (t: seq<byte>)
    requires high + mask < 256
    ensures t != []
  {
    if n < mask then [high + n] else [high + mask] + TailBytes(n - mask)
  }

  function Payload(s: Str): seq<byte> {
    if s.huffman then Encoded(EncodeTable(), s.text) else s.text
  }

  function EncodeString(s: Str): seq<byte> {
    EncodeInt(if s.huffman then 128 else 0, 127, |Payload(s)|) + Payload(s)
  }

  function EncodeName(high: nat, mask: nat, name: Name): seq<byte>
    requires high + mask < 256
  {
    match name
    case NewName(s) => [high] + EncodeString(s)
    case NameAt(i) => EncodeInt(high, mask, i)
  }

  function EncodeHeader(high: nat, mask: nat, name: Name, value: Str): seq<byte>
    requires high + mask < 256
  {
    EncodeName(high, mask, name) + EncodeString(value)
  }

  function Encode(r: Repr): (t: seq<byte>) {
    match r
    case Indexed(i) => EncodeInt(128, 127, i)
    case LiteralHeader(Incremental, name, value) => EncodeHeader(64, 63, name, value)
    case LiteralHeader(WithoutIndexing, name, value) => EncodeHeader(0, 15, name, value)
    case LiteralHeader(NeverIndexed, name, value) => EncodeHeader(16, 15, name, value)
    case SizeUpdate(limit) => EncodeInt(32, 31, limit)
  }

  function EncodeAll(rs: seq<Repr>): seq<byte> {
    if rs == [] then [] else Encode(rs[0]) + EncodeAll(rs[1..])
  }

  /** Section 4.4: an entry larger than the table empties it. */
  function AddByRfc(t: State, e: Entry): State {
    if t.Accepts(e) then t.After(Step.Add(e)) else t.(entries := [])
  }

  /** The table follows section 4.4 exactly when the entry fits or nothing is there to be dropped. */
  lemma AddsByRfc(t: State, e: Entry)
    ensures t.After(Step.Add(e)) == AddByRfc(t, e) <==> |e.name| + |e.value| + 32 <= t.limit || t.entries == []
  {
    hide Fit;
  }

  /** A table of 40 bytes that holds an entry of 33 keeps it when one of 41 is refused. */
  lemma OversizeKeepsEntries()
    ensures var t, e := State(40, [Entry([0], [])]), Entry([0, 0, 0, 0, 0, 0, 0, 0, 0], []);
            t.After(Step.Add(e)) == t && AddByRfc(t, e) == State(40, [])
  {
  }

  predicate KnownName(name: Name, c: Config) {
    name.NameAt? ==> 1 <= name.index <= UINT32_MAX && HasIndex(c.table.entries, name.index)
  }

  function NameText(name: Name, c: Config): Text
    requires KnownName(name, c)
  {
    match name
    case NewName(s) => s.text
    case NameAt(i) => AtIndex(c.table.entries, i).name
  }

  /** A representation that refers only to entries there are. */
  predicate Meaningful(r: Repr, c: Config) {
    match r
    case Indexed(i) => 1 <= i <= UINT32_MAX && HasIndex(c.table.entries, i)
    case LiteralHeader(_, name, _) => KnownName(name, c)
    case SizeUpdate(limit) => limit <= UINT32_MAX
  }

  /** What section 6 says a representation does. */
  function Meaning(r: Repr, c: Config): Config
    requires Meaningful(r, c)
  {
    match r
    case Indexed(i) => c.With(AtIndex(c.table.entries, i))
    case LiteralHeader(kind, name, value) =>
      var e := Entry(NameText(name, c), value.text);
      if kind == Incremental then Config(AddByRfc(c.table, e), c.headers + [e]) else c.With(e)
    case SizeUpdate(limit) => c.(table := c.table.After(Step.Resize(limit)))
  }

  // ---- single parts

  predicate Fits7(s: Str) {
    1 <= |Payload(s)| <= 126
  }

  lemma FirstByte(high: nat, mask: nat, k: nat)
    requires mask in {15, 31, 63, 127} && high in {0, 16, 32, 64, 128} && high % (mask + 1) == 0 && k <= mask
    requires high + mask < 256
    ensures (high + k) % (mask + 1) == k
  {
  }

  lemma PrefixedWritten(high: nat, mask: nat, n: nat, rest: seq<byte>)
    requires mask in {15, 31, 63, 127} && high in {0, 16, 32, 64, 128} && high % (mask + 1) == 0 && high + mask < 256
    requires n <= UINT32_MAX
    ensures var t := EncodeInt(high, mask, n);
            Prefixed(t + rest, mask) == Got(n, |t|) && (t + rest)[0] == high + Min(n, mask)
  {
    hide Number, TailBytes;
    var t := EncodeInt(high, mask, n);
    FirstByte(high, mask, Min(n, mask));
    if n >= mask {
      WriteThenRead(n, mask, rest);
      assert (t + rest)[1..] == TailBytes(n - mask) + rest;
    }
  }

  lemma PayloadText(s: Str)
    ensures (if s.huffman then Decoded(EncodeTable(), Payload(s)).out else Payload(s)) == s.text
  {
    hide GoodCode, Complete, Encoded, Decoded;
    if s.huffman {
      TableGood();
      EncodeThenDecode(EncodeTable(), s.text);
    }
  }

  /** A string is read back, with the cursor on its last byte, exactly when its payload has 1 to 126 bytes. */
  lemma LiteralExact(s: Str, rest: seq<byte>)
    ensures Literal(EncodeString(s) + rest) == Got(s.text, |EncodeString(s)|) <==> Fits7(s)
  {
    hide Payload, Decoded, Number, TailBytes;
    var p, high := Payload(s), if s.huffman then 128 else 0;
    var t := EncodeString(s) + rest;
    FirstByte(high, 127, Min(|p|, 127));
    Uint32Value(|p| - 1);
    if Fits7(s) {
      PayloadText(s);
      assert t[1..1 + |p|] == p;
    } else if |p| == 0 {
      assert t[0] == high;
      if Literal(t).Got? { assert Literal(t).used > 1; }
    } else {
      assert t[0] == high + 127;
      Uint32Value(126);
    }
  }

  /** The verdict that is not looked at matters exactly for the Huffman payloads that encode nothing. */
  lemma VerdictExact(t: seq<byte>)
    requires LiteralPayload(t).Got?
    ensures Literal(t) == LiteralByRfc(t) <==>
              (t[0] >= 128 ==> exists s: Text :: LiteralPayload(t).value == Encoded(EncodeTable(), s))
  {
    hide GoodCode, Complete, Encoded, Decoded;
    TableGood();
    AcceptsExactlyEncodings(EncodeTable(), LiteralPayload(t).value);
  }

  lemma ByteOfOnes()
    ensures BytesBits([255]) == Ones(8)
  {
    hide ToBits;
    Pow2Value8();
    ToBitsOnes(8);
    BytesBitsSnoc([], 255);
    assert [] + [255] == [255];
    assert BytesBits([]) == [] && [] + Ones(8) == Ones(8);
  }

  /** Eight ones are no encoding: too long for padding, and no code word. */
  lemma EightOnes()
    ensures Decoded(EncodeTable(), [255]) == HuffmanCode.Decoding(false, [])
  {
    ByteOfOnes();
    hide GoodCode, Complete, BytesBits, Run, Open;
    TableGood();
    PaddingOpen(EncodeTable(), 8);
    RunOpen(EncodeTable(), [], Ones(8));
  }

  /** The two bytes of a string of one Huffman byte that section 5.2 asks to refuse, and that is taken as empty. */
  lemma BadPayloadAccepted()
    ensures Literal([129, 255]) == Got([], 2) && LiteralByRfc([129, 255]) == Bad
  {
    hide Decoded;
    EightOnes();
    Uint32Value(0);
    assert [129, 255][1..1 + 1] == [255];
  }

  /** An empty string is written as one byte, and is not read back. */
  lemma EmptyStringLost(rest: seq<byte>)
    ensures EncodeString(Str(false, [])) == [0] && Literal([0] + rest) != Got([], 1)
  {
    LiteralExact(Str(false, []), rest);
    assert [0] + [] == [0];
  }

  // ---- size updates

  /** A size update as section 6.3 has it: a limit above the maximum of the protocol is an error. */
  function SizeUpdateByRfc(t: seq<byte>, c: Config, maximum: nat): Outcome
    requires t != []
  {
    match Prefixed(t, 31)
    case Bad => Outcome(Reject, c, 0)
    case Got(limit, n) => if limit > maximum then Outcome(Reject, c, 0) else SizeUpdateField(t, c)
  }

  /** The decoder knows of no maximum. */
  lemma SizeUpdateExact(t: seq<byte>, c: Config, maximum: nat)
    requires t != []
    ensures SizeUpdateField(t, c) == SizeUpdateByRfc(t, c, maximum)
       <==> (Prefixed(t, 31).Got? ==> Prefixed(t, 31).value <= maximum)
  {
    hide Number, Fit;
  }

  /** An update to 4097 bytes, one more than the protocol allows from the start. */
  lemma OversizeUpdateTaken(c: Config)
    ensures Encode(SizeUpdate(4097)) == [63, 226, 31]
    ensures Field([63, 226, 31], c).status == Accept && Field([63, 226, 31], c).config.table.limit == 4097
    ensures SizeUpdateByRfc([63, 226, 31], c, 4096).status == Reject
  {
    hide Number, Fit, LiteralField;
    var t: seq<byte> := [63, 226, 31];
    assert TailBytes(31) == [31] && TailBytes(4066) == [4066 % 128 + 128] + TailBytes(31) == [226, 31];
    PrefixedWritten(32, 31, 4097, []);
    assert t + [] == t;
  }

  lemma NothingFitsNothing(t: State)
    ensures t.After(Step.Resize(0)) == State(0, [])
  {
    ResizeExact(t, 0);
    NotForNothing(t.After(Step.Resize(0)).entries);
  }

  /** A size update behind a header field, where section 4.2 has none, is taken like any other. */
  lemma LateUpdateTaken(c: Config)
    ensures Block([130, 32], c) == BlockRead(Accept, Config(State(0, []), c.headers + [AtIndex([], 2)]))
  {
    ResizeExact(c.table, 0);
    NothingFitsNothing(c.table);
    hide Fit;
    assert [130, 32][1..] == [32];
    var e := AtIndex(c.table.entries, 2);
    assert Field([130, 32], c) == Outcome(Accept, c.With(e), 1);
    assert Field([32], c.With(e)) == Outcome(Accept, c.With(e).(table := c.table.After(Step.Resize(0))), 1);
  }

  // ---- fields and blocks

  /** A representation that the decoder reads as section 6 means it. */
  predicate Readable(r: Repr, c: Config) {
    && Meaningful(r, c)
    && (r.LiteralHeader? ==>
          && Fits7(r.value) && (r.name.NewName? ==> Fits7(r.name.text))
          && (r.kind == Incremental ==>
                c.table.entries == [] || c.table.Accepts(Entry(NameText(r.name, c), r.value.text))))
  }

  predicate PrefixPattern(high: nat, mask: nat) {
    (high, mask) in {(64, 63), (0, 15), (16, 15)}
  }

  lemma NameWritten(high: nat, mask: nat, name: Name, rest: seq<byte>, c: Config)
    requires PrefixPattern(high, mask) && KnownName(name, c)
    ensures var t := EncodeName(high, mask, name);
            && t != [] && high <= (t + rest)[0] <= high + mask
            && (FieldName(t + rest, mask, c) == NameRead(Accept, NameText(name, c), |t|)
                <==> (name.NewName? ==> Fits7(name.text)))
  {
    hide EncodeString, EncodeInt, Literal, Prefixed, HasIndex, AtIndex, Fits7;
    var t := EncodeName(high, mask, name);
    match name
    case NewName(s) =>
      assert (t + rest)[1..] == EncodeString(s) + rest;
      LiteralExact(s, rest);
    case NameAt(i) =>
      PrefixedWritten(high, mask, i, rest);
      FirstByte(high, mask, Min(i, mask));
  }

  lemma HeaderWritten(high: nat, mask: nat, name: Name, value: Str, indexing: bool, rest: seq<byte>, c: Config)
    requires PrefixPattern(high, mask) && KnownName(name, c) && (name.NewName? ==> Fits7(name.text))
    ensures var t, e := EncodeHeader(high, mask, name, value), Entry(NameText(name, c), value.text);
            && t != [] && high <= (t + rest)[0] <= high + mask
            && (if Fits7(value)
                then LiteralField(t + rest, mask, indexing, c)
                  == Outcome(
                       Accept,
                       Config(if indexing then c.table.After(Step.Add(e)) else c.table, c.headers + [e]),
                       |t|)
                else forall table ::
                    LiteralField(t + rest, mask, indexing, c) != Outcome(Accept, Config(table, c.headers + [e]), |t|))
  {
    hide EncodeString, EncodeName, Literal, FieldName, Fits7, KnownName, NameText;
    var n, v := EncodeName(high, mask, name), EncodeString(value);
    Assoc(n, v, rest);
    NameWritten(high, mask, name, v + rest, c);
    LiteralExact(value, rest);
    assert (n + (v + rest))[|n|..] == v + rest;
    var l := Literal(v + rest);
    if l.Got? {
      LastHeader(c.headers, Entry(NameText(name, c), l.value), Entry(NameText(name, c), value.text));
    }
  }

  lemma LastHeader(h: seq<Entry>, a: Entry, b: Entry)
    ensures h + [a] == h + [b] ==> a == b
  {
    assert (h + [a])[|h|] == a && (h + [b])[|h|] == b;
  }

  /**
   A representation does what it means, with the cursor on its last byte, exactly when it is readable, provided
   that a new name is.
   */
  lemma FieldWritten(r: Repr, rest: seq<byte>, c: Config)
    requires Meaningful(r, c) && (r.LiteralHeader? && r.name.NewName? ==> Fits7(r.name.text))
    ensures Encode(r) != []
    ensures Field(Encode(r) + rest, c) == Outcome(Accept, Meaning(r, c), |Encode(r)|) <==> Readable(r, c)
  {
    hide EncodeInt, EncodeHeader, LiteralField, Prefixed, HasIndex, AtIndex, Fits7, Number, NameText;
    match r
    case Indexed(i) =>
      PrefixedWritten(128, 127, i, rest);
      FirstByte(128, 127, Min(i, 127));
    case LiteralHeader(kind, name, value) =>
      match kind {
        case Incremental =>
          HeaderWritten(64, 63, name, value, true, rest, c);
          AddsByRfc(c.table, Entry(NameText(name, c), value.text));
        case WithoutIndexing => HeaderWritten(0, 15, name, value, false, rest, c);
        case NeverIndexed => HeaderWritten(16, 15, name, value, false, rest, c);
      }
    case SizeUpdate(limit) =>
      PrefixedWritten(32, 31, limit, rest);
  }

  /** What section 6 says a list of representations does, if each is readable when its turn comes. */
  predicate AllReadable(rs: seq<Repr>, c: Config) {
    rs != [] ==> Readable(rs[0], c) && AllReadable(rs[1..], Meaning(rs[0], c))
  }

  function MeaningOfAll(rs: seq<Repr>, c: Config): Config
    requires AllReadable(rs, c)
  {
    if rs == [] then c else MeaningOfAll(rs[1..], Meaning(rs[0], c))
  }

  /** A written block decodes to the headers and the dynamic table that it means. */
  lemma {:induction false} BlockWritten(rs: seq<Repr>, c: Config)
    requires AllReadable(rs, c)
    ensures Block(EncodeAll(rs), c) == BlockRead(Accept, MeaningOfAll(rs, c))
    decreases |rs|
  {
    hide Field, Encode, Meaning, Meaningful;
    if rs == [] {
    } else {
      var t, rest := Encode(rs[0]), EncodeAll(rs[1..]);
      FieldWritten(rs[0], rest, c);
      BlockWritten(rs[1..], Meaning(rs[0], c));
      assert (t + rest)[|t|..] == rest;
    }
  }

  /** A field on any bytes leaves a table within its limit. */
  lemma FieldKeepsLimit(t: seq<byte>, c: Config)
    requires t != [] && Bytes(c.table.entries) <= c.table.limit
    ensures var n := Field(t, c).config.table; Bytes(n.entries) <= n.limit
  {
    hide Bytes, Literal, Number, HasIndex, AtIndex, Fit;
    var f := Field(t, c);
    forall s: Step ensures var n := c.table.After(s); Bytes(n.entries) <= n.limit {
      StepKeeps(c.table, s, c.table.entries);
    }
  }

  /** The table never exceeds its limit over any block. */
  lemma {:induction false} BlockKeepsLimit(t: seq<byte>, c: Config)
    requires Bytes(c.table.entries) <= c.table.limit
    ensures var n := Block(t, c).config.table; Bytes(n.entries) <= n.limit
    decreases |t|
  {
    hide Bytes, Field;
    if t == [] {
    } else {
      var f := Field(t, c);
      FieldKeepsLimit(t, c);
      if f.status == Accept && f.used < |t| {
        BlockKeepsLimit(t[f.used..], f.config);
      }
    }
  }
}
