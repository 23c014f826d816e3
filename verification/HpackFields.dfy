/**
 Fields whose name is a string that is not read back. Such a field could still come out as it was meant if what is
 misread of its name were made up for by what is then taken as its value; that is excluded here, for values of at most
 126 payload bytes and for strings that do not use the Huffman code.
 */
module HpackFields {
  import opened Bits
  import opened HuffmanCode
  import opened HuffmanTable
  import opened HpackStatic
  import opened HpackTable
  import opened HpackInteger
  import opened HpackBlock

  /** Two strings in a row are read with their texts, and together use their own bytes. */
  ghost predicate BothRead(s: Str, v: Str, t: seq<byte>) {
    var a := Literal(t);
    && a.Got? && a.value == s.text
    && var b := LiteralAt(t, a.used);
    && b.Got? && b.value == v.text && a.used + b.used == |EncodeString(s)| + |EncodeString(v)|
  }

  predicate Covered(s: Str, v: Str) {
    Fits7(s) || |Payload(v)| <= 126 || (!s.huffman && !v.huffman)
  }

  // ---- a string that begins with a zero length

  /** The first byte of a string, its payload, and where that begins. */
  lemma StringShape(s: Str)
    ensures var e, p, flag := EncodeString(s), Payload(s), if s.huffman then 128 else 0;
            if |p| <= 126 then e == [flag + |p|] + p else e == [flag + 127] + TailBytes(|p| - 127) + p
    ensures !s.huffman ==> Payload(s) == s.text
  {
    hide Encoded, TailBytes;
  }

  /** A number behind a full prefix of 127, by its first byte. */
  lemma NumberFrom(t: seq<byte>)
    requires t != [] && Number(t, 127).Got?
    ensures var b: int, r := t[0], Number(t, 127);
            if b < 128 then r == Got(127 + b, 1)
            else r.used >= 2 && (r.value + 1 - b) % 128 == 0 && (r.used == 2 ==> r.value >= b - 1)
  {
    hide Uint32;
    var b: int, n := t[0], TailLength(t);
    var rest := t[..n][1..];
    assert t[..n] != [] && t[..n][0] == t[0];
    var x := 127 + b % 128 + 128 * TailValue(rest);
    assert Number(t, 127) == Got(Uint32(x), n);
    if b < 128 {
      assert rest == [];
    } else {
      Mod128(x, b - 1);
      if n == 2 {
        assert rest == [t[1]] && rest[1..] == [];
        assert TailValue(rest) == t[1] % 128 + 128 * TailValue([]);
      }
    }
    Uint32Value(x);
  }

  lemma Mod128(x: int, y: int)
    requires (x - y) % 128 == 0
    ensures (Uint32(x) - y) % 128 == 0
  {
  }

  /** A string behind a zero length byte uses more bytes than the byte after it says. */
  lemma ZeroLength(t: seq<byte>)
    requires |t| >= 2 && t[0] % 128 == 0 && Literal(t).Got?
    ensures var b: int, r := t[1], Literal(t);
            && r.used > b % 128 + 2
            && (b < 128 && t[0] == 0 ==> |t| >= 129 + b && r == Got(t[2..129 + b], 129 + b))
  {
    hide Number, Decoded, Uint32;
    NumberFrom(t[1..]);
    var v: int := LiteralLength(t).value;
    Uint32Value(v - 1);
  }

  // ---- the name or the value is missing

  /** Behind an empty name the value is taken for the name, and more. */
  lemma EmptyName(s: Str, v: Str, rest: seq<byte>)
    requires Payload(s) == [] && Covered(s, v)
    ensures !BothRead(s, v, EncodeString(s) + EncodeString(v) + rest)
  {
    hide Literal, Payload, TailBytes;
    var t := EncodeString(s) + EncodeString(v) + rest;
    StringShape(s);
    StringShape(v);
    EmptyPayload(s);
    var b: int := t[1];
    assert t[0] % 128 == 0 && t[1] == EncodeString(v)[0];
    if Literal(t).Got? {
      ZeroLength(t);
      if LiteralAt(t, Literal(t).used).Got? { UsesMore(t[Literal(t).used..]); }
    }
  }

  lemma EmptyPayload(s: Str)
    ensures Payload(s) == [] <==> s.text == []
  {
    PayloadText(s);
  }

  lemma UsesMore(t: seq<byte>)
    ensures Literal(t).Got? ==> Literal(t).used > 1
  {
  }

  // ---- the name is long

  /** A string with a full length prefix is read as one of 127 bytes. */
  lemma FullPrefix(t: seq<byte>)
    requires |t| >= 128 && t[0] % 128 == 127
    ensures Literal(t) == Got(if t[0] >= 128 then Decoded(EncodeTable(), t[1..128]).out else t[1..128], 128)
  {
    hide Decoded, Uint32;
    Uint32Value(126);
  }

  lemma LongString(s: Str, rest: seq<byte>)
    requires |Payload(s)| >= 127
    ensures var t, p, tail := EncodeString(s) + rest, Payload(s), TailBytes(|Payload(s)| - 127);
            && |t| >= 128 && t[1..128] == (tail + p)[..127]
            && Literal(t) == Got(if s.huffman then Decoded(EncodeTable(), t[1..128]).out else t[1..128], 128)
  {
    hide Literal, Decoded, TailBytes, Payload;
    var p, tail := Payload(s), TailBytes(|Payload(s)| - 127);
    var t, flag := EncodeString(s) + rest, if s.huffman then 128 else 0;
    StringShape(s);
    assert t == [flag + 127] + (tail + p + rest);
    FullPrefix(t);
  }

  /** A zero byte, then a string: more is used than these bytes, or the text is another. */
  lemma ZeroThen(v: Str, rest: seq<byte>)
    requires |Payload(v)| <= 126 || !v.huffman
    ensures var r := Literal([0] + EncodeString(v) + rest);
            r.Got? && r.value == v.text ==> r.used != 1 + |EncodeString(v)|
  {
    hide Literal, Payload, Encoded;
    var e := EncodeString(v);
    var u := [0] + e + rest;
    StringShape(v);
    assert u[0] == 0 && u[1] == e[0];
    if Literal(u).Got? { ZeroLength(u); }
  }

  lemma LongRawName(s: Str, v: Str, rest: seq<byte>)
    requires !s.huffman && |Payload(s)| >= 127 && Covered(s, v)
    ensures !BothRead(s, v, EncodeString(s) + EncodeString(v) + rest)
  {
    hide Literal, EncodeString, TailBytes, Encoded;
    var e, f, p := EncodeString(s), EncodeString(v), s.text;
    Assoc(e, f, rest);
    LongString(s, f + rest);
    if |p| == 127 && p == (TailBytes(0) + p)[..127] {
      ZeroTail();
      AllZero(p);
      LongRest(s, f + rest);
      Assoc([0], f, rest);
      ZeroThen(v, rest);
    }
  }

  lemma ZeroTail()
    ensures TailBytes(0) == [0]
  {
  }

  /** What follows 127 of the bytes behind the length of a string of 127 bytes. */
  lemma LongRest(s: Str, rest: seq<byte>)
    requires |Payload(s)| == 127
    ensures |EncodeString(s)| == 129 && (EncodeString(s) + rest)[128..] == [Payload(s)[126]] + rest
  {
    hide Payload;
    StringShape(s);
    ZeroTail();
    assert EncodeString(s)[128] == Payload(s)[126];
  }

  lemma AllZero(p: seq<byte>)
    requires |p| == 127 && p == ([0] + p)[..127]
    ensures p[126] == 0
  {
    ZeroUpTo(p, 126);
  }

  lemma {:induction false} ZeroUpTo(p: seq<byte>, k: nat)
    requires k < |p| == 127 && p == ([0] + p)[..127]
    ensures p[k] == 0
  {
    if k == 0 {
    } else {
      ZeroUpTo(p, k - 1);
      assert ([0] + p)[k] == p[k - 1];
    }
  }

  // ---- a Huffman name whose bits are read one byte late

  const DIGIT_ZERO: byte := 48

  /** Each 0 is written as five zero bits. */
  lemma ZeroCode()
    ensures Code(EncodeTable(), DIGIT_ZERO) == Zeros(5)
  {
    ZeroBits(5);
    assert EncodeRow(6)[0] == (5, 0);
    assert EncodeTable()[DIGIT_ZERO] == EncodeData(DIGIT_ZERO) == CodeWord(5, 0);
  }

  lemma {:induction false} ZeroCodes(n: nat)
    ensures Codes(EncodeTable(), Digits(n)) == Zeros(5 * n)
  {
    hide Code, EncodeTable;
    if n == 0 {
    } else {
      ZeroCodes(n - 1);
      ZeroCode();
      assert Digits(n)[..n - 1] == Digits(n - 1);
      assert Zeros(5 * (n - 1)) + Zeros(5) == Zeros(5 * n);
    }
  }

  function Digits(n: nat): (s: Text)
    ensures |s| == n
  {
    seq(n, _ => DIGIT_ZERO)
  }

  /** 127 zero bytes decode to 203 times 0, and one bit is left over. */
  lemma ZerosDecoded(d: seq<byte>)
    requires BytesBits(d) == Zeros(1016)
    ensures Decoded(EncodeTable(), d).out == Digits(203)
  {
    hide EncodeTable, Codes, Run, GoodCode, Complete, Open, Digits, BytesBits;
    var t := EncodeTable();
    TableGood();
    ZeroCodes(203);
    RunCodes(t, Digits(203));
    RunConcat(t, START, Zeros(1015), [false]);
    assert Zeros(1015) + [false] == Zeros(1016);
    ZeroOpen();
    RunOpen(t, Digits(203), [false]);
  }

  lemma ZeroOpen()
    ensures Open(EncodeTable(), [false])
  {
    hide EncodeTable, Complete;
    TableGood();
    assert Ones(EOS_LENGTH) != [false];
    assert |[false]| == 1 && [false][..1] == [false];
  }

  /** The bits of a byte string behind a zero byte. */
  lemma ZeroBefore(e: seq<byte>)
    requires |e| == 127
    ensures BytesBits([0] + e[..126]) == Zeros(8) + BytesBits(e)[..1008] && |BytesBits(e)| == 1016
  {
    hide ToBits;
    ZeroBits(8);
    BytesBitsConcat([0], e[..126]);
    BytesBitsSnoc([], 0);
    assert [] + [0] == [0];
    BytesBitsPrefix(e, 126);
    assert BytesBits([]) == [] && [] + ToBits(0, 8) == ToBits(0, 8);
  }

  /** Bits that agree with themselves eight places on, after zeros, are zeros. */
  lemma {:induction false} ShiftedZeros(b: bits, n: nat, k: nat)
    requires k < n <= |b| && (forall i :: 0 <= i < n && i < 8 ==> !b[i])
    requires forall i :: 0 <= i < n - 8 ==> b[i] == b[i + 8]
    ensures !b[k]
  {
    if k < 8 {
    } else {
      ShiftedZeros(b, n, k - 8);
    }
  }

  lemma EncodedBits(x: Text)
    ensures var e, c := Encoded(EncodeTable(), x), Codes(EncodeTable(), x);
            BytesBits(e) == c + Ones(PadLength(|c|)) && 8 * |e| == |c| + PadLength(|c|)
  {
    hide EncodeTable, Codes, BytesBits, Pack;
    var c := Codes(EncodeTable(), x);
    BytesBitsPack(c + Ones(PadLength(|c|)), (|c| + PadLength(|c|)) / 8);
  }

  lemma DecodedBits(d: seq<byte>)
    ensures Codes(EncodeTable(), Decoded(EncodeTable(), d).out) <= BytesBits(d)
  {
    hide EncodeTable, Codes, BytesBits, Run;
    RunReads(EncodeTable(), BytesBits(d));
  }

  lemma OnlyZeros(c: bits, pad: nat, e: seq<byte>, late: seq<byte>)
    requires |e| == 127 && late == [0] + e[..126] && pad < 8
    requires BytesBits(e) == c + Ones(pad) && c <= BytesBits(late)
    ensures BytesBits(late) == Zeros(1016)
  {
    hide BytesBits;
    var b, l := BytesBits(e), BytesBits(late);
    ZeroBefore(e);
    forall i | 0 <= i < |c| && i < 8 ensures !b[i] {
      assert b[i] == c[i] == l[i];
    }
    forall i | 0 <= i < |c| - 8 ensures b[i] == b[i + 8] {
      assert b[i + 8] == c[i + 8] == l[i + 8];
    }
    forall i | 0 <= i < 1016 ensures !l[i] {
      if i >= 8 { ShiftedZeros(b, |c|, i - 8); }
    }
  }

  lemma LastByte(e: seq<byte>)
    requires |e| == 127 && BytesBits(e) == Zeros(1015) + Ones(1)
    ensures e[126] == 1
  {
    hide BytesBits, ToBits, Pow2;
    BytesBitsTake(e, 126);
    assert e[..127] == e;
    OneBits();
    assert ToBits(e[126], 8) == BytesBits(e)[1008..] == Zeros(7) + Ones(1);
    Pow2Value8();
    ToBitsInjective(e[126], 1, 8);
  }

  lemma OneBits()
    ensures ToBits(1, 8) == Zeros(7) + Ones(1)
  {
    ZeroBits(7);
  }

  /** The one kind of text whose encoding, read a byte late, gives the text again. */
  lemma ReadLate(x: Text)
    requires var e := Encoded(EncodeTable(), x);
             |e| >= 127 && Decoded(EncodeTable(), (TailBytes(|e| - 127) + e)[..127]).out == x
    ensures var e := Encoded(EncodeTable(), x); |e| == 127 && e[126] == 1
  {
    hide EncodeTable, Codes, BytesBits, Decoded, Encoded, Zeros, Ones, Digits;
    var e, c := Encoded(EncodeTable(), x), Codes(EncodeTable(), x);
    var late := (TailBytes(|e| - 127) + e)[..127];
    EncodedBits(x);
    DecodedBits(late);
    assert |e| == 127;
    ZeroTail();
    assert late == [0] + e[..126];
    OnlyZeros(c, PadLength(|c|), e, late);
    ZerosDecoded(late);
    ZeroCodes(203);
    LastByte(e);
  }

  lemma LongHuffmanName(s: Str, v: Str, rest: seq<byte>)
    requires s.huffman && |Payload(s)| >= 127 && |Payload(v)| <= 126
    ensures !BothRead(s, v, EncodeString(s) + EncodeString(v) + rest)
  {
    hide Literal, EncodeString, TailBytes, Encoded, Decoded, EncodeTable;
    var e, f, p := EncodeString(s), EncodeString(v), Payload(s);
    Assoc(e, f, rest);
    LongString(s, f + rest);
    if Decoded(EncodeTable(), (TailBytes(|p| - 127) + p)[..127]).out == s.text {
      ReadLate(s.text);
      LongRest(s, f + rest);
      Assoc([1], f, rest);
      OneThen(v, rest);
    }
  }

  /** A length of one, then a string: two bytes are used, the first of the string is the text. */
  lemma OneThen(v: Str, rest: seq<byte>)
    requires |Payload(v)| <= 126
    ensures var r := Literal([1] + EncodeString(v) + rest);
            r.Got? && r.value == v.text ==> r.used != 1 + |EncodeString(v)|
  {
    hide Payload, Decoded, Uint32;
    var u := [1] + EncodeString(v) + rest;
    StringShape(v);
    EmptyPayload(v);
    Uint32Value(0);
    assert |u[1..2]| == 1;
  }

  // ---- fields

  /** A new name that is not read back makes for a wrong field, whatever the value. */
  lemma NotBothRead(s: Str, v: Str, rest: seq<byte>)
    requires !Fits7(s) && Covered(s, v)
    ensures !BothRead(s, v, EncodeString(s) + EncodeString(v) + rest)
  {
    hide BothRead, EncodeString, Payload;
    if Payload(s) == [] {
      EmptyName(s, v, rest);
    } else if s.huffman {
      LongHuffmanName(s, v, rest);
    } else {
      LongRawName(s, v, rest);
    }
  }

  /** The new name of a representation, if it has one, is covered together with its value. */
  predicate NameCovered(r: Repr) {
    r.LiteralHeader? && r.name.NewName? ==> Covered(r.name.text, r.value)
  }

  /** A literal field with a new name that is accepted has read two strings. */
  lemma NewNameField(t: seq<byte>, mask: nat, indexing: bool, c: Config, table: State, e: Entry, n: nat)
    requires t != [] && mask < 256 && t[0] % (mask + 1) == 0
    requires LiteralField(t, mask, indexing, c) == Outcome(Accept, Config(table, c.headers + [e]), n)
    ensures var a := Literal(t[1..]);
            && a.Got? && a.value == e.name
            && var b := LiteralAt(t[1..], a.used); b.Got? && b.value == e.value && n == 1 + a.used + b.used
  {
    hide Literal;
    var a := Literal(t[1..]);
    var b := LiteralAt(t, 1 + a.used);
    assert t[1 + a.used..] == t[1..][a.used..];
    LastHeader(c.headers, Entry(a.value, b.value), e);
  }

  lemma WrongField(high: nat, mask: nat, s: Str, v: Str, indexing: bool, rest: seq<byte>, c: Config, table: State)
    requires PrefixPattern(high, mask) && !Fits7(s) && Covered(s, v)
    ensures var t := EncodeHeader(high, mask, NewName(s), v);
            && t != [] && (t + rest)[0] == high
            && LiteralField(t + rest, mask, indexing, c)
               != Outcome(Accept, Config(table, c.headers + [Entry(s.text, v.text)]), |t|)
  {
    hide EncodeString, Literal, LiteralField, Fits7, Covered;
    var e, f := EncodeString(s), EncodeString(v);
    var t := EncodeHeader(high, mask, NewName(s), v);
    assert t == [high] + (e + f) && (t + rest)[1..] == e + f + rest;
    NotBothRead(s, v, rest);
    var o := Outcome(Accept, Config(table, c.headers + [Entry(s.text, v.text)]), |t|);
    if LiteralField(t + rest, mask, indexing, c) == o {
      NewNameField(t + rest, mask, indexing, c, table, Entry(s.text, v.text), |t|);
    }
  }

  /** A representation does what it means, with the cursor on its last byte, exactly when it is readable. */
  lemma FieldExact(r: Repr, rest: seq<byte>, c: Config)
    requires Meaningful(r, c) && NameCovered(r)
    ensures Encode(r) != []
    ensures Field(Encode(r) + rest, c) == Outcome(Accept, Meaning(r, c), |Encode(r)|) <==> Readable(r, c)
  {
    hide EncodeHeader, LiteralField, EncodeInt, Fits7, Covered, HasIndex, AtIndex;
    if r.LiteralHeader? && r.name.NewName? && !Fits7(r.name.text) {
      var s, v := r.name.text, r.value;
      var table := Meaning(r, c).table;
      match r.kind {
        case Incremental => WrongField(64, 63, s, v, true, rest, c, table);
        case WithoutIndexing => WrongField(0, 15, s, v, false, rest, c, table);
        case NeverIndexed => WrongField(16, 15, s, v, false, rest, c, table);
      }
    } else {
      FieldWritten(r, rest, c);
    }
  }
}
