/** The coder itself: a bit packer and a table-driven automaton that reads four bits at a time. */
module Huffman {
  import opened Bits
  import opened HuffmanCode

  // ---- encode

  /** The bits of the partly filled byte that are already decided. */
  function Filled(curByte: byte, rembits: nat): bits
    requires rembits <= 8
  {
    ToBits(curByte, 8)[..8 - rembits]
  }

  /** The rembits low bits are still clear. */
  ghost predicate Clear(curByte: byte, rembits: nat)
    requires rembits <= 8
  {
    ToBits(curByte, 8)[8 - rembits..] == ToBits(0, rembits)
  }

  /** The cast to an unsigned 8-bit integer. */
  function Uint8(v: nat): byte { v % 256 }

  /** The low bits of v survive the cast; when v is below 2^n so do the clear bits above them. */
  lemma MaskBits(v: nat, n: nat)
    requires n <= 8 && (n == 8 || v < Pow2(n))
    ensures ToBits(Uint8(v), 8)[8 - n..] == ToBits(v, n)
    ensures ToBits(Uint8(v), 8)[..8 - n] == ToBits(0, 8 - n)
  {
    var m := 8 - n;
    Pow2Value8();
    ToBitsMod(v, 8);
    assert ToBits(Uint8(v), 8) == ToBits(Shr(v, n), m) + ToBits(v, n) by { ToBitsSplit(v, m, n); }
    if n < 8 {
      ShrBound(v, 0, n);
      assert Shr(v, n) == 0;
    }
  }

  /** Or-ing a mask that only occupies the clear bits appends the mask's bits to those already decided. */
  lemma FillBits(curByte: byte, rembits: nat, mask: byte)
    requires rembits <= 8 && Clear(curByte, rembits)
    requires ToBits(mask, 8)[..8 - rembits] == ToBits(0, 8 - rembits)
    ensures Or(curByte, mask) < 256
    ensures ToBits(Or(curByte, mask), 8) == Filled(curByte, rembits) + ToBits(mask, 8)[8 - rembits..]
  {
    Pow2Value8();
    OrBound(curByte, mask, 8);
    OrJoins(curByte, mask, 8 - rembits, rembits);
  }

  /** The mask `value << (rembits - bitCount)`, computed in 32 bits and cut to 8. */
  function HighMask(value: nat, rembits: nat, bitCount: nat): byte
    requires bitCount <= rembits
  {
    Uint8(Shl(value, rembits - bitCount) % 0x1_0000_0000)
  }

  lemma HighMaskFills(curByte: byte, rembits: nat, bitCount: nat, value: nat)
    requires bitCount < rembits <= 8 && Clear(curByte, rembits)
    requires rembits == 8 || value < Pow2(bitCount)
    ensures var r := Or(curByte, HighMask(value, rembits, bitCount));
            && r < 256
            && Filled(r, rembits - bitCount) == Filled(curByte, rembits) + ToBits(value, bitCount)
            && Clear(r, rembits - bitCount)
  {
    var k := rembits - bitCount;
    var v := Shl(value, k);
    var mask := HighMask(value, rembits, bitCount);
    Uint8Wrap(v);
    if rembits < 8 {
      ShlBound(value, bitCount, k);
    }
    MaskBits(v, rembits);
    FillBits(curByte, rembits, mask);
    ShlBits(value, bitCount, k);
    SplitFilled(Or(curByte, mask), k, Filled(curByte, rembits), ToBits(value, bitCount));
  }

  lemma SplitFilled(cur: byte, rembits: nat, a: bits, b: bits)
    requires rembits <= 8 && ToBits(cur, 8) == a + (b + ToBits(0, rembits))
    ensures Filled(cur, rembits) == a + b && Clear(cur, rembits)
  {
    Assoc(a, b, ToBits(0, rembits));
  }

  lemma Uint8Wrap(v: nat)
    ensures Uint8(v % 0x1_0000_0000) == Uint8(v)
  {
    var q, r := v / 0x1_0000_0000, v % 0x1_0000_0000;
    DivUnique(v, 256, 0x100_0000 * q + r / 256, r % 256);
  }

  /** The mask `value >> (bitCount - rembits)` fills the byte with the next rembits bits of the code. */
  lemma LowMaskFills(curByte: byte, rembits: nat, bitCount: nat, value: nat)
    requires 0 < rembits <= 8 && rembits <= bitCount && Clear(curByte, rembits)
    requires rembits == 8 || value < Pow2(bitCount)
    ensures var r := Or(curByte, Uint8(Shr(value, bitCount - rembits)));
            && r < 256
            && ToBits(r, 8) == Filled(curByte, rembits) + ToBits(Shr(value, bitCount - rembits), rembits)
  {
    var k := bitCount - rembits;
    if rembits < 8 {
      ShrBound(value, rembits, k);
    }
    MaskBits(Shr(value, k), rembits);
    FillBits(curByte, rembits, Uint8(Shr(value, k)));
  }

  /** The bytes written and the filled bits of the current byte spell s. */
  ghost predicate Packed(r: seq<byte>, curByte: byte, rembits: nat, s: bits) {
    1 <= rembits <= 8 && Clear(curByte, rembits) && BytesBits(r) + Filled(curByte, rembits) == s
  }

  lemma RoomLeft(r: seq<byte>, curByte: byte, rembits: nat, s: bits)
    requires Packed(r, curByte, rembits, s)
    ensures 1 <= rembits <= 8 && Clear(curByte, rembits)
  {
  }

  /** Appending the bits of a filled byte. */
  lemma PushByte(r: seq<byte>, curByte: byte, rembits: nat, s: bits, cur: byte, m: bits)
    requires Packed(r, curByte, rembits, s) && ToBits(cur, 8) == Filled(curByte, rembits) + m
    ensures Packed(r + [cur], 0, 8, s + m)
  {
    BytesBitsSnoc(r, cur);
    Assoc(BytesBits(r), Filled(curByte, rembits), m);
    assert Filled(0, 8) == [];
    assert ToBits(0, 8)[0..] == ToBits(0, 8);
  }

  /** The branch in which what is left of the code fits into the current byte. */
  lemma PackHigh(r: seq<byte>, curByte: byte, rembits: nat, s: bits, value: nat, bitCount: nat)
    requires Packed(r, curByte, rembits, s) && 0 < bitCount < rembits
    requires rembits == 8 || value < Pow2(bitCount)
    ensures Or(curByte, HighMask(value, rembits, bitCount)) < 256
    ensures Packed(r, Or(curByte, HighMask(value, rembits, bitCount)), rembits - bitCount, s + ToBits(value, bitCount))
  {
    HighMaskFills(curByte, rembits, bitCount, value);
    Assoc(BytesBits(r), Filled(curByte, rembits), ToBits(value, bitCount));
  }

  /** The branch in which the code fills the current byte. */
  lemma PackLow(r: seq<byte>, curByte: byte, rembits: nat, s: bits, value: nat, bitCount: nat)
    requires Packed(r, curByte, rembits, s) && rembits <= bitCount
    requires rembits == 8 || value < Pow2(bitCount)
    ensures var cur := Or(curByte, Uint8(Shr(value, bitCount - rembits)));
            && cur < 256
            && Packed(r + [cur], 0, 8, s + ToBits(Shr(value, bitCount - rembits), rembits))
    ensures s + ToBits(value, bitCount)
         == s + ToBits(Shr(value, bitCount - rembits), rembits) + ToBits(value, bitCount - rembits)
  {
    hide *;
    RoomLeft(r, curByte, rembits, s);
    var m := ToBits(Shr(value, bitCount - rembits), rembits);
    LowMaskFills(curByte, rembits, bitCount, value);
    PushByte(r, curByte, rembits, s, Or(curByte, Uint8(Shr(value, bitCount - rembits))), m);
    ToBitsSplit(value, rembits, bitCount - rembits);
    Assoc(s, m, ToBits(value, bitCount - rembits));
  }

  lemma NoBitsLeft(v: nat)
    ensures ToBits(v, 0) == []
  {
  }

  /** The inner loop of the encoder: one code, byte by byte. */
  method PutCode(dest: seq<byte>, cur: byte, rem: nat, value: nat, count: nat, ghost before: bits)
    returns (r: seq<byte>, curByte: byte, rembits: nat)
    requires Packed(dest, cur, rem, before) && 0 < count && value < Pow2(count)
    ensures Packed(r, curByte, rembits, before + ToBits(value, count))
  {
    hide Or, Shr, HighMask, Uint8, Packed, ToBits, Pow2;
    NoBitsLeft(value);
    r, curByte, rembits := dest, cur, rem;
    var bitCount := count;
    ghost var spelled, goal := before, before + ToBits(value, count);
    while true
      invariant 0 < bitCount <= count
      invariant Packed(r, curByte, rembits, spelled)
      invariant rembits == 8 || bitCount == count
      invariant spelled + ToBits(value, bitCount) == goal
      decreases bitCount
    {
      RoomLeft(r, curByte, rembits, spelled);
      if rembits > bitCount {
        PackHigh(r, curByte, rembits, spelled, value, bitCount);
        curByte := Or(curByte, HighMask(value, rembits, bitCount));
        rembits := rembits - bitCount;
        return;
      }
      PackLow(r, curByte, rembits, spelled, value, bitCount);
      var filled: byte := Or(curByte, Uint8(Shr(value, bitCount - rembits)));
      r := r + [filled];
      spelled := spelled + ToBits(Shr(value, bitCount - rembits), rembits);
      bitCount := bitCount - rembits;
      rembits := 8;
      curByte := 0;
      if bitCount == 0 {
        assert spelled + [] == spelled;
        return;
      }
    }
  }

  /** Encodes data behind what dest already holds. */
  method Encode(t: CodeTable, dest: seq<byte>, data: seq<byte>) returns (r: seq<byte>)
    requires Sized(t)
    ensures r == dest + Encoded(t, data)
  {
    assert Codes(t, data[..0]) == [];
    hide Or, Shr, Uint8, Codes;
    r := dest;
    var rembits: nat := 8;
    var curByte: byte := 0;
    ghost var spelled := BytesBits(dest);
    assert ToBits(0, 8)[0..] == ToBits(0, 8);
    for i := 0 to |data|
      invariant Packed(r, curByte, rembits, spelled)
      invariant spelled == BytesBits(dest) + Codes(t, data[..i])
    {
      var c := data[i];
      r, curByte, rembits := PutCode(r, curByte, rembits, t[c].value, t[c].bitCount, spelled);
      spelled := spelled + Code(t, c);
      CodesSnoc(t, BytesBits(dest), data, i);
    }
    assert data[..|data|] == data;
    ghost var pad: nat := 0;
    if rembits < 8 {
      PadFills(curByte, rembits, 0x3fffffff);
      var cur: byte := Or(curByte, Uint8(Shr(0x3fffffff, 30 - rembits)));
      PushByte(r, curByte, rembits, spelled, cur, Ones(rembits));
      r := r + [cur];
      curByte, pad := 0, rembits;
    } else {
      assert spelled + Ones(0) == spelled;
    }
    EncodedUnique(t, dest, data, r, curByte, pad);
  }

  lemma CodesSnoc(t: CodeTable, before: bits, data: seq<byte>, i: nat)
    requires i < |data|
    ensures before + Codes(t, data[..i + 1]) == before + Codes(t, data[..i]) + Code(t, data[i])
  {
    assert data[..i + 1][..i] == data[..i];
    Assoc(before, Codes(t, data[..i]), Code(t, data[i]));
  }

  /** The padding mask `0x3fffffff >> (30 - rembits)` sets the rembits low bits. */
  lemma PadFills(curByte: byte, rembits: nat, eos: nat)
    requires 0 < rembits < 8 && Clear(curByte, rembits) && eos == 0x3fffffff
    ensures var r := Or(curByte, Uint8(Shr(eos, 30 - rembits)));
            r < 256 && ToBits(r, 8) == Filled(curByte, rembits) + Ones(rembits)
  {
    hide *;
    Pow2Value30();
    OnesShifted(eos, rembits, 30 - rembits);
    LowMaskFills(curByte, rembits, 30, eos);
  }

  lemma OnesShifted(v: nat, m: nat, n: nat)
    requires v + 1 == Pow2(m + n)
    ensures ToBits(Shr(v, n), m) == Ones(m)
  {
    ToBitsOnes(m + n);
    ToBitsSplit(v, m, n);
    assert ToBits(Shr(v, n), m) == Ones(m + n)[..m];
  }

  /**
   A byte string whose bits are those of dest, the codes of data and fewer than eight ones is dest and the encoding.
   */
  lemma EncodedUnique(t: CodeTable, dest: seq<byte>, data: seq<byte>, r: seq<byte>, cur: byte, pad: nat)
    requires pad < 8 && Packed(r, cur, 8, BytesBits(dest) + Codes(t, data) + Ones(pad))
    ensures r == dest + Encoded(t, data)
  {
    var b := Codes(t, data);
    var e := Encoded(t, data);
    assert Filled(cur, 8) == [];
    PadUnique(|b|, pad, |r| - |dest|);
    BytesBitsPack(b + Ones(pad), |r| - |dest|);
    BytesBitsConcat(dest, e);
    Assoc(BytesBits(dest), b, Ones(pad));
    BytesBitsInjective(r, dest + e);
  }

  // ---- decode

  /** One cell of the automaton: next state, flag bits (1 accept, 2 symbol, 4 fail) and symbol. */
  datatype DecodeData = DecodeData(state: nat, flags: nat, symbol: byte)
  {
    predicate Accept() { flags % 2 == 1 }
    predicate Emits() { flags / 2 % 2 == 1 }
    predicate Fails() { flags / 4 % 2 == 1 }
  }

  type DecodeTable = seq<seq<DecodeData>>

  /** A cell tells what four one-bit steps from a node do. */
  ghost predicate CellRight(t: CodeTable, nodes: seq<bits>, node: bits, x: nat, e: DecodeData) {
    var w := Run(t, Walker(false, [], node), ToBits(x, 4));
    && (e.Fails() <==> w.rejected)
    && w.out == (if e.Emits() && !e.Fails() then [e.symbol] else [])
    && (!e.Fails() ==> e.state < |nodes| && nodes[e.state] == w.node && (e.Accept() <==> Padding(w.node)))
  }

  /** The table is the four-bit automaton of the code t, its states standing for the given tree nodes. */
  ghost predicate Automaton(t: CodeTable, table: DecodeTable, nodes: seq<bits>) {
    && |table| == |nodes| > 0 && nodes[0] == []
    && (forall s :: 0 <= s < |table| ==> |table[s]| == 16)
    && (forall s, x :: 0 <= s < |table| && 0 <= x < 16 ==> CellRight(t, nodes, nodes[s], x, table[s][x]))
  }

  lemma NibbleBits(c: byte)
    ensures ToBits(c, 8) == ToBits(c / 16, 4) + ToBits(c % 16, 4)
  {
    ToBitsSplit(c, 4, 4);
    assert Shr(c, 4) == Shr(c / 2, 3) == Shr(c / 4, 2) == Shr(c / 8, 1) == Shr(c / 16, 0);
    assert Pow2(4) == 16;
    ToBitsMod(c, 4);
  }

  /** Decodes data behind what dest already holds; on a code that cannot occur it stops with what it has. */
  method Decode(table: DecodeTable, dest: seq<byte>, data: seq<byte>, ghost t: CodeTable, ghost nodes: seq<bits>)
    returns (ok: bool, r: seq<byte>)
    requires Automaton(t, table, nodes)
    ensures Decoding(ok, r) == Decoding(Decoded(t, data).ok, dest + Decoded(t, data).out)
  {
    hide *;
    var state: nat := 0;
    var accept := true;
    r := dest;
    ghost var read: bits := [];
    Started(t, table, nodes, dest);
    for i := 0 to |data|
      invariant Reached(t, nodes, dest, read, state, accept, r)
      invariant read == BytesBits(data[..i])
    {
      var c := data[i];
      var x := c / 16;
      ghost var hi, lo := ToBits(c / 16, 4), ToBits(c % 16, 4);
      ghost var start := read;
      BitsAt(data, i);
      for j := 0 to 2
        invariant Reached(t, nodes, dest, read, state, accept, r)
        invariant x == if j == 0 then c / 16 else c % 16
        invariant read == if j == 0 then start else if j == 1 then start + hi else start + hi + lo
      {
        CellAt(t, table, nodes, dest, read, state, accept, r, x);
        var e := table[state][x];
        NibbleStep(t, nodes, dest, read, state, accept, r, x, e);
        read := read + ToBits(x, 4);
        if e.Fails() {
          Rejected(t, read, data);
          return false, r;
        }
        if e.Emits() {
          r := r + [e.symbol];
        }
        state := e.state;
        accept := e.Accept();
        x := c % 16;
      }
    }
    assert data[..|data|] == data;
    Ended(t, nodes, dest, data, state, accept, r);
    return accept, r;
  }

  lemma Started(t: CodeTable, table: DecodeTable, nodes: seq<bits>, dest: seq<byte>)
    requires Automaton(t, table, nodes)
    ensures Reached(t, nodes, dest, [], 0, true, dest) && BytesBits([]) == []
  {
  }

  lemma CellAt(
      t: CodeTable, table: DecodeTable, nodes: seq<bits>, dest: seq<byte>, read: bits, state: nat, accept: bool,
      r: seq<byte>, x: nat)
    requires Automaton(t, table, nodes) && Reached(t, nodes, dest, read, state, accept, r) && x < 16
    ensures state < |table| == |nodes| && |table[state]| == 16 && CellRight(t, nodes, nodes[state], x, table[state][x])
  {
    hide CellRight, Run;
  }

  /** The verdict after the last byte. */
  lemma Ended(t: CodeTable, nodes: seq<bits>, dest: seq<byte>, data: seq<byte>, state: nat, accept: bool, r: seq<byte>)
    requires Reached(t, nodes, dest, BytesBits(data), state, accept, r)
    ensures Decoded(t, data).ok == accept && r == dest + Decoded(t, data).out
  {
    hide Run, Padding, BytesBits;
  }

  /** The verdict when the walk has been rejected on the way. */
  lemma Rejected(t: CodeTable, read: bits, data: seq<byte>)
    requires read <= BytesBits(data) && Run(t, START, read).rejected
    ensures !Decoded(t, data).ok && Decoded(t, data).out == Run(t, START, read).out
  {
    hide Run, Padding, BytesBits;
    RejectedPrefix(t, read, BytesBits(data));
  }

  /** The automaton's variables agree with the walk over the bits read. */
  ghost predicate Reached(
      t: CodeTable, nodes: seq<bits>, dest: seq<byte>, read: bits, state: nat, accept: bool, r: seq<byte>)
  {
    var w := Run(t, START, read);
    && !w.rejected && r == dest + w.out
    && state < |nodes| && nodes[state] == w.node && accept == Padding(w.node)
  }

  /** One cell of the automaton does what the walk does on the next four bits. */
  lemma NibbleStep(t: CodeTable, nodes: seq<bits>, dest: seq<byte>, read: bits, state: nat, accept: bool, r: seq<byte>,
                   x: nat, e: DecodeData)
    requires Reached(t, nodes, dest, read, state, accept, r) && CellRight(t, nodes, nodes[state], x, e)
    ensures e.Fails() ==> var w := Run(t, START, read + ToBits(x, 4)); w.rejected && r == dest + w.out
    ensures !e.Fails() ==>
              Reached(t, nodes, dest, read + ToBits(x, 4), e.state, e.Accept(), if e.Emits() then r + [e.symbol] else r)
  {
    var w := Run(t, START, read);
    var v := Run(t, Walker(false, [], w.node), ToBits(x, 4));
    RunConcat(t, START, read, ToBits(x, 4));
    RunOutput(t, w, ToBits(x, 4));
    assert dest + (w.out + v.out) == dest + w.out + v.out;
  }

  /** Once rejected, the walk over a longer input is rejected with the symbols met so far. */
  lemma RejectedPrefix(t: CodeTable, read: bits, s: bits)
    requires read <= s && Run(t, START, read).rejected
    ensures Run(t, START, s) == Run(t, START, read)
  {
    var rest := s[|read|..];
    assert s == read + rest;
    RunConcat(t, START, read, rest);
    RunRejected(t, Run(t, START, read), rest);
  }

  /** The bits up to byte i, then the two nibbles of byte i, begin the bits of the whole. */
  lemma BitsAt(s: seq<byte>, i: nat)
    requires i < |s|
    ensures BytesBits(s[..i + 1]) == BytesBits(s[..i]) + ToBits(s[i] / 16, 4) + ToBits(s[i] % 16, 4)
    ensures BytesBits(s[..i + 1]) <= BytesBits(s)
  {
    BytesBitsTake(s, i);
    NibbleBits(s[i]);
    Assoc(BytesBits(s[..i]), ToBits(s[i] / 16, 4), ToBits(s[i] % 16, 4));
    BytesBitsPrefix(s, i + 1);
  }

  /** Four bits never complete two code words, so one symbol field per cell suffices. */
  lemma AtMostOneSymbolPerNibble(t: CodeTable, node: bits, x: nat)
    requires GoodCode(t)
    ensures |Run(t, Walker(false, [], node), ToBits(x, 4)).out| <= 1
  {
    EmitsAfterLength(t, node, ToBits(x, 4));
  }

  lemma {:induction false} EmitsAfterLength(t: CodeTable, node: bits, s: bits)
    requires GoodCode(t)
    ensures var w := Run(t, Walker(false, [], node), s);
            if |w.out| == 0 then |w.node| <= |node| + |s| else 5 * (|w.out| - 1) + |w.node| < |s|
  {
    if s == [] {
    } else {
      EmitsAfterLength(t, node, s[..|s| - 1]);
    }
  }
}
