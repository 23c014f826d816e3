/** Which bytes are accepted as fields and blocks, which are refused, and what either does, in terms of the bytes. */
module HpackOutcomes {
  import opened Bits
  import opened HuffmanCode
  import opened HuffmanTable
  import opened HpackStatic
  import opened HpackTable
  import opened HpackInteger
  import opened HpackBlock

  // ---- integers and strings

  /** An integer is in the prefix of the first byte, or behind a prefix that is full. */
  lemma PrefixedExact(t: seq<byte>, mask: nat)
    requires t != [] && mask in {15, 31, 63, 127}
    ensures var r, low := Prefixed(t, mask), t[0] % (mask + 1);
            if low < mask then r == Got(low, 1)
            else
              var u := t[1..];
              var n := TailLength(u);
              && (r.Got? <==> n <= |u| && n <= 5 && TailValue(u[..n]) < 0x1_0000_0000)
              && (r.Got? ==> r.used == 1 + n && r.value == (mask + TailValue(u[..n])) % 0x1_0000_0000)
  {
    hide TailLength, TailValue, TailFits;
    FitsExactly(t[1..]);
  }

  /** The length of a string: the low bits of its first byte or, behind a zero, a number of 127 and more. */
  lemma LengthExact(t: seq<byte>)
    requires t != []
    ensures var r, low := LiteralLength(t), t[0] % 128;
            if low != 0 then r == Got(low, 1)
            else
              var u := t[1..];
              var n := TailLength(u);
              && (r.Got? <==> n <= |u| && n <= 5 && TailValue(u[..n]) < 0x1_0000_0000)
              && (r.Got? ==> r.used == 1 + n && r.value == (127 + TailValue(u[..n])) % 0x1_0000_0000)
  {
    hide TailLength, TailValue, TailFits;
    FitsExactly(t[1..]);
  }

  /** A string is accepted exactly when as many bytes are left as it asks for; its text is these or their decoding. */
  lemma StringExact(t: seq<byte>)
    requires t != []
    ensures var l, r := LiteralLength(t), Literal(t);
            && (r.Got? <==> l.Got? && l.used + l.value <= |t|)
            && (r.Got? ==>
                  var p := t[l.used..l.used + l.value];
                  && r.value == (if t[0] < 128 then p else Decoded(EncodeTable(), p).out)
                  && (l.value > 0 ==> r.used == l.used + l.value))
  {
    hide LiteralLength, Decoded, EncodeTable, Uint32;
    if LiteralLength(t).Got? { Uint32Value(LiteralLength(t).value - 1); }
  }

  // ---- fields

  /** An indexed field is accepted exactly when its index is in the address space; then it adds the entry there. */
  lemma IndexedExact(t: seq<byte>, c: Config)
    requires t != [] && t[0] >= 128
    ensures var f, i, space := Field(t, c), Prefixed(t, 127), AddressSpace(c.table.entries);
            && (f.status == Accept <==> i.Got? && 1 <= i.value <= |space|)
            && (f.status == AssertFailure <==> i.Got? && i.value == 0 && t[0] != 128)
            && (if f.status == Accept then
                  f.used == i.used && f.config == Config(c.table, c.headers + [space[i.value - 1]])
                else f.config == c)
  {
    hide Number, AddressSpace, StaticName, StaticValue;
    var i := Prefixed(t, 127);
    if i.Got? { OneAddressSpace(c.table.entries, i.value); }
  }

  /** A field name is accepted exactly when its index is in the address space or, without index, a string follows. */
  lemma NameExact(t: seq<byte>, mask: nat, c: Config)
    requires t != [] && mask in {15, 63}
    ensures var r, i, space := FieldName(t, mask, c), Prefixed(t, mask), AddressSpace(c.table.entries);
            if t[0] % (mask + 1) == 0 then
              && (r.status == Accept <==> Literal(t[1..]).Got?)
              && r.status != AssertFailure
              && (r.status == Accept ==> r.name == Literal(t[1..]).value && r.used == 1 + Literal(t[1..]).used)
            else
              && (r.status == Accept <==> i.Got? && 1 <= i.value <= |space|)
              && (r.status == AssertFailure <==> i.Got? && i.value == 0)
              && (r.status == Accept ==> r.name == space[i.value - 1].name && r.used == i.used)
  {
    hide Number, AddressSpace, StaticName, StaticValue, Literal;
    var i := Prefixed(t, mask);
    if i.Got? { OneAddressSpace(c.table.entries, i.value); }
  }

  /** The first byte says whether a literal field is indexed: 64 to 127 are, those below 32 are not. */
  predicate LiteralByte(b: byte) {
    b < 32 || 64 <= b < 128
  }

  function NameMask(b: byte): nat {
    if b < 64 then 15 else 63
  }

  /** A literal field is accepted exactly when its name is and a string follows; a refused one changes nothing. */
  lemma LiteralFieldExact(t: seq<byte>, c: Config)
    requires t != [] && LiteralByte(t[0])
    ensures var f, name := Field(t, c), FieldName(t, NameMask(t[0]), c);
            var there := name.status == Accept && name.used <= |t|;
            && (f.status == Accept <==> there && Literal(t[name.used..]).Got?)
            && (f.status == AssertFailure <==> name.status == AssertFailure)
            && (if f.status == Accept then
                  var v := Literal(t[name.used..]);
                  var e := Entry(name.name, v.value);
                  && f.used == name.used + v.used && f.config.headers == c.headers + [e]
                  && f.config.table == if t[0] < 64 then c.table else c.table.After(Step.Add(e))
                else f.config == c)
  {
    hide FieldName, Literal, Fit;
  }

  /** A size update is accepted exactly when its number is; it sets the limit and evicts, and adds no header. */
  lemma SizeUpdateFieldExact(t: seq<byte>, c: Config)
    requires t != [] && 32 <= t[0] < 64
    ensures var f, i := Field(t, c), Prefixed(t, 31);
            && f.status == (if i.Got? then Accept else Reject) && f.config.headers == c.headers
            && (if i.Got? then
                  && f.used == i.used && f.config.table.limit == i.value && f.config.table.entries <= c.table.entries
                  && forall m: nat :: m <= |f.config.table.entries|
                                 <==> m <= |c.table.entries| && Bytes(c.table.entries[..m]) <= i.value
                else f.config == c)
  {
    hide Number, Fit, Bytes;
    var i := Prefixed(t, 31);
    if i.Got? { ResizeExact(c.table, i.value); }
  }

  // ---- blocks

  /** What comes behind written representations is read as it would be on its own, with what they mean. */
  lemma {:induction false} BlockBehind(rs: seq<Repr>, t: seq<byte>, c: Config)
    requires AllReadable(rs, c)
    ensures Block(EncodeAll(rs) + t, c) == Block(t, MeaningOfAll(rs, c))
    decreases |rs|
  {
    hide Field, Encode, Meaning, Meaningful;
    if rs == [] {
      assert EncodeAll(rs) + t == t;
    } else {
      var e, rest := Encode(rs[0]), EncodeAll(rs[1..]) + t;
      FieldWritten(rs[0], rest, c);
      BlockBehind(rs[1..], t, Meaning(rs[0], c));
      assert EncodeAll(rs) + t == e + rest && (e + rest)[|e|..] == rest;
      if rest == [] { assert t == []; }
    }
  }

  /** A field that is refused ends the block: what came before it has been done, and nothing after it. */
  lemma RefusedBlock(rs: seq<Repr>, t: seq<byte>, c: Config)
    requires AllReadable(rs, c) && t != [] && Field(t, MeaningOfAll(rs, c)).status != Accept
    ensures Block(EncodeAll(rs) + t, c) == BlockRead(Field(t, MeaningOfAll(rs, c)).status, MeaningOfAll(rs, c))
  {
    hide AllReadable, MeaningOfAll, EncodeAll;
    BlockBehind(rs, t, c);
    RefusedField(t, MeaningOfAll(rs, c));
  }

  /** A field that is refused changes nothing. */
  lemma RefusedField(t: seq<byte>, c: Config)
    requires t != [] && Field(t, c).status != Accept
    ensures Field(t, c).config == c
  {
    hide Field;
    if t[0] >= 128 {
      IndexedExact(t, c);
    } else if LiteralByte(t[0]) {
      LiteralFieldExact(t, c);
    } else {
      SizeUpdateFieldExact(t, c);
    }
  }

  /** Index 62, when nothing has been put into the dynamic table. */
  lemma NoSuchEntry(c: Config)
    requires c.table.entries == []
    ensures Block([190], c) == BlockRead(Reject, c)
  {
    hide AddressSpace;
    IndexedExact([190], c);
    PrefixedExact([190], 127);
  }
}
