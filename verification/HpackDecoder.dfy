/** The decoder: a cursor that walks over a header block, filling the header list and the dynamic table. */
module HpackDecoder {
  import opened Bits
  import opened HuffmanTable
  import opened HpackStatic
  import opened HpackTable
  import opened HpackInteger
  import opened HpackBlock
  import HpackOutcomes
  import HuffmanCode
  import Huffman

  class HpackDecoder {
    const hpackTable: HpackTable
    const data: seq<byte>
    const decodeTable: Huffman.DecodeTable
    ghost const nodes: seq<bits>

    var pos: nat
    var headers: seq<Entry>
    var nameBuffer: Text
    var valueBuffer: Text

    ghost predicate Valid()
      reads this, hpackTable
    {
      hpackTable.Valid() && Huffman.Automaton(EncodeTable(), decodeTable, nodes)
    }

    function Current(): Config
      reads this, hpackTable
    {
      Config.Config(hpackTable.Value(), headers)
    }

    /** The bytes from the cursor on. */
    function Rest(): seq<byte>
      reads this
    {
      if pos <= |data| then data[pos..] else []
    }

    constructor (hpackTable: HpackTable, data: seq<byte>, decodeTable: Huffman.DecodeTable, ghost nodes: seq<bits>)
      requires hpackTable.Valid() && Huffman.Automaton(EncodeTable(), decodeTable, nodes)
      ensures Valid() && this.hpackTable == hpackTable && Rest() == data
      ensures Current() == Config.Config(hpackTable.Value(), [])
    {
      this.hpackTable, this.data, this.decodeTable, this.nodes := hpackTable, data, decodeTable, nodes;
      pos, headers, nameBuffer, valueBuffer := 0, [], [], [];
    }

    method NextByte() returns (ok: bool, value: byte)
      modifies this`pos
      ensures ok <==> pos == old(pos) + 1 < |data|
      ensures if ok then value == data[pos] else pos == old(pos) && pos + 1 >= |data|
    {
      if pos < |data| - 1 {
        pos := pos + 1;
        return true, data[pos];
      }
      return false, 0;
    }

    /**
     The first k bytes of t have been read, all of them with a set top bit, and resVal is their value behind the prefix.
     */
    ghost predicate Reading(t: seq<byte>, k: nat, resVal: uint32, prefix: nat)
      reads this
    {
      && pos + 1 <= |data| && k <= |t| && t[k..] == data[pos + 1..]
      && resVal == prefix + TailValue(t[..k])
      && forall i :: 0 <= i < k ==> t[i] >= 128
    }

    /** Reads one more group of seven bits; more tells whether another one follows. */
    method NextGroup(ghost t: seq<byte>, ghost k: nat, resVal: uint32, shift: nat, ghost prefix: nat)
      returns (ok: bool, next: uint32, more: bool)
      requires Reading(t, k, resVal, prefix) && k <= 3 && shift == Weight(k) && prefix < 256
      modifies this`pos
      ensures ok ==> pos == old(pos) + 1 < |data|
      ensures ok && more ==> Reading(t, k + 1, next, prefix)
      ensures ok && !more ==> Number(t, prefix) == Got(next, k + 1)
      ensures !ok ==> Number(t, prefix) == Bad
    {
      hide Number, TailValue;
      var b;
      ok, b := NextByte();
      if !ok {
        StillOpen(t, k);
        NoNumber(t, k, prefix);
        return false, 0, false;
      }
      assert b == t[k..][0] == t[k];
      TailSnoc(t, k);
      GroupBound(t, k);
      next := Uint32(resVal + b % 128 * shift);
      Uint32Value(resVal + b % 128 * shift);
      assert t[k + 1..] == t[k..][1..];
      more := b >= 128;
      if !more {
        Closed(t, k);
        NumberAt(t, k, prefix);
      }
    }

    /** The fifth byte, of which only four bits count. */
    method LastByte(ghost t: seq<byte>, resVal: uint32, ghost prefix: nat) returns (ok: bool, value: uint32)
      requires Reading(t, 4, resVal, prefix)
      modifies this`pos
      ensures ok ==> pos == old(pos) + 1 < |data| && Number(t, prefix) == Got(value, 5)
      ensures !ok ==> Number(t, prefix) == Bad
    {
      hide Number, TailValue;
      var b;
      ok, b := NextByte();
      LastGroup(t, resVal, prefix);
      if !ok {
        return false, 0;
      }
      assert b == t[4..][0] == t[4];
      if b > 0xF {
        return false, 0;
      }
      value := Uint32(resVal + (b as int) * 0x1000_0000);
    }

    /** readNumberAfterPrefix: the cursor ends on the last byte of the number. */
    method ReadNumberAfterPrefix(initialValue: uint32) returns (ok: bool, value: uint32)
      requires pos < |data| && initialValue < 256
      modifies this`pos
      ensures var r := Number(data[old(pos) + 1..], initialValue);
              (ok <==> r.Got?) && (ok ==> value == r.value && pos == old(pos) + r.used < |data|)
    {
      ghost var t := data[pos + 1..];
      NoGroups(t, initialValue);
      hide Number, TailValue, TailLength, Reading;
      var more;
      ok, value, more := NextGroup(t, 0, initialValue, 1, initialValue);
      if !ok || !more {
        return;
      }
      ok, value, more := NextGroup(t, 1, value, 0x80, initialValue);
      if !ok || !more {
        return;
      }
      ok, value, more := NextGroup(t, 2, value, 0x4000, initialValue);
      if !ok || !more {
        return;
      }
      ok, value, more := NextGroup(t, 3, value, 0x20_0000, initialValue);
      if !ok || !more {
        return;
      }
      ok, value := LastByte(t, value, initialValue);
    }

    /** The first part of readStringLiteral: the cursor ends on the last byte of the length. */
    method ReadLength() returns (ok: bool, huffman: bool, length: uint32)
      modifies this`pos
      ensures old(pos) + 1 >= |data| ==> !ok
      ensures old(pos) + 1 < |data| ==>
                var t := data[old(pos) + 1..];
                var l := LiteralLength(t);
                && (ok <==> l.Got?)
                && (ok ==> length == l.value && pos == old(pos) + l.used < |data| && huffman == (t[0] >= 128))
    {
      hide Number;
      ghost var start := pos;
      var initialLengthAndHuffman;
      ok, initialLengthAndHuffman := NextByte();
      if !ok {
        return false, false, 0;
      }
      ghost var t := data[start + 1..];
      assert t[0] == initialLengthAndHuffman && t[1..] == data[pos + 1..];
      var firstByteLength := initialLengthAndHuffman % 128;
      huffman := initialLengthAndHuffman >= 128;
      if firstByteLength != 0 {
        length := firstByteLength;
      } else {
        ok, length := ReadNumberAfterPrefix(0x7F);
      }
    }

    /** readStringLiteral: fills a buffer; a failure leaves it as it was. */
    method ReadStringLiteral(buffer: Text) returns (ok: bool, r: Text)
      requires Valid()
      modifies this`pos
      ensures Valid()
      ensures var l := LiteralAt(data, old(pos) + 1);
              (ok <==> l.Got?) && (if ok then r == l.value && pos == old(pos) + l.used else r == buffer)
    {
      hide LiteralLength, Uint32, Huffman.Automaton, HuffmanCode.Decoded, EncodeTable;
      ghost var start := pos;
      var huffman, length;
      ok, huffman, length := ReadLength();
      if !ok {
        return false, buffer;
      }
      ghost var t := data[start + 1..];
      pos := pos + 1;
      var available := |data| - pos;
      if available < length {
        return false, buffer;
      }
      Within(data, start + 1, pos - start - 1, length);
      r := [];
      if huffman {
        var verdict;
        verdict, r := Huffman.Decode(decodeTable, r, data[pos..pos + length], EncodeTable(), nodes);
        EmptyFirst(HuffmanCode.Decoded(EncodeTable(), data[pos..pos + length]).out);
      } else {
        r := data[pos..pos + length];
      }
      pos := pos + Uint32((length as int) - 1);
      return true, r;
    }

    /** The index check that three of the readers begin with. */
    method CheckIndex(index: uint32) returns (status: Status)
      ensures status == IndexStatus(Current(), index)
    {
      if index == 0 {
        return AssertFailure;
      }
      return if hpackTable.HasEntryAtIndex(index) then Accept else Reject;
    }

    /** The number that three of the readers begin with, in the low bits of the first byte or behind them. */
    method ReadPrefixed(mask: nat) returns (ok: bool, value: uint32)
      requires pos < |data| && mask in {15, 31, 63, 127}
      modifies this`pos
      ensures var r := Prefixed(data[old(pos)..], mask);
              (ok <==> r.Got?) && (ok ==> value == r.value && pos == old(pos) + r.used - 1)
    {
      hide Number;
      ghost var t := data[pos..];
      assert t[1..] == data[pos + 1..];
      var firstByteData := data[pos] % (mask + 1);
      if firstByteData < mask {
        return true, firstByteData;
      }
      ok, value := ReadNumberAfterPrefix(mask);
    }

    method ReadIndexedHeaderField() returns (status: Status)
      requires Valid() && pos < |data| && data[pos] >= 128
      modifies this
      ensures Valid()
      ensures var f := IndexedField(data[old(pos)..], old(Current()));
              status == f.status && Current() == f.config && (status == Accept ==> pos == old(pos) + f.used - 1)
      ensures var i, space := Prefixed(data[old(pos)..], 127), AddressSpace(old(hpackTable.dynamicTable));
              && (status == Accept <==> i.Got? && 1 <= i.value <= |space|)
              && headers == (if status == Accept then old(headers) + [space[i.value - 1]] else old(headers))
              && hpackTable.dynamicTable == old(hpackTable.dynamicTable)
    {
      hide Prefixed, HasIndex, AtIndex, Huffman.Automaton, AddressSpace;
      IndexedAtCursor(data[pos..], Current());
      if data[pos] % 128 == 0 {
        return Reject;
      }
      var res, index := ReadPrefixed(0x7F);
      if !res {
        return Reject;
      }
      status := CheckIndex(index);
      if status != Accept {
        return;
      }
      var e := Entry(hpackTable.NameAtIndex(index), hpackTable.ValueAtIndex(index));
      headers := headers + [e];
    }

    /** The name that both readers of literal fields begin with. */
    method ReadFieldName(mask: nat) returns (status: Status, name: Text)
      requires Valid() && pos < |data| && mask in {15, 63}
      modifies this`pos, this`nameBuffer
      ensures Valid()
      ensures var f := FieldName(data[old(pos)..], mask, Current());
              status == f.status && (status == Accept ==> name == f.name && pos == old(pos) + f.used - 1)
    {
      hide Prefixed, HasIndex, AtIndex, Huffman.Automaton, Literal;
      ghost var t := data[pos..];
      assert t[1..] == data[pos + 1..];
      if data[pos] % (mask + 1) == 0 {
        var res;
        res, nameBuffer := ReadStringLiteral(nameBuffer);
        return if res then Accept else Reject, nameBuffer;
      }
      var res, index := ReadPrefixed(mask);
      if !res {
        return Reject, [];
      }
      status := CheckIndex(index);
      if status != Accept {
        return status, [];
      }
      name := hpackTable.NameAtIndex(index);
    }

    /** The value that both readers of literal fields end with, and the new header. */
    method ReadFieldValue(name: Text) returns (ok: bool, e: Entry)
      requires Valid()
      modifies this`pos, this`valueBuffer, this`headers
      ensures Valid()
      ensures var l := LiteralAt(data, old(pos) + 1);
              (ok <==> l.Got?) && (ok ==> e == Entry(name, l.value) && pos == old(pos) + l.used)
      ensures headers == if ok then old(headers) + [e] else old(headers)
    {
      hide LiteralAt, Huffman.Automaton;
      ok, valueBuffer := ReadStringLiteral(valueBuffer);
      e := Entry(name, valueBuffer);
      if ok {
        headers := headers + [e];
      }
    }

    method ReadLiteralHeaderIncrementalIndexing() returns (status: Status)
      requires Valid() && pos < |data| && 64 <= data[pos] < 128
      modifies this, hpackTable
      ensures Valid()
      ensures var f := LiteralField(data[old(pos)..], 63, true, old(Current()));
              status == f.status && Current() == f.config && (status == Accept ==> pos == old(pos) + f.used - 1)
    {
      hide FieldName, LiteralAt, Huffman.Automaton;
      ghost var start := pos;
      var name;
      status, name := ReadFieldName(0x3F);
      if status != Accept {
        return;
      }
      ValueBehind(data, start, pos + 1);
      var ok, e := ReadFieldValue(name);
      if !ok {
        return Reject;
      }
      var _ := hpackTable.Add(e.name, e.value);
    }

    method ReadLiteralHeaderNoIndexing() returns (status: Status)
      requires Valid() && pos < |data| && data[pos] < 32
      modifies this
      ensures Valid()
      ensures var f := LiteralField(data[old(pos)..], 15, false, old(Current()));
              status == f.status && Current() == f.config && (status == Accept ==> pos == old(pos) + f.used - 1)
    {
      hide FieldName, LiteralAt, Huffman.Automaton;
      ghost var start := pos;
      var name;
      status, name := ReadFieldName(0x0F);
      if status != Accept {
        return;
      }
      ValueBehind(data, start, pos + 1);
      var ok, _ := ReadFieldValue(name);
      if !ok {
        return Reject;
      }
    }

    method ReadTableSizeUpdate() returns (status: Status)
      requires Valid() && pos < |data| && 32 <= data[pos] < 64
      modifies this`pos, hpackTable
      ensures Valid()
      ensures var f := SizeUpdateField(data[old(pos)..], old(Current()));
              status == f.status && Current() == f.config && (status == Accept ==> pos == old(pos) + f.used - 1)
      ensures var i := Prefixed(data[old(pos)..], 31);
              status == (if i.Got? then Accept else Reject) && (i.Got? ==> hpackTable.maxTableBytes == i.value)
    {
      hide Prefixed, Huffman.Automaton;
      var res, newSize := ReadPrefixed(0x1F);
      if !res {
        return Reject;
      }
      hpackTable.Resize(newSize);
      return Accept;
    }

    /** One field, by the bits of its first byte. */
    method ReadField() returns (status: Status)
      requires Valid() && pos < |data|
      modifies this, hpackTable
      ensures Valid()
      ensures var f := Field(data[old(pos)..], old(Current()));
              status == f.status && Current() == f.config && (status == Accept ==> pos == old(pos) + f.used - 1)
    {
      hide IndexedField, LiteralField, SizeUpdateField, Huffman.Automaton;
      var startingByte := data[pos];
      assert data[pos..][0] == startingByte;
      if startingByte >= 0x80 {
        status := ReadIndexedHeaderField();
      } else if startingByte >= 0x40 {
        status := ReadLiteralHeaderIncrementalIndexing();
      } else if startingByte >= 0x20 {
        status := ReadTableSizeUpdate();
      } else {
        status := ReadLiteralHeaderNoIndexing();
      }
    }

    /**
     The whole block: the headers and the table are what the bytes mean, and what was written if it was well written.
     */
    method Decode() returns (status: Status)
      requires Valid()
      modifies this, hpackTable
      ensures Valid()
      ensures BlockRead(status, Current()) == Block(old(Rest()), old(Current()))
      ensures forall rs :: AllReadable(rs, old(Current())) && EncodeAll(rs) == old(Rest()) ==>
                status == Accept && Current() == MeaningOfAll(rs, old(Current()))
    {
      hide Field, Huffman.Automaton, AllReadable, MeaningOfAll, EncodeAll;
      forall rs | AllReadable(rs, Current()) && EncodeAll(rs) == Rest()
        ensures Block(Rest(), Current()) == BlockRead(Accept, MeaningOfAll(rs, Current()))
      {
        BlockWritten(rs, Current());
      }
      while pos < |data|
        invariant Valid()
        invariant Block(Rest(), Current()) == Block(old(Rest()), old(Current()))
        decreases |data| - pos
      {
        ghost var start := pos;
        ghost var f := Field(data[pos..], Current());
        status := ReadField();
        if status != Accept {
          return;
        }
        pos := pos + 1;
        if pos < |data| { assert data[start..][f.used..] == data[pos..]; }
      }
      return Accept;
    }
  }

  lemma IndexedAtCursor(t: seq<byte>, c: Config)
    requires t != [] && t[0] >= 128
    ensures var f, i, space := IndexedField(t, c), Prefixed(t, 127), AddressSpace(c.table.entries);
            && (f.status == Accept <==> i.Got? && 1 <= i.value <= |space|)
            && f.config == if f.status == Accept then Config(c.table, c.headers + [space[i.value - 1]]) else c
  {
    hide AddressSpace, IndexedField;
    HpackOutcomes.IndexedExact(t, c);
  }

  lemma GroupBound(t: seq<byte>, k: nat)
    requires k <= 3 && k < |t|
    ensures TailValue(t[..k + 1]) < 0x1000_0000
  {
    Weights();
    TailBound(t[..k + 1]);
  }

  lemma NoNumber(t: seq<byte>, k: nat, prefix: nat)
    requires k == |t| && TailLength(t) > k
    ensures Number(t, prefix) == Bad
  {
  }

  lemma NumberAt(t: seq<byte>, k: nat, prefix: nat)
    requires k <= 3 && k < |t| && TailLength(t) == k + 1 && prefix < 256
    requires prefix + TailValue(t[..k + 1]) < 0x1_0000_0000
    ensures Number(t, prefix) == Got(prefix + TailValue(t[..k + 1]), k + 1)
  {
    hide TailValue;
    Uint32Value(prefix + TailValue(t[..k + 1]));
  }

  lemma Within(s: seq<byte>, from: nat, a: nat, n: nat)
    requires from + a + n <= |s|
    ensures s[from..][a..a + n] == s[from + a..from + a + n]
  {
  }

  lemma EmptyFirst(s: Text)
    ensures [] + s == s
  {
  }

  lemma NoGroups(t: seq<byte>, prefix: nat)
    ensures t[0..] == t && prefix == prefix + TailValue(t[..0])
    ensures Weight(0) == 1 && Weight(1) == 0x80 && Weight(2) == 0x4000 && Weight(3) == 0x20_0000
  {
    Weights();
  }

  /** What the fifth byte decides. */
  lemma LastGroup(t: seq<byte>, value: uint32, prefix: nat)
    requires 4 <= |t| && (forall i :: 0 <= i < 4 ==> t[i] >= 128) && value == prefix + TailValue(t[..4])
    ensures Number(t, prefix)
         == if |t| > 4 && t[4] <= 15 then Got(Uint32(value + (t[4] as int) * 0x1000_0000), 5) else Bad
  {
    StillOpen(t, 4);
    if |t| > 4 {
      TailSnoc(t, 4);
      Weights();
      if t[4] <= 15 {
        Closed(t, 4);
      } else if t[4] < 128 {
        Closed(t, 4);
      } else {
        StillOpen(t, 5);
      }
    }
  }

  lemma ValueBehind(data: seq<byte>, start: nat, next: nat)
    requires start < |data| && start <= next
    ensures LiteralAt(data[start..], next - start) == LiteralAt(data, next)
  {
    hide Literal;
    if next <= |data| {
      assert data[start..][next - start..] == data[next..];
    }
  }
}
