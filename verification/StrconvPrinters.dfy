/** The printers, which fill character buffers from the back. */
module StrconvPrinters {
  import opened Bits
  import opened Strconv

  /** The lookup string: the digit pairs 00 to 99 in a row. */
  function TwoDigitLookup(k: nat): byte
    requires k < 200
  {
    ValueAsChar(if k % 2 == 0 then k / 2 / 10 else k / 2 % 10)
  }

  /** The buffer holds the text at off and is otherwise as before. */
  ghost predicate Wrote(before: seq<byte>, after: seq<byte>, off: nat, text: seq<byte>) {
    && off + |text| <= |before| == |after|
    && after[off..off + |text|] == text
    && after[..off] == before[..off]
    && after[off + |text|..] == before[off + |text|..]
  }

  /** A number of at least two digits is the number without them and a pair of the table. */
  lemma PairText(v: nat)
    requires v >= 10
    ensures RadixText(v, 10)
         == RadixText(v / 100, 10) + [TwoDigitLookup(v % 100 * 2), TwoDigitLookup(v % 100 * 2 + 1)]
  {
    hide RadixText, ValueAsChar, TwoDigitLookup;
    PairDigits(v);
    OneMore(v);
    OneMore(v / 10);
    assert forall s: seq<byte>, a: byte, b: byte :: s + [a] + [b] == s + [a, b];
  }

  lemma OneMore(v: nat)
    requires v > 0
    ensures RadixText(v, 10) == RadixText(v / 10, 10) + [ValueAsChar(v % 10)]
  {
    hide ValueAsChar;
  }

  lemma PairDigits(v: nat)
    ensures v / 10 / 10 == v / 100
    ensures TwoDigitLookup(v % 100 * 2) == ValueAsChar(v / 10 % 10)
    ensures TwoDigitLookup(v % 100 * 2 + 1) == ValueAsChar(v % 10)
  {
    hide ValueAsChar;
    var i := v % 100;
    assert v / 10 % 10 == i / 10 && v % 10 == i % 10;
  }

  /** uint32ToStr and uint64ToStr in radix 10: two digits at a time from the back. */
  method PrintDecimal(width: Width, v: nat, buffer: array<byte>, off: nat) returns (length: nat)
    requires v <= width.Max() && off + |UnsignedText(v, 10)| <= buffer.Length
    modifies buffer
    ensures length == |UnsignedText(v, 10)|
    ensures Wrote(old(buffer[..]), buffer[..], off, UnsignedText(v, 10))
  {
    hide ValueAsChar, RadixText, UnsignedText, TwoDigitLookup;
    ghost var text := UnsignedText(v, 10);
    length := if width.W32? then DigitsBase10Of32(v) else DigitsBase10Of64(v);
    var value: nat := v;
    var next: int := length - 1;
    while value >= 100
      invariant 0 <= next + 1 <= length == |text|
      invariant text[..next + 1] == UnsignedText(value, 10)
      invariant forall k :: next < k < length ==> buffer[off + k] == text[k]
      invariant forall k :: 0 <= k < buffer.Length && !(off <= k < off + length) ==> buffer[k] == old(buffer[k])
    {
      var i := value % 100 * 2;
      PairStep(text, next, value, i);
      value := value / 100;
      buffer[off + next] := TwoDigitLookup(i + 1);
      buffer[off + next - 1] := TwoDigitLookup(i);
      next := next - 2;
    }
    if value < 10 {
      OneDigit(value);
      assert next == 0 && text[0] == text[..1][0];
      buffer[off] := '0' as int + value;
      assert forall k :: 0 <= k < length ==> buffer[off + k] == text[k];
    } else {
      var i := value * 2;
      PairStep(text, next, value, i);
      buffer[off + 1] := TwoDigitLookup(i + 1);
      buffer[off] := TwoDigitLookup(i);
      assert forall k :: 0 <= k < length ==> buffer[off + k] == text[k];
    }
    WroteAll(old(buffer[..]), buffer[..], off, text);
  }

  lemma LastTwo(text: seq<byte>, next: int, m: seq<byte>, a: byte, b: byte)
    requires 0 <= next < |text| && text[..next + 1] == m + [a, b]
    ensures next >= 1 && text[next - 1] == a && text[next] == b && text[..next - 1] == m
  {
    var t := text[..next + 1];
    assert t[next - 1] == a && t[next] == b;
    assert text[..next - 1] == t[..next - 1];
  }

  lemma WroteAll(before: seq<byte>, after: seq<byte>, off: nat, text: seq<byte>)
    requires |before| == |after| && off + |text| <= |before|
    requires forall k :: 0 <= k < |text| ==> after[off + k] == text[k]
    requires forall k :: 0 <= k < |before| && !(off <= k < off + |text|) ==> after[k] == before[k]
    ensures Wrote(before, after, off, text)
  {
  }

  /** The last two of the first next + 1 digits are a pair of the table, those before are the digits of value / 100. */
  lemma PairStep(text: seq<byte>, next: int, value: nat, i: nat)
    requires 0 <= next + 1 <= |text| && text[..next + 1] == UnsignedText(value, 10)
    requires value >= 10 && i == (if value >= 100 then value % 100 * 2 else value * 2)
    ensures i < 200 && next >= 1 && text[next - 1] == TwoDigitLookup(i) && text[next] == TwoDigitLookup(i + 1)
    ensures if value < 100 then next == 1 else text[..next - 1] == UnsignedText(value / 100, 10)
  {
    hide ValueAsChar, TwoDigitLookup;
    assert i == value % 100 * 2;
    PairText(value);
    assert |text[..next + 1]| >= 2;
    LastTwo(text, next, RadixText(value / 100, 10), TwoDigitLookup(i), TwoDigitLookup(i + 1));
  }

  lemma OneDigit(v: nat)
    requires v < 10
    ensures UnsignedText(v, 10) == ['0' as int + v]
  {
    assert v == 0 || RadixText(v, 10) == RadixText(0, 10) + [ValueAsChar(v)];
  }

  lemma AtMostHalf(v: nat, radix: nat)
    requires radix >= 2
    ensures v / radix <= v / 2
  {
    QuotientOf(v, radix);
    MulMonotone(2, radix, v / radix);
  }

  lemma {:induction false} RadixLength(v: nat, radix: nat, n: nat)
    requires 2 <= radix <= 16 && v < Pow2(n)
    ensures |RadixText(v, radix)| <= n
  {
    if v == 0 {
    } else {
      assert Pow2(0) == 1;
      Shrinks(v, radix);
      AtMostHalf(v, radix);
      RadixLength(v / radix, radix, n - 1);
    }
  }

  lemma LastDigit(s: seq<byte>, v: nat, radix: nat)
    requires 2 <= radix <= 16 && s == RadixText(v, radix)
    ensures 0 <= v / radix && 0 <= v % radix < radix
    ensures if v == 0 then s == []
            else s != [] && s[|s| - 1] == ValueAsChar(v % radix) && s[..|s| - 1] == RadixText(v / radix, radix)
  {
    if v != 0 {
      Shrinks(v, radix);
    }
  }

  /** The digits of v are in values[..length], least significant first. */
  ghost predicate Collected(values: array<byte>, length: nat, text: seq<byte>)
    reads values
  {
    && length <= |text| && length <= values.Length
    && forall k :: 0 <= k < length ==> values[k] < 16 && text[|text| - 1 - k] == ValueAsChar(values[k])
  }

  method CollectDigits(v: nat, radix: nat, values: array<byte>) returns (length: nat)
    requires 2 <= radix <= 16 && |RadixText(v, radix)| <= values.Length
    modifies values
    ensures length == |RadixText(v, radix)| && Collected(values, length, RadixText(v, radix))
  {
    hide ValueAsChar, RadixText;
    ghost var text := RadixText(v, radix);
    length := 0;
    var value: nat := v;
    assert text[..|text|] == text;
    while value > 0
      invariant Collected(values, length, text) && text[..|text| - length] == RadixText(value, radix)
      decreases value
    {
      Shrinks(value, radix);
      LastDigit(text[..|text| - length], value, radix);
      assert text[..|text| - length - 1] == text[..|text| - length][..|text| - length - 1];
      values[length] := value % radix;
      value := value / radix;
      length := length + 1;
    }
    LastDigit(text[..|text| - length], value, radix);
  }

  /** uint32ToStr and uint64ToStr in any radix: collect the digits least significant first, then turn them round. */
  method PrintRadix(width: Width, v: nat, radix: nat, buffer: array<byte>, off: nat) returns (length: nat)
    requires v < Pow2(width.Bits()) && 2 <= radix <= 16 && off + |RadixText(v, radix)| <= buffer.Length
    modifies buffer
    ensures length == |RadixText(v, radix)|
    ensures Wrote(old(buffer[..]), buffer[..], off, RadixText(v, radix))
  {
    hide ValueAsChar, RadixText, Pow2;
    ghost var text := RadixText(v, radix);
    RadixLength(v, radix, width.Bits());
    var values := new byte[width.Bits()];
    length := CollectDigits(v, radix, values);
    for i := 0 to length
      invariant Collected(values, length, text)
      invariant forall k :: 0 <= k < i ==> buffer[off + k] == text[k]
      invariant forall k :: 0 <= k < buffer.Length && !(off <= k < off + length) ==> buffer[k] == old(buffer[k])
    {
      var j := length - 1 - i;
      assert text[|text| - 1 - j] == ValueAsChar(values[j]);
      buffer[off + i] := ValueAsChar(values[j]);
    }
    WroteAll(old(buffer[..]), buffer[..], off, text);
  }

  lemma WidthPow2(width: Width)
    ensures width.Max() == Pow2(width.Bits()) - 1
  {
    hide Pow2;
    Pow2Value8();
    Pow2Add(8, 8);
    Pow2Add(16, 16);
    Pow2Add(32, 32);
  }

  /** memcpy of a text. */
  method WriteText(buffer: array<byte>, off: nat, text: seq<byte>)
    requires off + |text| <= buffer.Length
    modifies buffer
    ensures Wrote(old(buffer[..]), buffer[..], off, text)
  {
    for i := 0 to |text|
      invariant forall k :: 0 <= k < i ==> buffer[off + k] == text[k]
      invariant forall k :: 0 <= k < buffer.Length && !(off <= k < off + i) ==> buffer[k] == old(buffer[k])
    {
      buffer[off + i] := text[i];
    }
    WroteAll(old(buffer[..]), buffer[..], off, text);
  }

  /** uint32ToStr and uint64ToStr: the branch for radix 10 and the one for the others. */
  method PrintDigits(width: Width, v: nat, radix: nat, buffer: array<byte>, off: nat) returns (length: nat)
    requires v <= width.Max() && 2 <= radix <= 16 && off + |UnsignedText(v, radix)| <= buffer.Length
    modifies buffer
    ensures length == |UnsignedText(v, radix)|
    ensures Wrote(old(buffer[..]), buffer[..], off, UnsignedText(v, radix))
  {
    if radix == 10 {
      length := PrintDecimal(width, v, buffer, off);
    } else {
      WidthPow2(width);
      length := PrintRadix(width, v, radix, buffer, off);
    }
  }

  lemma WroteStart(before: seq<byte>, after: seq<byte>, text: seq<byte>)
    requires Wrote(before, after, 0, text)
    ensures |text| <= |after| && after[..|text|] == text
  {
    assert after[0..0 + |text|] == after[..|text|];
  }

  /** The public unsigned printers: the full size is returned, and as much of the text as fits is stored. */
  method PrintUnsigned(width: Width, v: nat, radix: nat, buffer: array<byte>) returns (size: nat)
    requires v <= width.Max() && 2 <= radix <= 16
    modifies buffer
    ensures size == |UnsignedText(v, radix)|
    ensures Wrote(old(buffer[..]), buffer[..], 0, UnsignedText(v, radix)[..Min(size, buffer.Length)])
  {
    hide UnsignedText, Wrote, Pow2;
    var temp := new byte[if radix == 10 then (if width.W32? then 10 else 20) else width.Bits()];
    ghost var text := UnsignedText(v, radix);
    UnsignedFits(width, v, radix);
    if buffer.Length >= temp.Length {
      size := PrintDigits(width, v, radix, buffer, 0);
      assert text[..Min(size, buffer.Length)] == text;
    } else {
      ghost var before := temp[..];
      size := PrintDigits(width, v, radix, temp, 0);
      WroteStart(before, temp[..], text);
      var n := Min(size, buffer.Length);
      assert temp[..n] == temp[..][..size][..n] == text[..n];
      WriteText(buffer, 0, temp[..n]);
    }
  }

  /** The temporary buffers of 10, 20, 32 and 64 characters suffice. */
  lemma UnsignedFits(width: Width, v: nat, radix: nat)
    requires v <= width.Max() && 2 <= radix <= 16
    ensures |UnsignedText(v, radix)| <= if radix == 10 then (if width.W32? then 10 else 20) else width.Bits()
  {
    hide Pow2;
    if radix == 10 {
      DecimalFits(width, v);
    } else {
      WidthPow2(width);
      RadixLength(v, radix, width.Bits());
    }
  }

  /** The temporary buffers of 10 and 20 characters suffice. */
  lemma DecimalFits(width: Width, v: nat)
    requires v <= width.Max()
    ensures |UnsignedText(v, 10)| <= if width.W32? then 10 else 20
  {
    if width.W32? {
      assert DigitsBase10Of32(v) <= 10;
    } else if v >= 1_0000_0000_0000 {
      assert v / 1_0000_0000_0000 < 1_0000_0000;
      assert DigitsBase10Of64(v / 1_0000_0000_0000) <= 8;
      assert DigitsBase10Of64(v) <= 20;
    } else {
      assert DigitsBase10Of64(v) <= 12;
    }
  }
}
