/** Numbers to text and back, in the fixed widths of the source. */
module Strconv {
  import opened Bits

  const UINT64_MAX: int := 0xFFFF_FFFF_FFFF_FFFF

  /** The widths that the source has functions for. */
  datatype Width = W32 | W64
  {
    function Bits(): nat { if W32? then 32 else 64 }
    function Max(): int { if W32? then UINT32_MAX else UINT64_MAX }
    function SignedMin(): int { if W32? then -0x8000_0000 else -0x8000_0000_0000_0000 }
  }

  // ---- digits

  const MINUS: byte := '-' as int
  const ZERO: byte := '0' as int

  /** The value of a digit character in either case, or -1. */
  function CharValue(c: byte): (v: int)
    ensures -1 <= v < 16
  {
    if '0' as int <= c <= '9' as int then c - '0' as int
    else if 'A' as int <= c <= 'F' as int then c - 'A' as int + 10
    else if 'a' as int <= c <= 'f' as int then c - 'a' as int + 10
    else -1
  }

  function ValueAsChar(d: nat): (c: byte)
    requires d < 16
    ensures CharValue(c) == d
  {
    if d < 10 then '0' as int + d else 'A' as int + d - 10
  }

  predicate IsDigit(c: byte, radix: int) {
    0 <= CharValue(c) < radix
  }

  predicate AllDigits(s: seq<byte>, radix: int) {
    forall i :: 0 <= i < |s| ==> IsDigit(s[i], radix)
  }

  /** The number that a string of digits denotes. */
  function Value(s: seq<byte>, radix: nat): int {
    if s == [] then 0 else Value(s[..|s| - 1], radix) * radix + CharValue(s[|s| - 1])
  }

  lemma {:induction false} ValueMonotone(s: seq<byte>, radix: nat, i: nat)
    requires radix >= 1 && AllDigits(s, radix) && i <= |s|
    ensures 0 <= Value(s[..i], radix) <= Value(s, radix)
    decreases |s|
  {
    if i < |s| {
      var m := s[..|s| - 1];
      ValueMonotone(m, radix, i);
      assert m[..i] == s[..i];
      Scale(Value(m, radix), radix);
    } else {
      assert s[..i] == s;
      if s != [] {
        var m := s[..|s| - 1];
        ValueMonotone(m, radix, |m|);
        assert m[..|m|] == m;
        Scale(Value(m, radix), radix);
      }
    }
  }

  lemma Scale(v: int, radix: int)
    requires v >= 0 && radix >= 1
    ensures v * radix >= v
  {
    MulMonotone(1, radix, v);
  }

  lemma ValueSnoc(s: seq<byte>, radix: nat, i: nat)
    requires i < |s|
    ensures Value(s[..i + 1], radix) == Value(s[..i], radix) * radix + CharValue(s[i])
  {
    assert s[..i + 1][..i] == s[..i];
  }

  // ---- parsing

  /** What an unsigned parser of the given greatest value must accept. */
  predicate Parses(s: seq<byte>, radix: nat, max: int) {
    2 <= radix <= 16 && s != [] && AllDigits(s, radix) && Value(s, radix) <= max
  }

  /** The guard on the accumulated result: exceeding max / radix is exactly overflowing when multiplied. */
  lemma GuardExact(r: int, radix: int, max: int)
    requires radix >= 1 && max >= 0 && r >= 0
    ensures r > max / radix <==> r * radix > max
  {
    var q := max / radix;
    assert max == radix * q + max % radix;
    if r > q {
      assert r * radix == radix * q + radix * (r - q);
      MulGrows(radix, r - q);
    } else {
      assert radix * q == r * radix + radix * (q - r);
      assert radix * (q - r) >= 0;
    }
  }

  /** No proper prefix of a string of digits denotes more than the string, so an overflow is final. */
  lemma OverflowFinal(s: seq<byte>, radix: nat, i: nat, max: int)
    requires 2 <= radix && i <= |s| && Value(s[..i], radix) > max
    ensures !Parses(s, radix, max)
  {
    if AllDigits(s, radix) {
      ValueMonotone(s, radix, i);
    }
  }

  /** One more digit: the two guards reject exactly the overflows, and nothing overflows between them. */
  method AppendDigit(result: nat, digitVal: nat, radix: nat, max: nat, multmin: int) returns (next: nat, ok: bool)
    requires radix >= 1 && result <= max && digitVal <= max && multmin == max / radix
    ensures ok <==> result * radix + digitVal <= max
    ensures ok ==> next == result * radix + digitVal
  {
    GuardExact(result, radix, max);
    if result > multmin {
      return 0, false;
    }
    next := Product(result, radix);
    assert next <= max;
    if next > max - digitVal {
      return 0, false;
    }
    return next + digitVal, true;
  }

  function Product(v: nat, radix: nat): nat {
    v * radix
  }

  /** All the characters that a 32-bit index can reach are zeros, and it comes round to them again. */
  predicate Endless(s: seq<byte>, radix: int) {
    2 <= radix <= 16 && |s| > UINT32_MAX && forall i :: 0 <= i <= UINT32_MAX ==> s[i] == ZERO
  }

  /** The loop of an unsigned parser between two rounds, and how it ends. */
  datatype Loop = Running(index: uint32, result: nat) | Ended(value: int, ok: bool)

  function LoopStart(s: seq<byte>, radix: nat): Loop {
    if !(2 <= radix <= 16) || s == [] || !IsDigit(s[0], radix) then Ended(0, false)
    else Running(1, CharValue(s[0]))
  }

  function LoopStep(s: seq<byte>, radix: nat, max: nat, l: Loop): Loop {
    match l
    case Ended(_, _) => l
    case Running(i, v) =>
      if i >= |s| then Ended(v, true)
      else if !IsDigit(s[i], radix) || Product(v, radix) + CharValue(s[i]) > max then Ended(0, false)
      else Running(Uint32(i + 1), Product(v, radix) + CharValue(s[i]))
  }

  /** The loop after n rounds, in the index of 32 bits that the source uses. */
  function LoopAfter(s: seq<byte>, radix: nat, max: nat, n: nat): Loop {
    if n == 0 then LoopStart(s, radix) else LoopStep(s, radix, max, LoopAfter(s, radix, max, n - 1))
  }

  /** On an endless text the result stays 0 and the index inside the text. */
  lemma {:induction false} StaysZero(s: seq<byte>, radix: nat, max: nat, n: nat)
    requires Endless(s, radix)
    ensures LoopAfter(s, radix, max, n) == Running(Uint32(n + 1), 0)
  {
    hide *;
    LoopNext(s, radix, max, 0);
    if n == 0 {
      StartsZero(s, radix);
    } else {
      StaysZero(s, radix, max, n - 1);
      LoopNext(s, radix, max, n - 1);
      StepZero(s, radix, max, Uint32(n));
      Uint32Next(n);
    }
  }

  lemma StartsZero(s: seq<byte>, radix: nat)
    requires Endless(s, radix)
    ensures LoopStart(s, radix) == Running(Uint32(1), 0)
  {
  }

  lemma StepZero(s: seq<byte>, radix: nat, max: nat, i: uint32)
    requires Endless(s, radix)
    ensures LoopStep(s, radix, max, Running(i, 0)) == Running(Uint32(i + 1), 0)
  {
    hide Uint32;
  }

  lemma Uint32Next(n: nat)
    ensures Uint32(Uint32(n) + 1) == Uint32(n + 1)
  {
  }

  lemma LoopNext(s: seq<byte>, radix: nat, max: nat, n: nat)
    ensures LoopAfter(s, radix, max, 0) == LoopStart(s, radix)
    ensures LoopAfter(s, radix, max, n + 1) == LoopStep(s, radix, max, LoopAfter(s, radix, max, n))
  {
    hide LoopStep, LoopStart;
  }

  /** What one round does, in terms of the index and the result before it. */
  lemma LoopRound(s: seq<byte>, radix: nat, max: nat, n: nat, i: uint32, v: nat)
    requires LoopAfter(s, radix, max, n) == Running(i, v)
    ensures var next := LoopAfter(s, radix, max, n + 1);
            if i >= |s| then next == Ended(v, true)
            else if !IsDigit(s[i], radix) || v * radix + CharValue(s[i]) > max then next == Ended(0, false)
            else next == Running(if i == UINT32_MAX then 0 else i + 1, v * radix + CharValue(s[i]))
  {
    hide IsDigit, CharValue;
    ProductIs(v, radix);
  }

  /** While the result is 0, all that has been read is zeros, and the index has not come round. */
  predicate Early(s: seq<byte>, max: nat, l: Loop) {
    l.Running? ==>
      l.result <= max && (l.result == 0 ==> l.index <= |s| && forall k :: 0 <= k < l.index ==> s[k] == ZERO)
  }

  /** An upper bound for the rounds to come. */
  function Rounds(max: nat, l: Loop): nat {
    match l
    case Ended(_, _) => 0
    case Running(i, v) => if v == 0 then max + 2 + (UINT32_MAX - i) else if v <= max then max + 1 - v else 0
  }

  /** A round on a text that is not endless comes closer to the end: the index grows, or a result that is not 0 does. */
  lemma RoundsFewer(s: seq<byte>, radix: nat, max: nat, l: Loop)
    requires 2 <= radix <= 16 && !Endless(s, radix) && l.Running? && Early(s, max, l)
    ensures var n := LoopStep(s, radix, max, l); Early(s, max, n) && Rounds(max, n) < Rounds(max, l)
  {
    hide CharValue, IsDigit, Product;
    var n := LoopStep(s, radix, max, l);
    if n.Running? {
      DigitOf(s[l.index], radix);
      Doubles(l.result, radix);
      ProductIs(l.result, radix);
      if n.result == 0 {
        ZeroDigit(s[l.index]);
        assert l.index < UINT32_MAX;
      }
    }
  }

  lemma ProductIs(v: nat, radix: nat)
    ensures Product(v, radix) == v * radix
  {
  }

  lemma ZeroDigit(c: byte)
    ensures CharValue(c) == 0 <==> c == ZERO
  {
  }

  lemma {:induction false} Ends(s: seq<byte>, radix: nat, max: nat, n: nat) returns (m: nat)
    requires 2 <= radix <= 16 && !Endless(s, radix) && Early(s, max, LoopAfter(s, radix, max, n))
    ensures LoopAfter(s, radix, max, m).Ended?
    decreases Rounds(max, LoopAfter(s, radix, max, n))
  {
    hide LoopAfter, LoopStep, Early, Rounds, Endless;
    var l := LoopAfter(s, radix, max, n);
    if l.Ended? {
      m := n;
    } else {
      LoopNext(s, radix, max, n);
      RoundsFewer(s, radix, max, l);
      m := Ends(s, radix, max, n + 1);
    }
  }

  lemma EndlessBelow(s: seq<byte>, radix: nat, max: nat)
    requires max >= 15
    ensures Endless(s, radix) <==> forall n: nat :: LoopAfter(s, radix, max, n).Running?
  {
    hide LoopAfter, CharValue, IsDigit;
    LoopNext(s, radix, max, 0);
    if Endless(s, radix) {
      forall n: nat ensures LoopAfter(s, radix, max, n).Running? {
        StaysZero(s, radix, max, n);
      }
    } else if LoopStart(s, radix).Running? {
      DigitOf(s[0], radix);
      ZeroDigit(s[0]);
      var m := Ends(s, radix, max, 0);
    }
  }

  /** The loops of the unsigned and of the signed parsers go on for ever exactly on the endless texts. */
  lemma EndlessExact(s: seq<byte>, radix: nat, width: Width)
    ensures Endless(s, radix) <==> forall n: nat :: LoopAfter(s, radix, width.Max(), n).Running?
    ensures var max := -(width.SignedMin() + 1);
            Endless(s, radix) <==> forall n: nat :: LoopAfter(s, radix, max, n).Running?
  {
    hide LoopAfter, Endless;
    EndlessBelow(s, radix, width.Max());
    EndlessBelow(s, radix, -(width.SignedMin() + 1));
  }

  /** What has been read before the index came round. */
  ghost predicate Read(s: seq<byte>, radix: nat, i: nat, result: nat) {
    1 <= i <= |s| && i <= UINT32_MAX && AllDigits(s[..i], radix) && result == Value(s[..i], radix)
  }

  lemma ReadFirst(s: seq<byte>, radix: nat)
    requires s != [] && IsDigit(s[0], radix)
    ensures Read(s, radix, 1, CharValue(s[0]))
  {
    ValueSnoc(s, radix, 0);
  }

  /** What one more digit does to what has been read; where the index comes round, the number is not 0. */
  lemma ReadNext(s: seq<byte>, radix: nat, i: nat, result: nat, max: nat)
    requires 2 <= radix <= 16 && Read(s, radix, i, result) && i < |s|
    ensures !IsDigit(s[i], radix) ==> !Parses(s, radix, max)
    ensures IsDigit(s[i], radix) ==>
              var v := result * radix + CharValue(s[i]);
              && (v > max ==> !Parses(s, radix, max))
              && (if i < UINT32_MAX then Read(s, radix, i + 1, v) else Endless(s, radix) || v > 0)
  {
    hide Value, CharValue, Parses;
    if IsDigit(s[i], radix) {
      ValueSnoc(s, radix, i);
      assert s[..i + 1] == s[..i] + [s[i]];
      if Value(s[..i + 1], radix) > max { OverflowFinal(s, radix, i + 1, max); }
      if i == UINT32_MAX && Value(s[..i + 1], radix) == 0 { ZeroValue(s, radix, i + 1); }
    } else {
      NotDigits(s, radix, i, max);
    }
  }

  lemma NotDigits(s: seq<byte>, radix: nat, i: nat, max: nat)
    requires i < |s| && !IsDigit(s[i], radix)
    ensures !Parses(s, radix, max)
  {
  }

  lemma {:induction false} ZeroValue(s: seq<byte>, radix: nat, i: nat)
    requires radix >= 1 && i <= |s| && AllDigits(s[..i], radix) && Value(s[..i], radix) == 0
    ensures forall k :: 0 <= k < i ==> s[k] == ZERO
  {
    if i == 0 {
    } else {
      hide Value;
      var v, d := Value(s[..i - 1], radix), CharValue(s[i - 1]);
      ValueSnoc(s, radix, i - 1);
      assert s[..i][i - 1] == s[i - 1] && s[..i][..i - 1] == s[..i - 1];
      assert forall k :: 0 <= k < i - 1 ==> s[..i - 1][k] == s[..i][k];
      assert v >= 0 by { ValueMonotone(s[..i - 1], radix, 0); }
      Scale(v, radix);
      ZeroValue(s, radix, i - 1);
    }
  }

  lemma Doubles(v: nat, radix: nat)
    requires radix >= 2
    ensures v * radix >= 2 * v
  {
    MulMonotone(2, radix, v);
  }

  lemma WholeRead(s: seq<byte>, radix: nat, result: nat, max: nat)
    requires 2 <= radix <= 16 && Read(s, radix, |s|, result) && result <= max
    ensures Parses(s, radix, max) && Value(s, radix) == result
  {
    assert s[..|s|] == s;
  }

  /**
   parseUint32 and parseUint64: exact acceptance and value. The index has 32 bits; a longer text is refused, unless it
   never ends.
   */
  method ParseUnsigned(width: Width, str: seq<byte>, radix: uint32) returns (result: int, ok: bool)
    requires !Endless(str, radix)
    ensures ok <==> |str| <= UINT32_MAX && Parses(str, radix, width.Max())
    ensures result == if ok then Value(str, radix) else 0
    ensures exists n: nat :: LoopAfter(str, radix, width.Max(), n) == Ended(result, ok)
  {
    hide Value, CharValue, Parses, Read, Endless, IsDigit, LoopAfter, LoopStep;
    var max: nat := width.Max();
    ghost var n: nat := 0;
    LoopNext(str, radix, max, 0);
    if radix < 2 || radix > 16 {
      BadRadix(str, radix, max);
      return 0, false;
    }
    if |str| == 0 {
      EmptyText(radix, max);
      return 0, false;
    }
    var multmin := max / radix;
    var i: nat := 0;
    var digitVal := CharValue(str[i]);
    DigitOf(str[0], radix);
    if digitVal < 0 || digitVal >= radix {
      NotDigits(str, radix, 0, max);
      return 0, false;
    }
    ReadFirst(str, radix);
    var value: nat := digitVal;
    i := 1;
    ghost var round := false;
    while i < |str|
      invariant value <= max && i <= UINT32_MAX && LoopAfter(str, radix, max, n) == Running(i, value)
      invariant if round then |str| > UINT32_MAX && value > 0 else Read(str, radix, i, value) && i <= |str|
      decreases if value == 0 then max + 1 + (UINT32_MAX - i) else max - value
    {
      digitVal := CharValue(str[i]);
      DigitOf(str[i], radix);
      if !round { ReadNext(str, radix, i, value, max); }
      LoopRound(str, radix, max, n, i, value);
      if digitVal < 0 || digitVal >= radix {
        return 0, false;
      }
      Doubles(value, radix);
      var next, fits := AppendDigit(value, digitVal, radix, max, multmin);
      if !fits {
        return 0, false;
      }
      value := next;
      round := round || i == UINT32_MAX;
      i := if i == UINT32_MAX then 0 else i + 1;
      n := n + 1;
    }
    LoopRound(str, radix, max, n, i, value);
    WholeRead(str, radix, value, max);
    return value, true;
  }

  /** A text of 2^32 characters, all of them zeros but the last. */
  function LongOne(): (s: seq<byte>)
    ensures |s| == UINT32_MAX + 1
  {
    seq(UINT32_MAX + 1, k => if k == UINT32_MAX then ZERO + 1 else ZERO)
  }

  lemma {:induction false} ZerosValue(s: seq<byte>, radix: nat, i: nat)
    requires radix > 0 && i <= |s| && forall k :: 0 <= k < i ==> s[k] == ZERO
    ensures AllDigits(s[..i], radix) && Value(s[..i], radix) == 0
  {
    if i == 0 {
    } else {
      ZerosValue(s, radix, i - 1);
      ValueSnoc(s, radix, i - 1);
      assert s[..i] == s[..i - 1] + [s[i - 1]];
    }
  }

  /** It denotes 1, and is refused. */
  method LongOneRefused() returns (ok: bool)
    ensures !ok && Parses(LongOne(), 10, UINT32_MAX) && Value(LongOne(), 10) == 1
  {
    LongOneParses();
    hide *;
    var result;
    result, ok := ParseUnsigned(W32, LongOne(), 10);
  }

  lemma LongOneParses()
    ensures Parses(LongOne(), 10, UINT32_MAX) && Value(LongOne(), 10) == 1 && !Endless(LongOne(), 10)
  {
    hide Value;
    var s := LongOne();
    ZerosValue(s, 10, UINT32_MAX);
    ValueSnoc(s, 10, UINT32_MAX);
    assert s == s[..UINT32_MAX] + [ZERO + 1] == s[..UINT32_MAX + 1];
  }

  lemma BadRadix(s: seq<byte>, radix: nat, max: nat)
    requires radix < 2 || radix > 16
    ensures !Parses(s, radix, max)
  {
  }

  lemma EmptyText(radix: nat, max: nat)
    ensures !Parses([], radix, max)
  {
  }

  lemma DigitOf(c: byte, radix: nat)
    ensures IsDigit(c, radix) <==> 0 <= CharValue(c) < radix
    ensures CharValue(c) < 16
  {
  }

  /** The digits after an optional minus sign. */
  function Unsigned(s: seq<byte>): seq<byte> {
    if s != [] && s[0] == MINUS then s[1..] else s
  }

  function SignedValue(s: seq<byte>, radix: nat): int {
    if s != [] && s[0] == MINUS then -Value(s[1..], radix) else Value(s, radix)
  }

  /** What a signed parser of the given least value must accept. */
  predicate ParsesSigned(s: seq<byte>, radix: nat, min: int) {
    && 2 <= radix <= 16 && Unsigned(s) != [] && AllDigits(Unsigned(s), radix)
    && min <= SignedValue(s, radix) <= -(min + 1)
  }

  /** Integer division as the source's language does it, truncating toward zero. */
  function Quotient(a: int, b: int): int
    requires b > 0
  {
    if a >= 0 then a / b else -(-a / b)
  }

  /** One more digit of a number that is accumulated negatively. */
  method SubtractDigit(result: int, digitVal: nat, radix: nat, limit: int, multmin: int) returns (next: int, ok: bool)
    requires radix >= 1 && limit <= result <= 0 && limit + digitVal <= 0 && multmin == Quotient(limit, radix)
    ensures ok <==> limit <= -(-result * radix + digitVal)
    ensures ok ==> next == -(-result * radix + digitVal)
  {
    GuardExact(-result, radix, -limit);
    Negated(result, radix);
    if result < multmin {
      return 0, false;
    }
    next := -(Product(-result, radix) as int);
    assert limit <= next <= 0;
    if next < limit + digitVal {
      return 0, false;
    }
    return next - digitVal, true;
  }

  lemma Negated(v: int, radix: int)
    ensures -v * radix == -(v * radix)
  {
  }

  /** A signed text parses exactly when its digits denote at most the least or the greatest value. */
  lemma SignedParses(s: seq<byte>, radix: nat, min: int)
    requires min < 0
    ensures var t, negative := Unsigned(s), s != [] && s[0] == MINUS;
            && (ParsesSigned(s, radix, min) <==> Parses(t, radix, if negative then -min else -(min + 1)))
            && SignedValue(s, radix) == if negative then -Value(t, radix) else Value(t, radix)
  {
    var t := Unsigned(s);
    if AllDigits(t, radix) && radix >= 1 {
      ValueMonotone(t, radix, 0);
    }
  }

  lemma MinusIsNoDigit(radix: nat)
    ensures !IsDigit(MINUS, radix)
  {
  }

  /** The digits behind an optional sign, accumulated negatively; an index that comes round to a sign ends the loop. */
  method SignedDigits(str: seq<byte>, radix: nat, negative: bool, limit: int)
      returns (result: int, ok: bool, ghost n: nat)
    requires !Endless(str, radix) && 2 <= radix <= 16 && limit <= -15
    requires str != [] && negative == (str[0] == MINUS) && Unsigned(str) != []
    ensures ok <==> |str| <= UINT32_MAX && Parses(Unsigned(str), radix, -limit)
    ensures result == if ok then -Value(Unsigned(str), radix) else 0
    ensures !negative ==> LoopAfter(str, radix, -limit, n) == Ended(-result, ok)
  {
    hide Value, CharValue, Parses, Read, Endless, IsDigit, Quotient, LoopAfter, LoopStep;
    n := 0;
    var i: nat := if negative then 1 else 0;
    var multmin: int := Quotient(limit, radix);
    ghost var digits, k, max: nat := Unsigned(str), i, -limit;
    LoopNext(str, radix, max, 0);
    var digitVal := CharValue(str[i]);
    DigitOf(str[i], radix);
    if digitVal < 0 || digitVal >= radix {
      NotDigits(digits, radix, 0, max);
      return 0, false, 0;
    }
    ReadFirst(digits, radix);
    MinusIsNoDigit(radix);
    result := -digitVal;
    i := i + 1;
    ghost var round := false;
    while i < |str|
      invariant limit <= result <= 0 && i <= UINT32_MAX
      invariant if round then |str| > UINT32_MAX && (if negative then i == 0 else result < 0)
                else k < i <= |str| && Read(digits, radix, i - k, -result)
      invariant !negative ==> LoopAfter(str, radix, max, n) == Running(i, -result)
      decreases if round && negative then 0 else if result == 0 then max + 2 + (UINT32_MAX - i) else max + 1 + result
    {
      digitVal := CharValue(str[i]);
      DigitOf(str[i], radix);
      if !round { ReadNext(digits, radix, i - k, -result, max); }
      if !negative { LoopRound(str, radix, max, n, i, -result); }
      if digitVal < 0 || digitVal >= radix {
        return 0, false, n + 1;
      }
      Doubles(-result, radix);
      var next, fits := SubtractDigit(result, digitVal, radix, limit, multmin);
      if !fits {
        return 0, false, n + 1;
      }
      result := next;
      round := round || i == UINT32_MAX;
      i := if i == UINT32_MAX then 0 else i + 1;
      n := n + 1;
    }
    if !negative { LoopRound(str, radix, max, n, i, -result); }
    WholeRead(digits, radix, -result, max);
    return result, true, n + 1;
  }

  /** parseInt32 and parseInt64. */
  method ParseSigned(width: Width, str: seq<byte>, radix: uint32) returns (result: int, ok: bool)
    requires !Endless(str, radix)
    ensures ok <==> |str| <= UINT32_MAX && ParsesSigned(str, radix, width.SignedMin())
    ensures result == if ok then SignedValue(str, radix) else 0
    ensures var max := -(width.SignedMin() + 1);
            str == [] || str[0] != MINUS ==> exists n: nat :: LoopAfter(str, radix, max, n) == Ended(result, ok)
  {
    hide Value, Parses, Endless, IsDigit, SignedValue, ParsesSigned, LoopAfter, LoopStep;
    var min := width.SignedMin();
    ghost var n: nat := 0;
    LoopNext(str, radix, -(min + 1), 0);
    SignedParses(str, radix, min);
    if radix < 2 || radix > 16 {
      BadRadix(Unsigned(str), radix, -min);
      BadRadix(Unsigned(str), radix, -(min + 1));
      return 0, false;
    }
    EmptyText(radix, -min);
    EmptyText(radix, -(min + 1));
    if |str| == 0 {
      return 0, false;
    }
    var negative := false;
    var limit: int := min + 1;
    if str[0] == MINUS {
      if |str| == 1 {
        return 0, false;
      }
      negative := true;
      limit := min;
    }
    result, ok, n := SignedDigits(str, radix, negative, limit);
    if !negative {
      result := -result;
    }
  }

  // ---- printing

  /** The digits of v, most significant first; nothing for 0. */
  function RadixText(v: nat, radix: nat): (s: seq<byte>)
    requires 2 <= radix <= 16
    ensures v > 0 ==> s != []
  {
    if v == 0 then [] else
      Shrinks(v, radix);
      RadixText(v / radix, radix) + [ValueAsChar(v % radix)]
  }

  lemma Shrinks(v: nat, radix: nat)
    requires v > 0 && radix >= 2
    ensures 0 <= v / radix < v && 0 <= v % radix < radix
  {
    QuotientOf(v, radix);
    MulMonotone(2, radix, v / radix);
  }

  lemma QuotientOf(v: nat, radix: nat)
    requires radix > 0
    ensures v / radix >= 0 && 0 <= v % radix < radix && v == radix * (v / radix) + v % radix
  {
  }

  /** What the unsigned printers write. */
  function UnsignedText(v: nat, radix: nat): seq<byte>
    requires 2 <= radix <= 16
  {
    if v == 0 && radix == 10 then [ValueAsChar(0)] else RadixText(v, radix)
  }

  lemma ValueOfSnoc(m: seq<byte>, c: byte, radix: nat)
    ensures Value(m + [c], radix) == Value(m, radix) * radix + CharValue(c)
    ensures AllDigits(m, radix) && IsDigit(c, radix) <==> AllDigits(m + [c], radix)
  {
    assert (m + [c])[..|m|] == m;
    if AllDigits(m + [c], radix) {
      assert (m + [c])[|m|] == c;
      assert forall i :: 0 <= i < |m| ==> (m + [c])[i] == m[i];
    }
  }

  lemma DivMod(v: int, radix: int)
    requires radix > 0
    ensures v / radix * radix + v % radix == v
  {
  }

  lemma {:induction false} TextValue(v: nat, radix: nat)
    requires 2 <= radix <= 16
    ensures AllDigits(RadixText(v, radix), radix) && Value(RadixText(v, radix), radix) == v
  {
    hide CharValue, ValueAsChar, Value, AllDigits;
    if v != 0 {
      Shrinks(v, radix);
      TextValue(v / radix, radix);
      ValueOfSnoc(RadixText(v / radix, radix), ValueAsChar(v % radix), radix);
      DivMod(v, radix);
    } else {
      EmptyValue(radix);
    }
  }

  lemma EmptyValue(radix: nat)
    ensures AllDigits([], radix) && Value([], radix) == 0
  {
  }

  /** Printing an unsigned number and parsing the text gives the number back, except that 0 prints as nothing outside
      radix 10. */
  lemma PrintThenParse(width: Width, v: nat, radix: nat)
    requires 2 <= radix <= 16 && v <= width.Max()
    ensures var s := UnsignedText(v, radix);
            (Parses(s, radix, width.Max()) && Value(s, radix) == v) <==> (v != 0 || radix == 10)
  {
    TextValue(v, radix);
  }

  /** In radix 2 the number 0 prints as a text that does not parse. */
  lemma ZeroInRadix2(width: Width)
    ensures UnsignedText(0, 2) == [] && !Parses(UnsignedText(0, 2), 2, width.Max())
  {
    PrintThenParse(width, 0, 2);
  }

  /** Upper-case digits without leading zero. */
  predicate CanonicalText(s: seq<byte>, radix: nat) {
    && AllDigits(s, radix)
    && (s != [] ==> CharValue(s[0]) != 0)
    && (forall i :: 0 <= i < |s| ==> s[i] < 'a' as int)
  }

  /** The texts that the printers produce; radix 10 has a text for 0. */
  predicate PrintedText(s: seq<byte>, radix: nat) {
    if radix == 10 then s == [ZERO] || (s != [] && CanonicalText(s, radix)) else CanonicalText(s, radix)
  }

  lemma CanonicalSnoc(m: seq<byte>, c: byte, radix: nat)
    requires 2 <= radix <= 16 && CanonicalText(m + [c], radix)
    ensures CanonicalText(m, radix) && 0 <= CharValue(c) < radix && ValueAsChar(CharValue(c)) == c
    ensures m == [] ==> CharValue(c) > 0
  {
    var s := m + [c];
    assert s[|m|] == c && IsDigit(s[|m|], radix);
    assert forall i :: 0 <= i < |m| ==> m[i] == s[i] && IsDigit(s[i], radix);
  }

  lemma TextStep(w: nat, d: nat, radix: nat)
    requires 2 <= radix <= 16 && d < radix && (w > 0 || d > 0)
    ensures w * radix + d >= w + 1
    ensures RadixText(w * radix + d, radix) == RadixText(w, radix) + [ValueAsChar(d)]
  {
    hide ValueAsChar;
    var p := w * radix;
    assert p >= w by { Scale(w, radix); }
    if w > 0 {
      assert p == 2 * w + w * (radix - 2);
      assert w * (radix - 2) >= 0;
    }
    DivUnique(p + d, radix, w, d);
  }

  lemma NothingPrinted(radix: nat)
    requires 2 <= radix <= 16
    ensures Value([], radix) == 0 && RadixText(0, radix) == []
  {
  }

  lemma {:induction false} CanonicalIsPrinted(s: seq<byte>, radix: nat)
    requires 2 <= radix <= 16 && CanonicalText(s, radix)
    ensures Value(s, radix) >= |s| && RadixText(Value(s, radix), radix) == s
  {
    hide CharValue, ValueAsChar, AllDigits, CanonicalText, Value, RadixText;
    if s == [] {
      NothingPrinted(radix);
    } else {
      var m, c := s[..|s| - 1], s[|s| - 1];
      assert s == m + [c];
      CanonicalSnoc(m, c, radix);
      CanonicalIsPrinted(m, radix);
      ValueOfSnoc(m, c, radix);
      TextStep(Value(m, radix), CharValue(c), radix);
    }
  }

  lemma {:induction false} PrintedIsCanonical(v: nat, radix: nat)
    requires 2 <= radix <= 16
    ensures CanonicalText(RadixText(v, radix), radix)
  {
    if v == 0 {
    } else {
      Shrinks(v, radix);
      PrintedIsCanonical(v / radix, radix);
      var m, c := RadixText(v / radix, radix), ValueAsChar(v % radix);
      DivMod(v, radix);
      assert RadixText(v, radix) == m + [c];
      assert m == [] ==> v / radix == 0;
      SnocCanonical(m, c, radix);
    }
  }

  lemma SnocCanonical(m: seq<byte>, c: byte, radix: nat)
    requires CanonicalText(m, radix) && IsDigit(c, radix) && c < 'a' as int && (m == [] ==> CharValue(c) != 0)
    ensures CanonicalText(m + [c], radix)
  {
    assert forall i :: 0 <= i < |m| ==> (m + [c])[i] == m[i];
  }

  /**
   Parsing a text of digits and printing the number gives the text back exactly when a printer could have produced it.
   */
  lemma ParseThenPrint(s: seq<byte>, radix: nat)
    requires 2 <= radix <= 16 && AllDigits(s, radix)
    ensures 0 <= Value(s, radix) && (UnsignedText(Value(s, radix), radix) == s <==> PrintedText(s, radix))
  {
    ValueMonotone(s, radix, 0);
    var v: nat := Value(s, radix);
    PrintedIsCanonical(v, radix);
    if CanonicalText(s, radix) { CanonicalIsPrinted(s, radix); }
    ValueOfSnoc([], ZERO, radix);
    assert [] + [ZERO] == [ZERO];
  }

  // ---- the characters

  const UPPER := "0123456789ABCDEF"
  const LOWER := "0123456789abcdef"

  /** The digit characters, in either case, and no others; printed are those in upper case. */
  lemma DigitCharacters(c: byte, d: nat)
    requires d < 16
    ensures CharValue(c) == d <==> c == UPPER[d] as int || c == LOWER[d] as int
    ensures ValueAsChar(d) == UPPER[d] as int
    ensures CharValue(c) == -1 <==> forall k :: 0 <= k < 16 ==> c != UPPER[k] as int && c != LOWER[k] as int
  {
    if CharValue(c) >= 0 {
      OneCharacter(c, CharValue(c));
    } else {
      forall k | 0 <= k < 16 ensures c != UPPER[k] as int && c != LOWER[k] as int {
        OneCharacter(c, k);
      }
    }
    OneCharacter(c, d);
    OneCharacter(ValueAsChar(d), d);
  }

  lemma OneCharacter(c: byte, d: nat)
    requires d < 16
    ensures CharValue(c) == d <==> c == UPPER[d] as int || c == LOWER[d] as int
    ensures ValueAsChar(d) == UPPER[d] as int
  {
  }

  /** The same character with a letter from A to F in lower case. */
  function Lowered(c: byte): byte {
    if 65 <= c <= 70 then c + 32 else c
  }

  function LowerText(s: seq<byte>): (t: seq<byte>)
    ensures |t| == |s|
  {
    seq(|s|, i requires 0 <= i < |s| => Lowered(s[i]))
  }

  lemma SameDigit(c: byte)
    ensures CharValue(Lowered(c)) == CharValue(c)
  {
  }

  /** The case of letters does not matter. */
  lemma {:induction false} CaseIgnored(s: seq<byte>, radix: nat, max: int)
    ensures Value(LowerText(s), radix) == Value(s, radix) && (AllDigits(LowerText(s), radix) <==> AllDigits(s, radix))
    ensures Parses(LowerText(s), radix, max) <==> Parses(s, radix, max)
  {
    hide CharValue, Lowered;
    forall c: byte ensures CharValue(Lowered(c)) == CharValue(c) {
      SameDigit(c);
    }
    if s == [] {
    } else {
      var m := s[..|s| - 1];
      CaseIgnored(m, radix, max);
      assert LowerText(s)[..|s| - 1] == LowerText(m);
      SameDigits(s, radix);
    }
  }

  lemma SameDigits(s: seq<byte>, radix: nat)
    ensures AllDigits(LowerText(s), radix) <==> AllDigits(s, radix)
  {
    forall i | 0 <= i < |s| ensures CharValue(LowerText(s)[i]) == CharValue(s[i]) {
      SameDigit(s[i]);
    }
    if AllDigits(LowerText(s), radix) {
      forall i | 0 <= i < |s| ensures IsDigit(s[i], radix) {
        assert IsDigit(LowerText(s)[i], radix);
      }
    }
  }

  /** Printed text turned to lower case parses as the number too, exactly when the text itself does. */
  lemma LowerRoundTrip(width: Width, v: nat, radix: nat)
    requires v <= width.Max() && 2 <= radix <= 16
    ensures var s := LowerText(UnsignedText(v, radix));
            (Parses(s, radix, width.Max()) && Value(s, radix) == v) <==> v != 0 || radix == 10
  {
    hide UnsignedText, Parses, Value, LowerText;
    CaseIgnored(UnsignedText(v, radix), radix, width.Max());
    PrintThenParse(width, v, radix);
  }

  /** The text ff is 255, whatever the case of its letters. */
  lemma LetterPair(a: byte, b: byte)
    requires a in {70, 102} && b in {70, 102}
    ensures Parses([a, b], 16, UINT32_MAX) && Value([a, b], 16) == 255
  {
    ValueOfSnoc([], a, 16);
    ValueOfSnoc([a], b, 16);
    assert [] + [a] == [a] && [a] + [b] == [a, b];
  }

  /** The texts of 32-bit and 64-bit numbers, by their bounds. */
  lemma TextsExact(s: seq<byte>, radix: nat)
    ensures Parses(s, radix, W32.Max()) <==>
              2 <= radix <= 16 && s != [] && AllDigits(s, radix) && Value(s, radix) <= 4294967295
    ensures Parses(s, radix, W64.Max()) <==>
              2 <= radix <= 16 && s != [] && AllDigits(s, radix) && Value(s, radix) <= 18446744073709551615
  {
    hide Value, AllDigits;
  }

  /** The texts of signed numbers: digits, with a minus sign in front of them or not, but no other sign. */
  lemma SignedTextsExact(s: seq<byte>, radix: nat, width: Width)
    ensures var d, m := if s != [] && s[0] == 45 then s[1..] else s,
                        if width.W32? then 2147483648 else 9223372036854775808;
            && (ParsesSigned(s, radix, width.SignedMin()) <==>
                  && 2 <= radix <= 16 && d != [] && AllDigits(d, radix)
                  && Value(d, radix) <= if |d| < |s| then m else m - 1)
            && SignedValue(s, radix) == if |d| < |s| then -Value(d, radix) else Value(d, radix)
  {
    hide Value, AllDigits;
    SignedParses(s, radix, width.SignedMin());
  }

  // ---- the number of decimal digits

  function Pow10(n: nat): (p: nat)
    ensures p >= 1
  {
    if n == 0 then 1 else 10 * Pow10(n - 1)
  }

  lemma PowersOfTen()
    ensures Pow10(1) == 10 && Pow10(2) == 100 && Pow10(3) == 1000 && Pow10(4) == 1_0000 && Pow10(5) == 10_0000
    ensures Pow10(6) == 100_0000 && Pow10(7) == 1000_0000 && Pow10(8) == 1_0000_0000 && Pow10(9) == 10_0000_0000
    ensures Pow10(10) == 100_0000_0000 && Pow10(11) == 1000_0000_0000 && Pow10(12) == 1_0000_0000_0000
  {
  }

  lemma DivByTen(v: nat, p: nat)
    requires p > 0
    ensures v / 10 / p == v / (10 * p)
  {
    var q, r := v / (10 * p), v % (10 * p);
    assert v == (10 * p) * q + r;
    assert (10 * p) * q == 10 * (p * q);
    DivUnique(v / 10, p, q, r / 10);
  }

  lemma {:induction false} LengthIs(v: nat, k: nat)
    requires k >= 1 && Pow10(k - 1) <= v < Pow10(k)
    ensures |RadixText(v, 10)| == k
  {
    if k > 1 {
      LengthIs(v / 10, k - 1);
    } else {
      assert RadixText(v / 10, 10) == [];
    }
  }

  lemma {:induction false} LengthShift(v: nat, k: nat)
    requires v >= Pow10(k)
    ensures 0 <= v / Pow10(k) && |RadixText(v, 10)| == k + |RadixText(v / Pow10(k), 10)|
  {
    if k == 0 {
    } else {
      LengthShift(v / 10, k - 1);
      DivByTen(v, Pow10(k - 1));
    }
  }

  /** The comparison tree of the 32-bit digitsBase10. */
  function DigitsBase10Of32(v: uint32): (n: nat)
    ensures n == |UnsignedText(v, 10)|
  {
    DecimalLengths(v);
    if v < 10 then 1
    else if v < 100 then 2
    else if v < 1000 then 3
    else if v < 100_0000 then
      if v < 1_0000 then 4 else 5 + (if v >= 10_0000 then 1 else 0)
    else if v < 10_0000_0000 then
      if v < 1000_0000 then 7 else 8 + (if v >= 1_0000_0000 then 1 else 0)
    else 10
  }

  /** The comparison tree of the 64-bit digitsBase10, which recurs on twelve digits fewer. */
  function DigitsBase10Of64(v: nat): (n: nat)
    ensures n == |UnsignedText(v, 10)|
  {
    DecimalLengths(v);
    if v < 10 then 1
    else if v < 100 then 2
    else if v < 1000 then 3
    else if v < 1_0000_0000_0000 then
      if v < 1_0000_0000 then
        if v < 100_0000 then
          if v < 1_0000 then 4 else 5 + (if v >= 10_0000 then 1 else 0)
        else 7 + (if v >= 1000_0000 then 1 else 0)
      else if v < 100_0000_0000 then 9 + (if v >= 10_0000_0000 then 1 else 0)
      else 11 + (if v >= 1000_0000_0000 then 1 else 0)
    else 12 + DigitsBase10Of64(v / 1_0000_0000_0000)
  }

  lemma DecimalLengths(v: nat)
    ensures forall k :: 1 <= k <= 12 && Pow10(k - 1) <= v < Pow10(k) ==> |RadixText(v, 10)| == k
    ensures v >= 1_0000_0000_0000 ==> |RadixText(v, 10)| == 12 + |RadixText(v / 1_0000_0000_0000, 10)|
    ensures Pow10(0) == 1
    ensures Pow10(1) == 10 && Pow10(2) == 100 && Pow10(3) == 1000 && Pow10(4) == 1_0000 && Pow10(5) == 10_0000
    ensures Pow10(6) == 100_0000 && Pow10(7) == 1000_0000 && Pow10(8) == 1_0000_0000 && Pow10(9) == 10_0000_0000
    ensures Pow10(10) == 100_0000_0000 && Pow10(11) == 1000_0000_0000 && Pow10(12) == 1_0000_0000_0000
  {
    PowersOfTen();
    forall k | 1 <= k <= 12 && Pow10(k - 1) <= v < Pow10(k)
      ensures |RadixText(v, 10)| == k
    {
      LengthIs(v, k);
    }
    if v >= Pow10(12) {
      LengthShift(v, 12);
    }
  }
}
