/** The signed printers, with the literals that stand for the least values. */
module StrconvSigned {
  import opened Bits
  import opened Strconv
  import opened StrconvPrinters

  // ---- the literals

  /** The digits of the literals for the least values, without the minus sign, as the source's tables have them. */
  function MinDigits(width: Width, radix: nat): (d: seq<nat>)
    requires 2 <= radix <= 16
  {
    match width
    case W32 => MinDigits32(radix)
    case W64 => MinDigits64(radix)
  }

  /** A digit before n zeros. */
  function Padded(a: nat, n: nat): (d: seq<nat>)
    ensures |d| == n + 1 && d[0] == a && forall i :: 0 < i <= n ==> d[i] == 0
  {
    [a] + seq(n, i => 0)
  }

  function MinDigits32(radix: nat): (d: seq<nat>)
    requires 2 <= radix <= 16
  {
    match radix
    case 2 => Padded(1, 31)
    case 3 => [1, 2, 1, 1, 2, 1, 2, 2, 2, 1, 2, 1, 1, 0, 2, 0, 2, 1, 0, 2]
    case 4 => Padded(2, 15)
    case 5 => [1, 3, 3, 4, 4, 2, 2, 3, 4, 3, 4, 0, 4, 3]
    case 6 => [5, 5, 3, 0, 3, 2, 0, 0, 5, 5, 3, 2]
    case 7 => [1, 0, 4, 1, 3, 4, 2, 1, 1, 1, 6, 2]
    case 8 => Padded(2, 10)
    case 9 => [5, 4, 7, 8, 7, 7, 3, 6, 7, 2]
    case 10 => [2, 1, 4, 7, 4, 8, 3, 6, 4, 8]
    case 11 => [10, 0, 2, 2, 2, 0, 2, 8, 2]
    case 12 => [4, 11, 11, 2, 3, 0, 8, 10, 8]
    case 13 => [2, 8, 2, 11, 10, 4, 10, 10, 11]
    case 14 => [1, 6, 5, 2, 12, 10, 9, 3, 2]
    case 15 => [12, 8, 7, 14, 6, 6, 11, 8]
    case _ => Padded(8, 7)
  }

  function MinDigits64(radix: nat): (d: seq<nat>)
    requires 2 <= radix <= 16
  {
    match radix
    case 2 => Padded(1, 63)
    case 3 =>
      [2, 0, 2, 1, 1, 1, 0, 0, 1, 1, 0, 2, 2] + [2, 1, 0, 0, 1, 2, 1, 0, 2, 0, 1, 0, 0]
      + [2, 1, 2, 2, 0, 1, 0, 1, 2, 2, 0, 1, 0] + [2]
    case 4 => Padded(2, 31)
    case 5 => [1, 1, 0, 4, 3, 3, 2, 4, 0, 1, 3, 0, 4] + [4, 2, 2, 4, 3, 4, 3, 1, 0, 3, 1, 0, 0] + [4, 0]
    case 6 => [1, 5, 4, 0, 2, 4, 1, 0, 0, 3, 0, 3, 1] + [0, 3, 0, 2, 2, 2, 1, 2, 2, 2, 1, 2]
    case 7 => [2, 2, 3, 4, 1, 0, 1, 0, 6, 1, 1, 2, 4, 5, 0, 5, 2, 0, 5, 0, 6, 1, 4]
    case 8 => Padded(1, 21)
    case 9 => [6, 7, 4, 0, 4, 2, 8, 3, 1, 7, 2, 1, 0, 7, 8, 1, 1, 7, 6, 6]
    case 10 => [9, 2, 2, 3, 3, 7, 2, 0, 3, 6, 8, 5, 4, 7, 7, 5, 8, 0, 8]
    case 11 => [1, 7, 2, 8, 0, 0, 2, 6, 3, 5, 2, 1, 4, 5, 9, 0, 9, 6, 6]
    case 12 => [4, 1, 10, 7, 9, 2, 6, 7, 8, 5, 1, 5, 1, 2, 0, 3, 6, 8]
    case 13 => [1, 0, 11, 2, 6, 9, 5, 4, 9, 0, 7, 5, 4, 3, 3, 5, 1, 5]
    case 14 => [4, 3, 4, 0, 7, 2, 4, 12, 6, 12, 7, 1, 13, 12, 7, 10, 8]
    case 15 => [1, 6, 0, 14, 2, 10, 13, 3, 2, 4, 6, 3, 6, 6, 6, 6, 13]
    case _ => Padded(8, 15)
  }

  /** The number that the first i digits denote. */
  function Eval(d: seq<nat>, i: nat, radix: nat): nat
    requires i <= |d|
  {
    if i == 0 then 0 else Eval(d, i - 1, radix) * radix + d[i - 1]
  }

  /** The first i digits are digits of the radix. */
  predicate Below(d: seq<nat>, i: nat, radix: nat)
    requires i <= |d|
  {
    i == 0 || (Below(d, i - 1, radix) && d[i - 1] < radix)
  }

  /** What the literal denotes: the least value, except in the odd radices of 64 bits. */
  function LiteralValue(width: Width, radix: nat): int {
    if width.W32? || radix % 2 == 0 then -width.SignedMin()
    else
      match radix
      case 3 => 9223372036854775793
      case 5 => 9223372036854775645
      case 7 => 9223372036854775279
      case 9 => 9223372036854775761
      case 11 => 9223372036854776136
      case 13 => 9223372036854774596
      case _ => 9223372036854775453
  }

  /** The literal fits its buffer, consists of digits of the radix, and denotes a number. */
  ghost predicate Literal(width: Width, radix: nat, value: int)
    requires 2 <= radix <= 16
  {
    var d := MinDigits(width, radix);
    && 0 < |d| <= (if radix == 10 then (if width.W32? then 10 else 19) else width.Bits())
    && Below(d, |d|, radix) && Eval(d, |d|, radix) == value
  }

  lemma One(d: seq<nat>, i: nat, radix: nat)
    requires i < |d|
    ensures Eval(d, 0, radix) == 0 && Below(d, 0, radix)
    ensures Eval(d, i + 1, radix) == Eval(d, i, radix) * radix + d[i]
    ensures Below(d, i + 1, radix) <==> Below(d, i, radix) && d[i] < radix
  {
  }

  /** Four digits at once. */
  lemma Four(d: seq<nat>, i: nat, radix: nat)
    requires i + 4 <= |d|
    ensures Eval(d, 0, radix) == 0 && Below(d, 0, radix)
    ensures Eval(d, i + 4, radix)
         == (((Eval(d, i, radix) * radix + d[i]) * radix + d[i + 1]) * radix + d[i + 2]) * radix + d[i + 3]
    ensures Below(d, i + 4, radix)
       <==> Below(d, i, radix) && d[i] < radix && d[i + 1] < radix && d[i + 2] < radix && d[i + 3] < radix
  {
    One(d, i, radix);
    One(d, i + 1, radix);
    One(d, i + 2, radix);
    One(d, i + 3, radix);
  }

  /** A digit before zeros, in a radix that is a power of two. */
  lemma {:induction false} ZerosShift(c: nat, b: nat, n: nat, j: nat)
    requires j <= n
    ensures Eval(Padded(Pow2(c), n), j + 1, Pow2(b)) == Pow2(c + b * j)
    ensures Pow2(c) < Pow2(b) ==> Below(Padded(Pow2(c), n), j + 1, Pow2(b))
  {
    hide Pow2, Padded, Eval, Below;
    var d := Padded(Pow2(c), n);
    One(d, j, Pow2(b));
    if j == 0 {
    } else {
      ZerosShift(c, b, n, j - 1);
      Pow2Add(c + b * (j - 1), b);
    }
  }

  lemma PowerOfTwo(width: Width, radix: nat, c: nat, b: nat, n: nat)
    requires 2 <= radix <= 16 && radix == Pow2(b) && MinDigits(width, radix) == Padded(Pow2(c), n)
    requires radix % 2 == 0 && Pow2(c) < radix && c + b * n == width.Bits() - 1 && n < width.Bits() && radix != 10
    ensures Literal(width, radix, LiteralValue(width, radix))
  {
    hide Pow2, Padded, Eval, Below, MinDigits;
    ZerosShift(c, b, n, n);
    LeastIsPower(width);
  }

  lemma LeastIsPower(width: Width)
    ensures Pow2(width.Bits() - 1) == -width.SignedMin()
  {
    WidthPow2(width);
  }

  /** The radices that are powers of two, in which the least value is a digit before zeros. */
  lemma PowersOfTwo(width: Width)
    ensures forall r :: r in {2, 4, 8, 16} ==> Literal(width, r, LiteralValue(width, r))
  {
    hide Literal, Padded;
    var n := width.Bits();
    assert Pow2(0) == 1 && Pow2(1) == 2 && Pow2(2) == 4 && Pow2(3) == 8 && Pow2(4) == 16;
    PowerOfTwo(width, 2, 0, 1, n - 1);
    PowerOfTwo(width, 4, 1, 2, n / 2 - 1);
    if width.W32? {
      PowerOfTwo(width, 8, 1, 3, 10);
    } else {
      PowerOfTwo(width, 8, 0, 3, 21);
    }
    PowerOfTwo(width, 16, 3, 4, n / 4 - 1);
  }

  lemma Radix3Of32()
    ensures Literal(W32, 3, LiteralValue(W32, 3))
  {
    hide Eval, Below;
    var d := MinDigits32(3);
    Four(d, 0, 3); Four(d, 4, 3); Four(d, 8, 3); Four(d, 12, 3); Four(d, 16, 3);
  }

  lemma Radix3Start()
    ensures |MinDigits64(3)| == 40
    ensures Eval(MinDigits64(3), 12, 3) == 403175 && Below(MinDigits64(3), 12, 3)
  {
    hide Eval, Below;
    var d := MinDigits64(3);
    Four(d, 0, 3); Four(d, 4, 3); Four(d, 8, 3);
  }

  lemma Radix3Middle()
    ensures |MinDigits64(3)| == 40
    ensures Eval(MinDigits64(3), 24, 3) == 214264218565 && Below(MinDigits64(3), 24, 3)
  {
    hide Eval, Below;
    var d := MinDigits64(3);
    Radix3Start();
    Four(d, 12, 3); Four(d, 16, 3); Four(d, 20, 3);
  }

  lemma Radix3Of64()
    ensures Literal(W64, 3, LiteralValue(W64, 3))
  {
    hide Eval, Below;
    var d := MinDigits64(3);
    Radix3Middle();
    Four(d, 24, 3); Four(d, 28, 3); Four(d, 32, 3); Four(d, 36, 3);
  }

  lemma Radix5Of32()
    ensures Literal(W32, 5, LiteralValue(W32, 5))
  {
    hide Eval, Below;
    var d := MinDigits32(5);
    Four(d, 0, 5); Four(d, 4, 5); Four(d, 8, 5); One(d, 12, 5); One(d, 13, 5);
  }

  lemma Radix5Start()
    ensures |MinDigits64(5)| == 28
    ensures Eval(MinDigits64(5), 12, 5) == 60446290 && Below(MinDigits64(5), 12, 5)
  {
    hide Eval, Below;
    var d := MinDigits64(5);
    Four(d, 0, 5); Four(d, 4, 5); Four(d, 8, 5);
  }

  lemma Radix5Of64()
    ensures Literal(W64, 5, LiteralValue(W64, 5))
  {
    hide Eval, Below;
    var d := MinDigits64(5);
    Radix5Start();
    Four(d, 12, 5); Four(d, 16, 5); Four(d, 20, 5); Four(d, 24, 5);
  }

  lemma Radix6Of32()
    ensures Literal(W32, 6, LiteralValue(W32, 6))
  {
    hide Eval, Below;
    var d := MinDigits32(6);
    Four(d, 0, 6); Four(d, 4, 6); Four(d, 8, 6);
  }

  lemma Radix6Of64()
    ensures Literal(W64, 6, LiteralValue(W64, 6))
  {
    hide Eval, Below;
    var d := MinDigits64(6);
    Four(d, 0, 6); Four(d, 4, 6); Four(d, 8, 6); Four(d, 12, 6); Four(d, 16, 6); Four(d, 20, 6); One(d, 24, 6);
  }

  lemma Radix7Of32()
    ensures Literal(W32, 7, LiteralValue(W32, 7))
  {
    hide Eval, Below;
    var d := MinDigits32(7);
    Four(d, 0, 7); Four(d, 4, 7); Four(d, 8, 7);
  }

  lemma Radix7Of64()
    ensures Literal(W64, 7, LiteralValue(W64, 7))
  {
    hide Eval, Below;
    var d := MinDigits64(7);
    Four(d, 0, 7); Four(d, 4, 7); Four(d, 8, 7); Four(d, 12, 7); Four(d, 16, 7); One(d, 20, 7); One(d, 21, 7);
    One(d, 22, 7);
  }

  lemma Radix9Of32()
    ensures Literal(W32, 9, LiteralValue(W32, 9))
  {
    hide Eval, Below;
    var d := MinDigits32(9);
    Four(d, 0, 9); Four(d, 4, 9); One(d, 8, 9); One(d, 9, 9);
  }

  lemma Radix9Of64()
    ensures Literal(W64, 9, LiteralValue(W64, 9))
  {
    hide Eval, Below;
    var d := MinDigits64(9);
    Four(d, 0, 9); Four(d, 4, 9); Four(d, 8, 9); Four(d, 12, 9); Four(d, 16, 9);
  }

  lemma Radix10Of32()
    ensures Literal(W32, 10, LiteralValue(W32, 10))
  {
    hide Eval, Below;
    var d := MinDigits32(10);
    Four(d, 0, 10); Four(d, 4, 10); One(d, 8, 10); One(d, 9, 10);
  }

  lemma Radix10Of64()
    ensures Literal(W64, 10, LiteralValue(W64, 10))
  {
    hide Eval, Below;
    var d := MinDigits64(10);
    Four(d, 0, 10); Four(d, 4, 10); Four(d, 8, 10); Four(d, 12, 10); One(d, 16, 10); One(d, 17, 10); One(d, 18, 10);
  }

  lemma Radix11Of32()
    ensures Literal(W32, 11, LiteralValue(W32, 11))
  {
    hide Eval, Below;
    var d := MinDigits32(11);
    Four(d, 0, 11); Four(d, 4, 11); One(d, 8, 11);
  }

  lemma Radix11Of64()
    ensures Literal(W64, 11, LiteralValue(W64, 11))
  {
    hide Eval, Below;
    var d := MinDigits64(11);
    Four(d, 0, 11); Four(d, 4, 11); Four(d, 8, 11); Four(d, 12, 11); One(d, 16, 11); One(d, 17, 11); One(d, 18, 11);
  }

  lemma Radix12Of32()
    ensures Literal(W32, 12, LiteralValue(W32, 12))
  {
    hide Eval, Below;
    var d := MinDigits32(12);
    Four(d, 0, 12); Four(d, 4, 12); One(d, 8, 12);
  }

  lemma Radix12Of64()
    ensures Literal(W64, 12, LiteralValue(W64, 12))
  {
    hide Eval, Below;
    var d := MinDigits64(12);
    Four(d, 0, 12); Four(d, 4, 12); Four(d, 8, 12); Four(d, 12, 12); One(d, 16, 12); One(d, 17, 12);
  }

  lemma Radix13Of32()
    ensures Literal(W32, 13, LiteralValue(W32, 13))
  {
    hide Eval, Below;
    var d := MinDigits32(13);
    Four(d, 0, 13); Four(d, 4, 13); One(d, 8, 13);
  }

  lemma Radix13Of64()
    ensures Literal(W64, 13, LiteralValue(W64, 13))
  {
    hide Eval, Below;
    var d := MinDigits64(13);
    Four(d, 0, 13); Four(d, 4, 13); Four(d, 8, 13); Four(d, 12, 13); One(d, 16, 13); One(d, 17, 13);
  }

  lemma Radix14Of32()
    ensures Literal(W32, 14, LiteralValue(W32, 14))
  {
    hide Eval, Below;
    var d := MinDigits32(14);
    Four(d, 0, 14); Four(d, 4, 14); One(d, 8, 14);
  }

  lemma Radix14Of64()
    ensures Literal(W64, 14, LiteralValue(W64, 14))
  {
    hide Eval, Below;
    var d := MinDigits64(14);
    Four(d, 0, 14); Four(d, 4, 14); Four(d, 8, 14); Four(d, 12, 14); One(d, 16, 14);
  }

  lemma Radix15Of32()
    ensures Literal(W32, 15, LiteralValue(W32, 15))
  {
    hide Eval, Below;
    var d := MinDigits32(15);
    Four(d, 0, 15); Four(d, 4, 15);
  }

  lemma Radix15Of64()
    ensures Literal(W64, 15, LiteralValue(W64, 15))
  {
    hide Eval, Below;
    var d := MinDigits64(15);
    Four(d, 0, 15); Four(d, 4, 15); Four(d, 8, 15); Four(d, 12, 15); One(d, 16, 15);
  }

  /** The literals are right in every radix for 32 bits, and in exactly the even ones for 64. */
  lemma Literals(width: Width, radix: nat)
    requires 2 <= radix <= 16
    ensures Literal(width, radix, LiteralValue(width, radix))
    ensures Literal(width, radix, -width.SignedMin()) <==> width.W32? || radix % 2 == 0
  {
    LiteralsDenote(width, radix);
  }

  lemma LiteralsDenote(width: Width, radix: nat)
    requires 2 <= radix <= 16
    ensures Literal(width, radix, LiteralValue(width, radix))
  {
    hide Literal, LiteralValue;
    match radix {
      case 2 | 4 | 8 | 16 => PowersOfTwo(width);
      case 3 => if width.W32? { Radix3Of32(); } else { Radix3Of64(); }
      case 5 => if width.W32? { Radix5Of32(); } else { Radix5Of64(); }
      case 6 => if width.W32? { Radix6Of32(); } else { Radix6Of64(); }
      case 7 => if width.W32? { Radix7Of32(); } else { Radix7Of64(); }
      case 9 => if width.W32? { Radix9Of32(); } else { Radix9Of64(); }
      case 10 => if width.W32? { Radix10Of32(); } else { Radix10Of64(); }
      case 11 => if width.W32? { Radix11Of32(); } else { Radix11Of64(); }
      case 12 => if width.W32? { Radix12Of32(); } else { Radix12Of64(); }
      case 13 => if width.W32? { Radix13Of32(); } else { Radix13Of64(); }
      case 14 => if width.W32? { Radix14Of32(); } else { Radix14Of64(); }
      case 15 => if width.W32? { Radix15Of32(); } else { Radix15Of64(); }
    }
  }

  /** What the literals of 64 bits denote in the odd radices, instead of 2^63. */
  lemma WrongLiterals()
    ensures Literal(W64, 3, 0x8000_0000_0000_0000 - 15) && Literal(W64, 5, 0x8000_0000_0000_0000 - 163)
    ensures Literal(W64, 7, 0x8000_0000_0000_0000 - 529) && Literal(W64, 9, 0x8000_0000_0000_0000 - 47)
    ensures Literal(W64, 11, 0x8000_0000_0000_0000 + 328) && Literal(W64, 13, 0x8000_0000_0000_0000 - 1212)
    ensures Literal(W64, 15, 0x8000_0000_0000_0000 - 355)
  {
    hide Literal;
    LiteralsDenote(W64, 3);
    LiteralsDenote(W64, 5);
    LiteralsDenote(W64, 7);
    LiteralsDenote(W64, 9);
    LiteralsDenote(W64, 11);
    LiteralsDenote(W64, 13);
    LiteralsDenote(W64, 15);
  }

  // ---- the texts

  function Chars(d: seq<nat>): (s: seq<byte>)
    ensures |s| == |d|
  {
    seq(|d|, i requires 0 <= i < |d| => if d[i] < 16 then ValueAsChar(d[i]) else 0)
  }

  /** The characters of digits are digits of the same value. */
  lemma {:induction false} CharsValue(d: seq<nat>, i: nat, radix: nat)
    requires 2 <= radix <= 16 && i <= |d|
    ensures Below(d, i, radix) ==> AllDigits(Chars(d)[..i], radix)
    ensures AllDigits(Chars(d)[..i], radix) ==> Value(Chars(d)[..i], radix) == Eval(d, i, radix)
  {
    if i == 0 {
    } else {
      hide Value, ValueAsChar, CharValue;
      var s := Chars(d);
      CharsValue(d, i - 1, radix);
      ValueSnoc(s, radix, i - 1);
      assert s[..i] == s[..i - 1] + [s[i - 1]];
      ValueOfSnoc(s[..i - 1], s[i - 1], radix);
      NulIsNoDigit(radix);
    }
  }

  lemma NulIsNoDigit(radix: nat)
    ensures !IsDigit(0, radix)
  {
  }

  /** What the signed printers write. */
  function SignedText(width: Width, v: int, radix: nat): seq<byte>
    requires 2 <= radix <= 16
  {
    if v == width.SignedMin() then [MINUS] + Chars(MinDigits(width, radix))
    else if v >= 0 then UnsignedText(v, radix)
    else [MINUS] + UnsignedText(-v, radix)
  }

  predicate Signed(width: Width, v: int) {
    width.SignedMin() <= v <= -(width.SignedMin() + 1)
  }

  lemma NoMinus(s: seq<byte>, radix: nat)
    requires AllDigits(s, radix)
    ensures Unsigned(s) == s && SignedValue(s, radix) == Value(s, radix)
  {
    if s != [] {
      assert IsDigit(s[0], radix);
    }
  }

  lemma WithMinus(s: seq<byte>, radix: nat)
    ensures Unsigned([MINUS] + s) == s && SignedValue([MINUS] + s, radix) == -Value(s, radix)
  {
  }

  lemma MinThenParse(width: Width, radix: nat)
    requires 2 <= radix <= 16
    ensures var s := SignedText(width, width.SignedMin(), radix);
            (ParsesSigned(s, radix, width.SignedMin()) && SignedValue(s, radix) == width.SignedMin())
            <==> (width.W32? || radix % 2 == 0)
  {
    hide Value, AllDigits, Below, Eval, MinDigits;
    var d := MinDigits(width, radix);
    Literals(width, radix);
    CharsValue(d, |d|, radix);
    assert Chars(d)[..|d|] == Chars(d);
    WithMinus(Chars(d), radix);
  }

  /**
   Printing a signed number and parsing the text gives the number back, except for 0 outside radix 10 and for the least
   64-bit number in odd radices.
   */
  lemma SignedPrintThenParse(width: Width, v: int, radix: nat)
    requires 2 <= radix <= 16 && Signed(width, v)
    ensures var s := SignedText(width, v, radix);
            (ParsesSigned(s, radix, width.SignedMin()) && SignedValue(s, radix) == v)
            <==> (v != 0 || radix == 10) && (v != width.SignedMin() || width.W32? || radix % 2 == 0)
  {
    hide Value, AllDigits, RadixText, MinDigits;
    if v == width.SignedMin() {
      MinThenParse(width, radix);
    } else if v >= 0 {
      UnsignedIsText(v, radix);
      NoMinus(UnsignedText(v, radix), radix);
    } else {
      UnsignedIsText(-v, radix);
      WithMinus(UnsignedText(-v, radix), radix);
    }
  }

  /** The least 64-bit number does not survive radix 3. */
  lemma LeastInRadix3()
    ensures var s, min := SignedText(W64, W64.SignedMin(), 3), W64.SignedMin();
            !(ParsesSigned(s, 3, min) && SignedValue(s, 3) == min)
  {
    SignedPrintThenParse(W64, W64.SignedMin(), 3);
  }

  lemma UnsignedIsText(v: nat, radix: nat)
    requires 2 <= radix <= 16
    ensures AllDigits(UnsignedText(v, radix), radix) && Value(UnsignedText(v, radix), radix) == v
    ensures UnsignedText(v, radix) == [] <==> v == 0 && radix != 10
  {
    TextValue(v, radix);
    if v == 0 && radix == 10 {
      ValueOfSnoc([], ValueAsChar(0), radix);
      assert [] + [ValueAsChar(0)] == [ValueAsChar(0)];
    }
  }

  /** Printed is a minus sign before the digits of a negative number, and the digits alone of any other. */
  lemma SignedTextExact(width: Width, v: int, radix: nat)
    requires 2 <= radix <= 16 && Signed(width, v)
    ensures v >= 0 ==> SignedText(width, v, radix) == UnsignedText(v, radix)
    ensures width.SignedMin() < v < 0 ==> SignedText(width, v, radix) == [45] + UnsignedText(-v, radix)
    ensures v == width.SignedMin() ==> SignedText(width, v, radix) == [45] + Chars(MinDigits(width, radix))
  {
    hide UnsignedText, MinDigits, Chars;
  }

  // ---- the printers

  /** int32ToStr and int64ToStr: the literal for the least value, or a minus sign and the digits. */
  method PrintSignedAt(width: Width, v: int, radix: nat, buffer: array<byte>, off: nat) returns (length: nat)
    requires Signed(width, v) && 2 <= radix <= 16 && off + |SignedText(width, v, radix)| <= buffer.Length
    modifies buffer
    ensures length == |SignedText(width, v, radix)|
    ensures Wrote(old(buffer[..]), buffer[..], off, SignedText(width, v, radix))
  {
    hide UnsignedText, MinDigits, Wrote;
    if v == width.SignedMin() {
      var str := [MINUS] + Chars(MinDigits(width, radix));
      WriteText(buffer, off, str);
      return |str|;
    } else if v >= 0 {
      length := PrintDigits(width, v, radix, buffer, off);
    } else {
      ghost var before := buffer[..];
      buffer[off] := MINUS;
      ghost var middle := buffer[..];
      length := PrintDigits(width, -v, radix, buffer, off + 1);
      length := length + 1;
      WroteMinus(before, middle, buffer[..], off, UnsignedText(-v, radix));
    }
  }

  lemma WroteMinus(before: seq<byte>, middle: seq<byte>, after: seq<byte>, off: nat, text: seq<byte>)
    requires off < |before| && middle == before[off := MINUS] && Wrote(middle, after, off + 1, text)
    ensures Wrote(before, after, off, [MINUS] + text)
  {
    var n := off + 1 + |text|;
    assert after[off + 1..n] == text;
    assert after[off] == after[..off + 1][off] == MINUS;
    assert after[..off] == after[..off + 1][..off] == before[..off];
    assert after[off..n] == [after[off]] + after[off + 1..n];
    assert middle[n..] == before[n..];
  }

  /** The public signed printers: the full size is returned, and as much of the text as fits is stored. */
  method PrintSigned(width: Width, v: int, radix: nat, buffer: array<byte>) returns (size: nat)
    requires Signed(width, v) && 2 <= radix <= 16
    modifies buffer
    ensures size == |SignedText(width, v, radix)|
    ensures Wrote(old(buffer[..]), buffer[..], 0, SignedText(width, v, radix)[..Min(size, buffer.Length)])
  {
    hide SignedText, Wrote;
    var temp := new byte[if radix == 10 then (if width.W32? then 11 else 20) else width.Bits() + 1];
    ghost var text := SignedText(width, v, radix);
    SignedFits(width, v, radix);
    if buffer.Length >= temp.Length {
      size := PrintSignedAt(width, v, radix, buffer, 0);
      assert text[..Min(size, buffer.Length)] == text;
    } else {
      ghost var before := temp[..];
      size := PrintSignedAt(width, v, radix, temp, 0);
      WroteStart(before, temp[..], text);
      var n := Min(size, buffer.Length);
      assert temp[..n] == temp[..][..size][..n] == text[..n];
      WriteText(buffer, 0, temp[..n]);
    }
  }

  /** The temporary buffers of 11, 20, 33 and 65 characters suffice. */
  lemma SignedFits(width: Width, v: int, radix: nat)
    requires Signed(width, v) && 2 <= radix <= 16
    ensures |SignedText(width, v, radix)| <= if radix == 10 then (if width.W32? then 11 else 20) else width.Bits() + 1
  {
    hide RadixText, MinDigits;
    var u: nat := if v < 0 then -v else v;
    if v == width.SignedMin() {
      Literals(width, radix);
    } else if radix != 10 {
      WidthPow2(width);
      RadixLength(u, radix, width.Bits());
    } else if width.W32? {
      assert DigitsBase10Of32(u) <= 10;
    } else if u >= 1_0000_0000_0000 {
      assert u / 1_0000_0000_0000 < 1000_0000;
      assert DigitsBase10Of64(u / 1_0000_0000_0000) <= 7;
      assert DigitsBase10Of64(u) <= 19;
    } else {
      assert DigitsBase10Of64(u) <= 12;
    }
  }
}
