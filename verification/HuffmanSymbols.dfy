/** The order of the Huffman code: the symbols of each length, ascending, are numbered in that order. */
module HuffmanSymbols {
  import opened Bits
  import opened HuffmanCode
  import opened HuffmanTable

  /** The symbols whose code words have l bits, for up to 15 bits, in the order of their code words. */
  function Characters(l: int): string {
    match l
    case 5 => "012aceiost"
    case 6 => " %-./3456789=A_bdfghlmnpru"
    case 7 => ":BCDEFGHIJKLMNOPQRSTUVWYjkqvwxyz"
    case 8 => "&*,;XZ"
    case 10 => "!\"()?"
    case 11 => "'+|"
    case 12 => "#>"
    case 13 => "\0$@[]~"
    case 14 => "^}"
    case 15 => "<`{"
    case _ => ""
  }

  /** The same for more bits. */
  function Numbers(l: int): seq<int> {
    match l
    case 19 => [92, 195, 208]
    case 20 => [128, 130, 131, 162, 184, 194, 224, 226]
    case 21 => [153, 161, 167, 172, 176, 177, 179, 209, 216, 217, 227, 229, 230]
    case 22 =>
      [129, 132, 133, 134, 136, 146, 154, 156, 160, 163, 164, 169, 170, 173, 178, 181, 185, 186, 187, 189,
       190, 196, 198, 228, 232, 233]
    case 23 =>
      [1, 135, 137, 138, 139, 140, 141, 143, 147, 149, 150, 151, 152, 155, 157, 158, 165, 166, 168, 174,
       175, 180, 182, 183, 188, 191, 197, 231, 239]
    case 24 => [9, 142, 144, 145, 148, 159, 171, 206, 215, 225, 236, 237]
    case 25 => [199, 207, 234, 235]
    case 26 => [192, 193, 200, 201, 202, 205, 210, 213, 218, 219, 238, 240, 242, 243, 255]
    case 27 => [203, 204, 211, 212, 214, 221, 222, 223, 241, 244, 245, 246, 247, 248, 250, 251, 252, 253, 254]
    case 28 =>
      [2, 3, 4, 5, 6, 7, 8, 11, 12, 14, 15, 16, 17, 18, 19, 20, 21, 23, 24, 25, 26, 27, 28, 29, 30, 31,
       127, 220, 249]
    case 30 => [10, 13, 22]
    case _ => []
  }

  /** How many symbols have code words of l bits. */
  function Count(l: int): nat {
    if l < 16 then |Characters(l)| else |Numbers(l)|
  }

  /** The k-th symbol of those whose code words have l bits. */
  function SymbolAt(l: int, k: int): int
    requires 0 <= k < Count(l)
  {
    if l < 16 then Characters(l)[k] as int else Numbers(l)[k]
  }

  /** The k-th symbol of length l has the k-th value. */
  predicate InPlace(l: int, k: int)
    requires 0 <= k < Count(l)
  {
    SymbolOf(l, First(l) + k) == SymbolAt(l, k)
  }

  /** The k-th symbol of length l is greater than the symbol before it. */
  predicate Ascends(l: int, k: int)
    requires 0 < k < Count(l)
  {
    SymbolAt(l, k - 1) < SymbolAt(l, k)
  }

  lemma InPlace5(k: int)
    requires 0 <= k < Count(5)
    ensures InPlace(5, k)
  {
  }

  lemma InPlace6(k: int)
    requires 0 <= k < Count(6)
    ensures InPlace(6, k)
  {
  }

  lemma InPlace7(k: int)
    requires 0 <= k < Count(7)
    ensures InPlace(7, k)
  {
  }

  lemma InPlace8To15(l: int, k: int)
    requires 8 <= l <= 15 && 0 <= k < Count(l)
    ensures InPlace(l, k)
  {
  }

  lemma InPlace19To21(l: int, k: int)
    requires 19 <= l <= 21 && 0 <= k < Count(l)
    ensures InPlace(l, k)
  {
  }

  lemma InPlace22(k: int)
    requires 0 <= k < Count(22)
    ensures InPlace(22, k)
  {
  }

  lemma InPlace23(k: int)
    requires 0 <= k < Count(23)
    ensures InPlace(23, k)
  {
  }

  lemma InPlace24To26(l: int, k: int)
    requires 24 <= l <= 26 && 0 <= k < Count(l)
    ensures InPlace(l, k)
  {
  }

  lemma InPlace27(k: int)
    requires 0 <= k < Count(27)
    ensures InPlace(27, k)
  {
  }

  lemma InPlace28(k: int)
    requires 0 <= k < Count(28)
    ensures InPlace(28, k)
  {
  }

  lemma InPlace30(k: int)
    requires 0 <= k < Count(30)
    ensures InPlace(30, k)
  {
  }

  lemma Ascends5(k: int)
    requires 0 < k < Count(5)
    ensures Ascends(5, k)
  {
  }

  lemma Ascends6(k: int)
    requires 0 < k < Count(6)
    ensures Ascends(6, k)
  {
  }

  lemma Ascends7(k: int)
    requires 0 < k < Count(7)
    ensures Ascends(7, k)
  {
  }

  lemma Ascends8To15(l: int, k: int)
    requires 8 <= l <= 15 && 0 < k < Count(l)
    ensures Ascends(l, k)
  {
  }

  lemma Ascends19To21(l: int, k: int)
    requires 19 <= l <= 21 && 0 < k < Count(l)
    ensures Ascends(l, k)
  {
  }

  lemma Ascends22(k: int)
    requires 0 < k < Count(22)
    ensures Ascends(22, k)
  {
  }

  lemma Ascends23(k: int)
    requires 0 < k < Count(23)
    ensures Ascends(23, k)
  {
  }

  lemma Ascends24To26(l: int, k: int)
    requires 24 <= l <= 26 && 0 < k < Count(l)
    ensures Ascends(l, k)
  {
  }

  lemma Ascends27(k: int)
    requires 0 < k < Count(27)
    ensures Ascends(27, k)
  {
  }

  lemma Ascends28(k: int)
    requires 0 < k < Count(28)
    ensures Ascends(28, k)
  {
  }

  lemma Ascends30(k: int)
    requires 0 < k < Count(30)
    ensures Ascends(30, k)
  {
  }

  /** There are code words of 5 to 30 bits, but none of 9, 16, 17, 18 and 29. */
  lemma Lengths(l: int)
    ensures Count(l) > 0 <==> 5 <= l <= 30 && l !in {9, 16, 17, 18, 29}
  {
  }

  lemma AllInPlace(l: int, k: int)
    requires 0 <= k < Count(l)
    ensures InPlace(l, k) && 5 <= l <= 30
  {
    hide InPlace, Count;
    Lengths(l);
    if l <= 15 {
      match l {
        case 5 => InPlace5(k);
        case 6 => InPlace6(k);
        case 7 => InPlace7(k);
        case _ => InPlace8To15(l, k);
      }
    } else {
      match l {
        case 19 | 20 | 21 => InPlace19To21(l, k);
        case 22 => InPlace22(k);
        case 23 => InPlace23(k);
        case 24 | 25 | 26 => InPlace24To26(l, k);
        case 27 => InPlace27(k);
        case 28 => InPlace28(k);
        case 30 => InPlace30(k);
      }
    }
  }

  /** The symbols of one length ascend. */
  lemma SymbolsAscend(l: int, k: int)
    requires 0 < k < Count(l)
    ensures SymbolAt(l, k - 1) < SymbolAt(l, k)
  {
    hide Count, SymbolAt;
    Lengths(l);
    if l <= 15 {
      match l {
        case 5 => Ascends5(k);
        case 6 => Ascends6(k);
        case 7 => Ascends7(k);
        case _ => Ascends8To15(l, k);
      }
    } else {
      match l {
        case 19 | 20 | 21 => Ascends19To21(l, k);
        case 22 => Ascends22(k);
        case 23 => Ascends23(k);
        case 24 | 25 | 26 => Ascends24To26(l, k);
        case 27 => Ascends27(k);
        case 28 => Ascends28(k);
        case 30 => Ascends30(k);
      }
    }
  }

  /** The first value of each length follows from the numbers of symbols of the shorter ones. */
  lemma FirstValues(l: int)
    ensures First(5) == 0 && (5 <= l < 30 ==> First(l + 1) == 2 * (First(l) + Count(l)))
    ensures 5 <= l <= 30 ==> Limit(l) == First(l) + Count(l)
  {
    FirstIsZero();
    hide *;
    if 5 <= l <= 30 {
      Counts(l);
      if l < 30 { FirstNat(l + 1); }
    }
  }

  lemma FirstIsZero()
    ensures First(5) == 0
  {
  }

  lemma Counts(l: int)
    requires 5 <= l <= 30
    ensures Limit(l) == First(l) + Count(l)
  {
  }

  /** Each symbol stands among those of its length at the place that its value says. */
  lemma EachInPlace(c: byte)
    ensures var w := EncodeTable()[c];
            var k := w.value - First(w.bitCount);
            0 <= k < Count(w.bitCount) && SymbolAt(w.bitCount, k) == c
  {
    hide SymbolAt, Count, SymbolOf, First, Limit, EncodeTable;
    TableRight(c);
    var w := EncodeTable()[c];
    FirstValues(w.bitCount);
    AllInPlace(w.bitCount, w.value - First(w.bitCount));
  }
}
