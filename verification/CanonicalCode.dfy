/**
 Canonical codes are good and complete: when the code words of each length are consecutive numbers, those of the next
 length start at twice the number after them, and only the word of thirty ones is left over, then no code word is a
 prefix of another or of that last word, and every bit string of thirty bits starts with a code word or is that last
 word.
 */
module CanonicalCode {
  import opened Bits
  import opened HuffmanCode

  /** The ranges of values, by length: from first(l) up to limit(l), with shorter(l) code words of lesser length. */
  datatype Groups = Groups(eos: nat, first: int -> int, limit: int -> int, shorter: int -> int)

  predicate Group(g: Groups, l: int) {
    0 <= g.first(l) <= g.limit(l)
  }

  /** The values of length l start at twice the number after those of length l - 1. */
  predicate Follows(g: Groups, l: int) {
    && g.first(l) == 2 * g.limit(l - 1)
    && g.shorter(l) == g.shorter(l - 1) + g.limit(l - 1) - g.first(l - 1)
  }

  ghost predicate Ranges(g: Groups) {
    && g.eos == EOS_LENGTH
    && g.first(5) == 0 && g.shorter(5) == 0
    && g.limit(g.eos) == Pow2(g.eos) - 1
    && g.shorter(g.eos) + g.limit(g.eos) - g.first(g.eos) == 256
    && (forall l :: 5 <= l <= g.eos ==> Group(g, l))
    && (forall l :: 5 < l <= g.eos ==> Follows(g, l))
  }

  /** Each symbol's value lies in the range of its length, and different symbols have different code words. */
  ghost predicate Canonical(t: CodeTable, g: Groups) {
    && Ranges(g)
    && (forall c: byte :: 5 <= t[c].bitCount <= g.eos)
    && (forall c: byte :: g.first(t[c].bitCount) <= t[c].value < g.limit(t[c].bitCount))
    && (forall c: byte, d: byte :: t[c] == t[d] ==> c == d)
  }

  lemma {:induction false} LimitBelow(g: Groups, l: nat, n: nat)
    requires Ranges(g) && 5 <= l && l + n <= g.eos
    ensures g.limit(l) * Pow2(n) <= (if n == 0 then g.limit(l) else g.first(l + n)) <= g.limit(l + n)
  {
    assert Group(g, l + n);
    if n == 0 {
    } else {
      assert Follows(g, l + n);
      LimitBelow(g, l, n - 1);
      MulDouble(g.limit(l), Pow2(n - 1));
    }
  }

  lemma MulDouble(m: int, p: int)
    ensures m * (2 * p) == 2 * (m * p)
  {
  }

  lemma {:induction false} ShrAtLeast(v: nat, q: nat, n: nat)
    requires v >= q * Pow2(n)
    ensures Shr(v, n) >= q
  {
    if n == 0 {
    } else {
      var p := Pow2(n - 1);
      assert q * (2 * p) == 2 * (q * p);
      ShrAtLeast(v / 2, q, n - 1);
    }
  }

  lemma ValueFits(t: CodeTable, g: Groups, c: byte)
    requires Canonical(t, g)
    ensures t[c].value < Pow2(t[c].bitCount)
  {
    var l := t[c].bitCount;
    var n := g.eos - l;
    LimitBelow(g, l, n);
    Pow2Add(l, n);
    if g.limit(l) > Pow2(l) {
      MulLess(Pow2(l), g.limit(l), Pow2(n));
    }
  }

  /** The first bits of a longer word are a greater number than any shorter code word. */
  lemma PrefixValue(v: nat, m: nat, n: nat, u: nat)
    requires u < Pow2(m) && v < Pow2(m + n) && ToBits(u, m) <= ToBits(v, m + n)
    ensures Shr(v, n) == u
  {
    ToBitsSplit(v, m, n);
    ShrBound(v, m, n);
    assert ToBits(u, m) == ToBits(v, m + n)[..m] == ToBits(Shr(v, n), m);
    ToBitsInjective(u, Shr(v, n), m);
  }

  lemma NotPrefix(t: CodeTable, g: Groups, c: byte, d: byte)
    requires Canonical(t, g) && Code(t, c) <= Code(t, d)
    ensures c == d
  {
    var l, n := t[c].bitCount, t[d].bitCount - t[c].bitCount;
    ValueFits(t, g, c);
    ValueFits(t, g, d);
    PrefixValue(t[d].value, l, n, t[c].value);
    if n != 0 {
      LimitBelow(g, l, n);
      ShrAtLeast(t[d].value, g.limit(l), n);
    }
  }

  lemma NotPrefixOfEos(t: CodeTable, g: Groups, c: byte)
    requires Canonical(t, g)
    ensures !(Code(t, c) <= Ones(g.eos))
  {
    var l, n := t[c].bitCount, g.eos - t[c].bitCount;
    var eos := g.limit(g.eos);
    ValueFits(t, g, c);
    ToBitsOnes(g.eos);
    LimitBelow(g, l, n);
    ShrAtLeast(eos, g.limit(l), n);
    if Code(t, c) <= Ones(g.eos) {
      PrefixValue(eos, l, n, t[c].value);
    }
  }

  lemma CanonicalIsGood(t: CodeTable, g: Groups)
    requires Canonical(t, g)
    ensures GoodCode(t)
  {
    forall c: byte
      ensures t[c].value < Pow2(t[c].bitCount) && !(Code(t, c) <= Ones(g.eos))
    {
      ValueFits(t, g, c);
      NotPrefixOfEos(t, g, c);
    }
    forall c: byte, d: byte | Code(t, c) <= Code(t, d)
      ensures c == d
    {
      NotPrefix(t, g, c, d);
    }
  }

  // ---- completeness

  function Below(n: nat): (s: set<int>)
    ensures |s| == n && forall i :: i in s <==> 0 <= i < n
  {
    if n == 0 then {} else Below(n - 1) + {n - 1}
  }

  function Image(n: nat, f: int -> int): set<int> {
    if n == 0 then {} else Image(n - 1, f) + {f(n - 1)}
  }

  lemma {:induction false} InImage(n: nat, f: int -> int, y: int)
    ensures y in Image(n, f) <==> exists i :: 0 <= i < n && f(i) == y
  {
    if n == 0 {
    } else {
      InImage(n - 1, f, y);
    }
  }

  lemma {:induction false} ImageSize(n: nat, f: int -> int)
    requires forall i, j :: 0 <= i < n && 0 <= j < n && f(i) == f(j) ==> i == j
    ensures |Image(n, f)| == n
  {
    if n == 0 {
    } else {
      ImageSize(n - 1, f);
      InImage(n - 1, f, f(n - 1));
    }
  }

  lemma SameSize(a: set<int>, b: set<int>)
    requires a <= b && |a| == |b|
    ensures a == b
  {
    assert b == a + (b - a);
    assert |b - a| == 0;
  }

  /** An injective function from 0..n to 0..n is onto. */
  lemma Onto(n: nat, f: int -> int, y: int)
    requires forall i :: 0 <= i < n ==> 0 <= f(i) < n
    requires forall i, j :: 0 <= i < n && 0 <= j < n && f(i) == f(j) ==> i == j
    requires 0 <= y < n
    ensures exists i :: 0 <= i < n && f(i) == y
  {
    ImageSize(n, f);
    forall x | x in Image(n, f)
      ensures x in Below(n)
    {
      InImage(n, f, x);
    }
    SameSize(Image(n, f), Below(n));
    InImage(n, f, y);
  }

  lemma {:induction false} RankBound(g: Groups, l: nat, n: nat)
    requires Ranges(g) && 5 <= l && l + n <= g.eos
    ensures 0 <= g.shorter(l)
    ensures n > 0 ==> g.shorter(l) + g.limit(l) - g.first(l) <= g.shorter(l + n)
    decreases l, n
  {
    if l == 5 {
    } else {
      assert Follows(g, l) && Group(g, l - 1);
      RankBound(g, l - 1, 0);
    }
    if n == 0 {
    } else {
      RankBound(g, l, n - 1);
      assert Follows(g, l + n) && Group(g, l + n - 1);
    }
  }

  /** The place of the code word with l bits and value v in the list of all code words by length and value. */
  function Rank(g: Groups, l: int, v: int): int {
    g.shorter(l) + v - g.first(l)
  }

  ghost predicate InRange(g: Groups, l: int, v: int) {
    5 <= l <= g.eos && g.first(l) <= v < g.limit(l)
  }

  lemma RankInjective(g: Groups, j: int, u: int, k: int, w: int)
    requires Ranges(g) && InRange(g, j, u) && InRange(g, k, w) && Rank(g, j, u) == Rank(g, k, w)
    ensures j == k && u == w
  {
    if j < k { RankBound(g, j, k - j); }
    if k < j { RankBound(g, k, j - k); }
  }

  lemma RankRange(g: Groups, l: int, v: int)
    requires Ranges(g) && InRange(g, l, v)
    ensures 0 <= Rank(g, l, v) < 256
  {
    assert Group(g, g.eos);
    RankBound(g, l, g.eos - l);
  }

  /** Every value in the range of a length is the code word of some symbol. */
  lemma RangeIsCoded(t: CodeTable, g: Groups, l: nat, v: nat)
    requires Canonical(t, g) && InRange(g, l, v)
    ensures exists c: byte :: t[c] == CodeWord(l, v)
  {
    var f := (c: int) => if 0 <= c < 256 then Rank(g, t[c].bitCount, t[c].value) else 0;
    forall i, j | 0 <= i < 256 && 0 <= j < 256 && f(i) == f(j)
      ensures i == j
    {
      RankInjective(g, t[i].bitCount, t[i].value, t[j].bitCount, t[j].value);
      assert t[i] == t[j];
    }
    forall i | 0 <= i < 256
      ensures 0 <= f(i) < 256
    {
      RankRange(g, t[i].bitCount, t[i].value);
    }
    RankRange(g, l, v);
    Onto(256, f, Rank(g, l, v));
    var c :| 0 <= c < 256 && f(c) == Rank(g, l, v);
    RankInjective(g, t[c].bitCount, t[c].value, l, v);
  }

  /** Some first bits of v are in the range of their number. */
  lemma {:induction false} FindLength(g: Groups, v: nat, l: nat) returns (m: nat)
    requires Ranges(g) && 5 <= l <= g.eos && Shr(v, g.eos - l) < g.limit(l)
    ensures m <= l && InRange(g, m, Shr(v, g.eos - m))
  {
    if g.first(l) <= Shr(v, g.eos - l) {
      m := l;
    } else {
      var n := g.eos - l;
      ShrStep(v, n);
      assert l > 5 ==> Follows(g, l);
      m := FindLength(g, v, l - 1);
    }
  }

  lemma {:induction false} ShrStep(v: nat, n: nat)
    ensures Shr(v, n + 1) == Shr(v, n) / 2
  {
    if n == 0 {
    } else {
      ShrStep(v / 2, n - 1);
    }
  }

  lemma CanonicalIsComplete(t: CodeTable, g: Groups)
    requires Canonical(t, g)
    ensures Complete(t)
  {
    forall n: bits | |n| == EOS_LENGTH && n != Ones(EOS_LENGTH)
      ensures exists c: byte :: Code(t, c) <= n
    {
      StartsWithCode(t, g, n);
    }
  }

  lemma StartsWithCode(t: CodeTable, g: Groups, n: bits)
    requires Canonical(t, g) && |n| == g.eos && n != Ones(g.eos)
    ensures exists c: byte :: Code(t, c) <= n
  {
    var v := FromBits(n);
    ToFromBits(n);
    ToBitsOnes(g.eos);
    assert Shr(v, 0) == v;
    var m := FindLength(g, v, g.eos);
    RangeIsCoded(t, g, m, Shr(v, g.eos - m));
    var c: byte :| t[c] == CodeWord(m, Shr(v, g.eos - m));
    ToBitsSplit(v, m, g.eos - m);
    assert Code(t, c) <= n;
  }
}
