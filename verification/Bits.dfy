/** Bytes, fixed-width words and bit strings (most significant bit first). */
module Bits {
  type byte = x: int | 0 <= x < 256
  type uint32 = x: int | 0 <= x < 0x1_0000_0000
  type bits = seq<bool>

  const UINT32_MAX: int := 0xFFFF_FFFF

  function Min(a: int, b: int): (m: int)
    ensures m <= a && m <= b && (m == a || m == b)
  {
    if a <= b then a else b
  }

  /** Conversion to an unsigned 32-bit integer. */
  function Uint32(x: int): uint32 { x % 0x1_0000_0000 }

  lemma Uint32Value(x: int)
    ensures 0 <= x < 0x1_0000_0000 ==> Uint32(x) == x
    ensures x == -1 ==> Uint32(x) == UINT32_MAX
  {
  }

  lemma Uint32Range(x: int)
    ensures -0x1_0000_0000 <= x < 0x1_0000_0000 ==> Uint32(x) == if x >= 0 then x else x + 0x1_0000_0000
  {
  }

  lemma Uint32Wrap(x: int)
    ensures 0x1_0000_0000 <= x < 0x2_0000_0000 ==> Uint32(x) == x - 0x1_0000_0000
  {
  }

  function Pow2(n: nat): (p: nat)
    ensures p > 0
  {
    if n == 0 then 1 else 2 * Pow2(n - 1)
  }

  lemma Pow2Value8()
    ensures Pow2(8) == 256
  {
  }

  /** The n low bits of v, most significant first. */
  function ToBits(v: nat, n: nat): (b: bits)
    ensures |b| == n
  {
    if n == 0 then [] else ToBits(v / 2, n - 1) + [v % 2 == 1]
  }

  function FromBits(b: bits): (v: nat)
    ensures v < Pow2(|b|)
  {
    if b == [] then 0 else 2 * FromBits(b[..|b| - 1]) + (if b[|b| - 1] then 1 else 0)
  }

  function Ones(n: nat): (b: bits)
    ensures |b| == n && forall i :: 0 <= i < n ==> b[i]
  {
    seq(n, _ => true)
  }

  function Zeros(n: nat): (b: bits)
    ensures |b| == n && forall i :: 0 <= i < n ==> !b[i]
  {
    seq(n, _ => false)
  }

  /** A byte string read most significant bit first. */
  function BytesBits(s: seq<byte>): (b: bits)
    ensures |b| == 8 * |s|
  {
    if s == [] then [] else BytesBits(s[..|s| - 1]) + ToBits(s[|s| - 1], 8)
  }

  /** The byte string with the given bits; fewer than eight bits at the front are dropped. */
  function Pack(b: bits): (s: seq<byte>)
    ensures |s| == |b| / 8
  {
    if |b| < 8 then []
    else
      Pow2Value8();
      Pack(b[..|b| - 8]) + [FromBits(b[|b| - 8..])]
  }

  lemma {:induction false} ToFromBits(b: bits)
    ensures ToBits(FromBits(b), |b|) == b
  {
    if b == [] {
    } else {
      ToFromBits(b[..|b| - 1]);
      assert b == b[..|b| - 1] + [b[|b| - 1]];
    }
  }

  lemma {:induction false} FromToBits(v: nat, n: nat)
    requires v < Pow2(n)
    ensures FromBits(ToBits(v, n)) == v
  {
    if n == 0 {
    } else {
      FromToBits(v / 2, n - 1);
      assert ToBits(v, n)[..n - 1] == ToBits(v / 2, n - 1);
    }
  }

  /** Packing and reading bits back are mutually inverse. */
  lemma {:induction false} BytesBitsPack(b: bits, n: nat)
    requires |b| == 8 * n
    ensures BytesBits(Pack(b)) == b
  {
    if n == 0 {
    } else {
      var hi, lo := b[..|b| - 8], b[|b| - 8..];
      assert b == hi + lo;
      BytesBitsPack(hi, n - 1);
      PackByte(hi, lo);
    }
  }

  lemma PackByte(hi: bits, lo: bits)
    requires |lo| == 8
    ensures BytesBits(Pack(hi + lo)) == BytesBits(Pack(hi)) + lo
  {
    hide ToBits, FromBits;
    var b := hi + lo;
    assert b[..|b| - 8] == hi && b[|b| - 8..] == lo;
    Pow2Value8();
    BytesBitsSnoc(Pack(hi), FromBits(lo));
    ToFromBits(lo);
  }

  lemma {:induction false} PackBytesBits(s: seq<byte>)
    ensures Pack(BytesBits(s)) == s
  {
    if s == [] {
    } else {
      hide FromBits, ToBits;
      var m, c := s[..|s| - 1], s[|s| - 1];
      var b, hi, lo := BytesBits(s), BytesBits(m), ToBits(c, 8);
      PackBytesBits(m);
      Pow2Value8();
      FromToBits(c, 8);
      assert b == hi + lo && b[..|b| - 8] == hi && b[|b| - 8..] == lo;
      assert s == m + [c];
    }
  }

  lemma BytesBitsInjective(a: seq<byte>, b: seq<byte>)
    requires BytesBits(a) == BytesBits(b)
    ensures a == b
  {
    PackBytesBits(a);
    PackBytesBits(b);
  }

  lemma InPrefix<T>(s: seq<T>, j: int, k: int)
    requires 0 <= k < j <= |s|
    ensures s[..j][k] == s[k] && s[k] in s[..j]
  {
    assert s[..j][k] == s[k];
  }

  lemma ConsInjective<T>(a: T, s: seq<T>, b: T, t: seq<T>)
    ensures [a] + s == [b] + t ==> s == t
  {
    assert ([a] + s)[1..] == s && ([b] + t)[1..] == t;
  }

  lemma Assoc<T>(a: seq<T>, b: seq<T>, c: seq<T>)
    ensures a + b + c == a + (b + c)
  {
  }

  lemma {:induction false} BytesBitsConcat(a: seq<byte>, b: seq<byte>)
    ensures BytesBits(a + b) == BytesBits(a) + BytesBits(b)
  {
    if b == [] {
      assert a + b == a;
    } else {
      hide ToBits;
      var m, c := b[..|b| - 1], b[|b| - 1];
      BytesBitsConcat(a, m);
      assert (a + b)[..|a + b| - 1] == a + m;
      Assoc(BytesBits(a), BytesBits(m), ToBits(c, 8));
    }
  }

  lemma BytesBitsSnoc(s: seq<byte>, c: byte)
    ensures BytesBits(s + [c]) == BytesBits(s) + ToBits(c, 8)
  {
    assert (s + [c])[..|s|] == s;
  }

  lemma BytesBitsTake(s: seq<byte>, i: nat)
    requires i < |s|
    ensures BytesBits(s[..i + 1]) == BytesBits(s[..i]) + ToBits(s[i], 8)
  {
    assert s[..i + 1] == s[..i] + [s[i]];
    BytesBitsSnoc(s[..i], s[i]);
  }

  lemma BytesBitsPrefix(s: seq<byte>, n: nat)
    requires n <= |s|
    ensures BytesBits(s[..n]) <= BytesBits(s)
  {
    hide BytesBits;
    assert s == s[..n] + s[n..];
    BytesBitsConcat(s[..n], s[n..]);
  }

  lemma {:induction false} Pow2Add(a: nat, b: nat)
    ensures Pow2(a + b) == Pow2(a) * Pow2(b)
  {
    if b == 0 {
    } else {
      Pow2Add(a, b - 1);
      assert Pow2(a) * Pow2(b) == Pow2(a) * (2 * Pow2(b - 1)) == 2 * (Pow2(a) * Pow2(b - 1));
    }
  }

  lemma Pow2Value30()
    ensures Pow2(30) == 0x40000000
  {
    Pow2Add(15, 15);
    assert Pow2(15) == 0x8000;
  }

  lemma {:induction false} MulMonotone(a: nat, b: nat, q: nat)
    requires a <= b
    ensures a * q <= b * q == q * b
    decreases b - a
  {
    if a == b {
    } else {
      MulMonotone(a, b - 1, q);
      assert b * q == (b - 1) * q + q;
    }
  }

  lemma MulGrows(p: nat, d: nat)
    requires d >= 1
    ensures p * d >= p
  {
    assert p * d == p * (d - 1) + p;
  }

  lemma MulLess(a: nat, b: nat, p: nat)
    requires a < b && p > 0
    ensures a * p < b * p
  {
    assert b * p == a * p + (b - a) * p;
    MulGrows(p, b - a);
  }

  lemma DivUnique(v: int, p: int, q: int, r: int)
    requires p > 0 && v == p * q + r && 0 <= r < p
    ensures v / p == q && v % p == r
  {
    var q', r' := v / p, v % p;
    assert v == p * q' + r';
    assert p * (q - q') == p * q - p * q' == r' - r;
    if q > q' { MulGrows(p, q - q'); }
    if q < q' { MulGrows(p, q' - q); }
  }

  /** Halving v first halves its quotient and remainder by 2p. */
  lemma HalfDivMod(v: nat, p: nat)
    requires p > 0
    ensures v / 2 / p == v / (2 * p)
    ensures v / 2 % p == v % (2 * p) / 2
    ensures v % (2 * p) % 2 == v % 2
  {
    var q, r := v / (2 * p), v % (2 * p);
    assert v == (2 * p) * q + r;
    assert (2 * p) * q == 2 * (p * q);
    var pq := p * q;
    assert v == 2 * pq + r;
    assert v / 2 == pq + r / 2;
    DivUnique(v / 2, p, q, r / 2);
  }

  /** The bits of v split at position n: v shifted right by n, then its n low bits. */
  lemma {:induction false} ToBitsSplit(v: nat, m: nat, n: nat)
    ensures ToBits(v, m + n) == ToBits(Shr(v, n), m) + ToBits(v, n)
  {
    if n == 0 {
    } else {
      ToBitsSplit(v / 2, m, n - 1);
    }
  }

  /** Only the n low bits matter. */
  lemma {:induction false} ToBitsMod(v: nat, n: nat)
    ensures ToBits(v % Pow2(n), n) == ToBits(v, n)
  {
    if n == 0 {
    } else {
      ToBitsMod(v / 2, n - 1);
      HalfDivMod(v, Pow2(n - 1));
    }
  }

  lemma {:induction false} ToBitsOnes(n: nat)
    ensures ToBits(Pow2(n) - 1, n) == Ones(n)
  {
    if n == 0 {
    } else {
      ToBitsOnes(n - 1);
      assert (Pow2(n) - 1) / 2 == Pow2(n - 1) - 1;
    }
  }

  lemma ToBitsInjective(v: nat, w: nat, n: nat)
    requires v < Pow2(n) && w < Pow2(n) && ToBits(v, n) == ToBits(w, n)
    ensures v == w
  {
    FromToBits(v, n);
    FromToBits(w, n);
  }

  // ---- the operators `|`, `<<` and `>>` on naturals

  function Or(a: nat, b: nat): nat {
    if a == 0 then b
    else if b == 0 then a
    else 2 * Or(a / 2, b / 2) + (if a % 2 == 1 || b % 2 == 1 then 1 else 0)
  }

  function Shl(v: nat, n: nat): nat { v * Pow2(n) }

  function Shr(v: nat, n: nat): nat {
    if n == 0 then v else Shr(v / 2, n - 1)
  }

  lemma {:induction false} ShrBound(v: nat, m: nat, n: nat)
    requires v < Pow2(m + n)
    ensures Shr(v, n) < Pow2(m)
  {
    if n == 0 {
    } else {
      ShrBound(v / 2, m, n - 1);
    }
  }

  lemma {:induction false} ShlBound(v: nat, m: nat, n: nat)
    requires v < Pow2(m)
    ensures Shl(v, n) < Pow2(m + n)
  {
    if n == 0 {
    } else {
      ShlBound(v, m, n - 1);
      assert Shl(v, n) == 2 * Shl(v, n - 1);
    }
  }

  lemma {:induction false} ShlBits(v: nat, m: nat, n: nat)
    ensures ToBits(Shl(v, n), m + n) == ToBits(v, m) + ToBits(0, n)
  {
    if n == 0 {
    } else {
      ShlBits(v, m, n - 1);
      assert Shl(v, n) == 2 * Shl(v, n - 1);
    }
  }

  /** Each bit of `a | b` is the disjunction of the bits of a and b. */
  lemma {:induction false} OrBits(a: nat, b: nat, n: nat)
    ensures forall i :: 0 <= i < n ==> (ToBits(Or(a, b), n)[i] <==> ToBits(a, n)[i] || ToBits(b, n)[i])
  {
    if n == 0 {
    } else {
      ZeroBits(n);
      OrBits(a / 2, b / 2, n - 1);
    }
  }

  lemma DisjointJoin(r: bits, p: bits, q: bits, m: nat)
    requires m <= |r| == |p| == |q|
    requires forall i :: 0 <= i < |r| ==> (r[i] <==> p[i] || q[i])
    requires p[m..] == Zeros(|p| - m) && q[..m] == Zeros(m)
    ensures r == p[..m] + q[m..]
  {
    var j := p[..m] + q[m..];
    forall i | 0 <= i < |r| ensures r[i] == j[i] {
      if i < m {
        assert q[i] == q[..m][i] == Zeros(m)[i];
      } else {
        assert p[i] == p[m..][i - m] == Zeros(|p| - m)[i - m];
      }
    }
  }

  /** Or-ing numbers that occupy different bits joins the high bits of one and the low bits of the other. */
  lemma OrJoins(a: nat, b: nat, m: nat, n: nat)
    requires ToBits(a, m + n)[m..] == ToBits(0, n) && ToBits(b, m + n)[..m] == ToBits(0, m)
    ensures ToBits(Or(a, b), m + n) == ToBits(a, m + n)[..m] + ToBits(b, m + n)[m..]
  {
    hide ToBits, Or;
    var k := m + n;
    OrBits(a, b, k);
    ZeroBits(m);
    ZeroBits(n);
    DisjointJoin(ToBits(Or(a, b), k), ToBits(a, k), ToBits(b, k), m);
  }

  lemma {:induction false} OrBound(a: nat, b: nat, n: nat)
    requires a < Pow2(n) && b < Pow2(n)
    ensures Or(a, b) < Pow2(n)
  {
    if n == 0 {
    } else {
      OrBound(a / 2, b / 2, n - 1);
    }
  }

  lemma {:induction false} ZeroBits(n: nat)
    ensures ToBits(0, n) == Zeros(n)
  {
    if n == 0 {
    } else {
      ZeroBits(n - 1);
    }
  }
}
