/** Integers of RFC 7541 section 5.1: a prefix, then seven bits a byte, least significant first. */
module HpackInteger {
  import opened Bits

  /** What a reader gets, and how many bytes behind the cursor it used. */
  datatype Read<T> = Got(value: T, used: nat) | Bad

  /** The number of bytes up to and including the first with a clear top bit; more than there are if there is none. */
  function TailLength(t: seq<byte>): (n: nat)
    ensures 1 <= n <= |t| + 1
  {
    if t == [] || t[0] < 128 then 1 else 1 + TailLength(t[1..])
  }

  /** The number that the low seven bits of the bytes denote. */
  function TailValue(t: seq<byte>): nat {
    if t == [] then 0 else t[0] % 128 + 128 * TailValue(t[1..])
  }

  /**
   What the decoder accepts behind a full prefix: at most five bytes, of which the fifth has no more than four bits.
   */
  predicate TailFits(t: seq<byte>) {
    var n := TailLength(t);
    n <= |t| && n <= 5 && (n == 5 ==> t[4] <= 15)
  }

  /** The value of section 5.1, modulo 2^32. */
  function Number(t: seq<byte>, prefix: nat): Read<uint32> {
    if !TailFits(t) then Bad
    else
      var n := TailLength(t);
      Got(Uint32(prefix + TailValue(t[..n])), n)
  }

  /** The bytes that section 5.1 writes behind a full prefix. */
  function TailBytes(x: nat): (t: seq<byte>)
    ensures t != []
  {
    if x < 128 then [x] else [x % 128 + 128] + TailBytes(x / 128)
  }

  // ---- what has been read

  lemma {:induction false} StillOpen(t: seq<byte>, k: nat)
    requires k <= |t| && forall i :: 0 <= i < k ==> t[i] >= 128
    ensures TailLength(t) > k
  {
    if k == 0 {
    } else {
      StillOpen(t[1..], k - 1);
    }
  }

  lemma {:induction false} Closed(t: seq<byte>, k: nat)
    requires k < |t| && t[k] < 128 && forall i :: 0 <= i < k ==> t[i] >= 128
    ensures TailLength(t) == k + 1
  {
    if k == 0 {
    } else {
      Closed(t[1..], k - 1);
    }
  }

  lemma {:induction false} TailSnoc(t: seq<byte>, k: nat)
    requires k < |t|
    ensures TailValue(t[..k + 1]) == TailValue(t[..k]) + Weight(k) * (t[k] % 128)
  {
    if k == 0 {
      assert t[..1][1..] == [] && t[..0] == [];
    } else {
      TailSnoc(t[1..], k - 1);
      assert t[..k + 1][1..] == t[1..][..k] && t[..k][1..] == t[1..][..k - 1];
      var w, b := Weight(k - 1), t[k] % 128;
      assert Weight(k) * b == 128 * (w * b) by { MulAssoc(128, w, b); }
    }
  }

  lemma MulAssoc(a: int, b: int, c: int)
    ensures a * b * c == a * (b * c)
  {
  }

  /** The weight of the k-th byte. */
  function Weight(k: nat): (w: nat)
    ensures w >= 1
  {
    if k == 0 then 1 else 128 * Weight(k - 1)
  }

  lemma Weights()
    ensures Weight(0) == 1 && Weight(1) == 0x80 && Weight(2) == 0x4000 && Weight(3) == 0x20_0000
    ensures Weight(4) == 0x1000_0000
  {
  }

  lemma {:induction false} TailBound(t: seq<byte>)
    ensures TailValue(t) < Weight(|t|)
  {
    if t == [] {
    } else {
      TailBound(t[1..]);
    }
  }

  /** Accepted bytes denote less than 2^32, so only the prefix can make the sum wrap. */
  lemma AcceptedBound(t: seq<byte>)
    requires TailFits(t)
    ensures TailValue(t[..TailLength(t)]) < 0x1_0000_0000
  {
    var n := TailLength(t);
    Weights();
    TailBound(t[..n]);
    if n == 5 {
      TailSnoc(t, 4);
      TailBound(t[..4]);
    }
  }

  /** A number ends with its first byte below 128. */
  lemma {:induction false} EndsThere(t: seq<byte>)
    requires TailLength(t) <= |t|
    ensures var n := TailLength(t); t[n - 1] < 128 && forall i :: 0 <= i < n - 1 ==> t[i] >= 128
  {
    if t[0] < 128 {
    } else {
      EndsThere(t[1..]);
      forall i | 0 < i < TailLength(t) ensures t[i] == t[1..][i - 1] {
      }
    }
  }

  /** Accepted are exactly the numbers below 2^32 that end within five bytes. */
  lemma FitsExactly(t: seq<byte>)
    ensures TailFits(t) <==>
              TailLength(t) <= |t| && TailLength(t) <= 5 && TailValue(t[..TailLength(t)]) < 0x1_0000_0000
  {
    hide TailLength, TailValue, Weight;
    var n := TailLength(t);
    if TailFits(t) {
      AcceptedBound(t);
    } else if n == 5 <= |t| {
      EndsThere(t);
      FifthTooGreat(t);
    }
  }

  lemma FifthTooGreat(t: seq<byte>)
    requires |t| >= 5 && 16 <= t[4] < 128
    ensures TailValue(t[..5]) >= 0x1_0000_0000
  {
    hide TailValue, Weight;
    Weights();
    TailSnoc(t, 4);
  }

  lemma NumberIs(t: seq<byte>, prefix: nat)
    requires Number(t, prefix).Got?
    ensures TailFits(t) && TailLength(t) <= |t|
    ensures Number(t, prefix) == Got(Uint32(prefix + TailValue(t[..TailLength(t)])), TailLength(t))
  {
    hide TailValue, Uint32, TailLength;
  }

  /** The result is the number that was written exactly when that number fits 32 bits. */
  lemma NumberExact(t: seq<byte>, prefix: nat)
    requires Number(t, prefix).Got? && prefix < 0x1_0000_0000
    ensures var v := prefix + TailValue(t[..TailLength(t)]);
            && Number(t, prefix).used == TailLength(t) <= |t|
            && (Number(t, prefix).value == v <==> v < 0x1_0000_0000)
            && (v >= 0x1_0000_0000 ==> Number(t, prefix).value == v - 0x1_0000_0000 < prefix)
  {
    hide *;
    NumberIs(t, prefix);
    AcceptedBound(t);
    var v := prefix + TailValue(t[..TailLength(t)]);
    Uint32Value(v);
    Uint32Wrap(v);
  }

  /** A number reads as 0, which no written number behind a prefix is, exactly when it is 2^32. */
  lemma ReadsAsZero(t: seq<byte>, prefix: nat)
    requires 0 < prefix < 0x1_0000_0000
    ensures Number(t, prefix) == Got(0, TailLength(t)) <==>
              TailFits(t) && prefix + TailValue(t[..TailLength(t)]) == 0x1_0000_0000
  {
    if TailFits(t) {
      NumberExact(t, prefix);
    }
  }

  /** The five bytes behind a prefix of 127 that make 2^32, which is read as 0. */
  lemma WrapsToZero()
    ensures var t := [129, 255, 255, 255, 15]; 127 + TailValue(t) == 0x1_0000_0000 && Number(t, 127) == Got(0, 5)
  {
    var t := [129, 255, 255, 255, 15];
    Closed(t, 4);
    Weights();
    assert t[..0] == [] && t[..5] == t;
    TailSnoc(t, 0);
    TailSnoc(t, 1);
    TailSnoc(t, 2);
    TailSnoc(t, 3);
    TailSnoc(t, 4);
    ReadsAsZero(t, 127);
  }

  // ---- writing then reading, and back

  lemma Split128(x: nat)
    ensures x == x % 128 + 128 * (x / 128)
    ensures x >= 128 ==> (x % 128 + 128) % 128 == x % 128 && x / 128 < x
  {
  }

  /** The bytes written for x read back as x, whatever follows. */
  lemma {:induction false} WrittenTail(x: nat, rest: seq<byte>)
    ensures var t := TailBytes(x); TailLength(t + rest) == |t| && (t + rest)[..|t|] == t && TailValue(t) == x
  {
    var t := TailBytes(x);
    if x < 128 {
      assert t[1..] == [];
    } else {
      var m := TailBytes(x / 128);
      WrittenTail(x / 128, rest);
      assert t[1..] == m && (t + rest)[1..] == m + rest;
      Split128(x);
    }
  }

  lemma {:induction false} TailBytesLength(x: nat, k: nat)
    requires 1 <= k && x < Weight(k)
    ensures |TailBytes(x)| <= k
  {
    if x < 128 || k == 1 {
    } else {
      TailBytesLength(x / 128, k - 1);
    }
  }

  lemma WrittenFits(x: nat, rest: seq<byte>)
    requires x < 0x1_0000_0000
    ensures TailFits(TailBytes(x) + rest)
  {
    var t := TailBytes(x);
    Weights();
    WrittenTail(x, rest);
    TailBytesLength(x, 5) by { assert Weight(5) == 128 * Weight(4); }
    if |t| == 5 {
      assert t[..5] == t;
      TailSnoc(t, 4);
      Closed5(t, rest);
    }
  }

  lemma Closed5(t: seq<byte>, rest: seq<byte>)
    requires |t| == 5 && TailLength(t + rest) == 5 && TailValue(t[..5]) < 0x1_0000_0000
    ensures (t + rest)[4] <= 15
  {
    Weights();
    TailSnoc(t, 4);
    if t[4] >= 128 {
      OpenBefore(t + rest, 5);
      StillOpen(t + rest, 5);
    }
  }

  lemma {:induction false} OpenBefore(t: seq<byte>, n: nat)
    requires n <= |t| && TailLength(t) >= n
    ensures forall i :: 0 <= i < n - 1 ==> t[i] >= 128
  {
    if n <= 1 {
    } else {
      OpenBefore(t[1..], n - 1);
      forall i | 0 <= i < n - 1 ensures t[i] >= 128 {
        if i > 0 { assert t[i] == t[1..][i - 1]; }
      }
    }
  }

  /** Every number below 2^32 that does not fit the prefix is read back as itself, and nothing behind it is touched. */
  lemma WriteThenRead(n: nat, prefix: nat, rest: seq<byte>)
    requires prefix <= n < 0x1_0000_0000
    ensures Number(TailBytes(n - prefix) + rest, prefix) == Got(n, |TailBytes(n - prefix)|)
  {
    WrittenTail(n - prefix, rest);
    WrittenFits(n - prefix, rest);
    Uint32Value(n);
  }

  /**
   Bytes that end with their first clear top bit are what is written for their value, unless a zero byte pads them.
   */
  lemma {:induction false} ReadThenWrite(t: seq<byte>)
    requires t != [] && TailLength(t) == |t|
    ensures TailBytes(TailValue(t)) == t <==> (|t| == 1 || t[|t| - 1] != 0)
  {
    if |t| == 1 {
      assert t[1..] == [];
    } else {
      var m := t[1..];
      ReadThenWrite(m);
      var v := TailValue(m);
      DivUnique(TailValue(t), 128, v, t[0] % 128);
      if m[|m| - 1] != 0 {
        LastCounts(m);
      } else if |m| == 1 {
        assert m[1..] == [];
        assert v == 0;
      } else if TailValue(t) >= 128 {
        assert t == [t[0]] + m;
        ConsInjective<byte>(TailValue(t) % 128 + 128, TailBytes(v), t[0], m);
      }
    }
  }

  lemma {:induction false} LastCounts(t: seq<byte>)
    requires t != [] && TailLength(t) == |t| && t[|t| - 1] != 0
    ensures TailValue(t) > 0
  {
    if |t| == 1 {
    } else {
      LastCounts(t[1..]);
    }
  }
}
