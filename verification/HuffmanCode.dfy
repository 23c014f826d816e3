/**
 Prefix codes and the one-bit walk of their tree: what a Huffman coder for RFC 7541 section 5.2 means,
 independently of how the tables are laid out.
 */
module HuffmanCode {
  import opened Bits

  datatype CodeWord = CodeWord(bitCount: nat, value: nat)

  /** One code word for each of the 256 symbols. */
  type CodeTable = t: seq<CodeWord> | |t| == 256 witness seq(256, _ => CodeWord(0, 0))

  const EOS_LENGTH: nat := 30

  function Code(t: CodeTable, c: byte): (b: bits)
    ensures |b| == t[c].bitCount
  {
    ToBits(t[c].value, t[c].bitCount)
  }

  /** Every code word has 5 to 30 bits and its value fits them. */
  ghost predicate Sized(t: CodeTable) {
    forall c: byte :: 5 <= t[c].bitCount <= EOS_LENGTH && t[c].value < Pow2(t[c].bitCount)
  }

  /** The facts about the table on which both directions of the coder rest. */
  ghost predicate GoodCode(t: CodeTable) {
    && Sized(t)
    && (forall c: byte, d: byte :: Code(t, c) <= Code(t, d) ==> c == d)
    && (forall c: byte :: !(Code(t, c) <= Ones(EOS_LENGTH)))
  }

  /** Every thirty bits begin with a code word or are EOS. */
  ghost predicate Complete(t: CodeTable) {
    forall n: bits :: |n| == EOS_LENGTH && n != Ones(EOS_LENGTH) ==> exists c: byte :: Code(t, c) <= n
  }

  /** The concatenated code words of a byte string. */
  function Codes(t: CodeTable, s: seq<byte>): bits {
    if s == [] then [] else Codes(t, s[..|s| - 1]) + Code(t, s[|s| - 1])
  }

  function PadLength(n: nat): (p: nat)
    ensures p < 8 && (n + p) % 8 == 0
  {
    (8 - n % 8) % 8
  }

  lemma PadUnique(n: nat, pad: nat, m: int)
    requires pad < 8 && n + pad == 8 * m
    ensures pad == PadLength(n)
  {
  }

  /** The encoding of s: its code words, then ones up to a byte boundary. */
  function Encoded(t: CodeTable, s: seq<byte>): (d: seq<byte>) {
    var b := Codes(t, s);
    Pack(b + Ones(PadLength(|b|)))
  }

  // ---- the walk

  /** Position in the tree (the bits since the last symbol), the symbols met so far, and whether EOS was met. */
  datatype Walker = Walker(rejected: bool, out: seq<byte>, node: bits)

  const START := Walker(false, [], [])

  ghost predicate IsCode(t: CodeTable, n: bits) {
    exists c: byte :: Code(t, c) == n
  }

  ghost function Step(t: CodeTable, w: Walker, b: bool): Walker {
    var n := w.node + [b];
    if w.rejected then w
    else if IsCode(t, n) then
      var c: byte :| Code(t, c) == n;
      Walker(false, w.out + [c], [])
    else if n == Ones(EOS_LENGTH) then Walker(true, w.out, [])
    else Walker(false, w.out, n)
  }

  ghost function Run(t: CodeTable, w: Walker, s: bits): Walker {
    if s == [] then w else Step(t, Run(t, w, s[..|s| - 1]), s[|s| - 1])
  }

  /** Trailing bits that count as padding: fewer than eight ones. */
  ghost predicate Padding(n: bits) {
    |n| < 8 && n == Ones(|n|)
  }

  datatype Decoding = Decoding(ok: bool, out: seq<byte>)

  ghost function Decoded(t: CodeTable, d: seq<byte>): Decoding {
    var w := Run(t, START, BytesBits(d));
    Decoding(!w.rejected && Padding(w.node), w.out)
  }

  // ---- composition of walks

  lemma {:induction false} RunConcat(t: CodeTable, w: Walker, a: bits, b: bits)
    ensures Run(t, w, a + b) == Run(t, Run(t, w, a), b)
  {
    if b == [] {
      assert a + b == a;
    } else {
      RunConcat(t, w, a, b[..|b| - 1]);
      assert (a + b)[..|a + b| - 1] == a + b[..|b| - 1];
    }
  }

  lemma {:induction false} RunRejected(t: CodeTable, w: Walker, s: bits)
    requires w.rejected
    ensures Run(t, w, s) == w
  {
    if s == [] {
    } else {
      RunRejected(t, w, s[..|s| - 1]);
    }
  }

  /** Symbols already met do not influence the walk. */
  lemma {:induction false} RunOutput(t: CodeTable, w: Walker, s: bits)
    ensures var v := Run(t, w.(out := []), s); Run(t, w, s) == v.(out := w.out + v.out)
  {
    if s == [] {
      assert w.out + [] == w.out;
    } else {
      RunOutput(t, w, s[..|s| - 1]);
      var v := Run(t, w.(out := []), s[..|s| - 1]);
      assert forall c: byte :: w.out + (v.out + [c]) == (w.out + v.out) + [c];
    }
  }

  // ---- encoding then decoding

  /** No non-empty prefix of n is a code word or EOS. */
  ghost predicate Open(t: CodeTable, n: bits) {
    forall k :: 0 < k <= |n| ==> !IsCode(t, n[..k]) && n[..k] != Ones(EOS_LENGTH)
  }

  lemma {:induction false} RunOpen(t: CodeTable, out: seq<byte>, n: bits)
    requires Open(t, n)
    ensures Run(t, Walker(false, out, []), n) == Walker(false, out, n)
  {
    if n == [] {
    } else {
      hide Code, IsCode;
      var m, b := n[..|n| - 1], n[|n| - 1];
      OpenPrefix(t, n);
      RunOpen(t, out, m);
      StepOpen(t, out, m, b);
      assert m + [b] == n;
    }
  }

  lemma OpenPrefix(t: CodeTable, n: bits)
    requires n != [] && Open(t, n)
    ensures Open(t, n[..|n| - 1]) && !IsCode(t, n) && n != Ones(EOS_LENGTH)
  {
    hide IsCode;
    var m := n[..|n| - 1];
    assert n[..|n|] == n;
    assert forall k :: 0 < k <= |m| ==> m[..k] == n[..k];
  }

  lemma StepOpen(t: CodeTable, out: seq<byte>, m: bits, b: bool)
    requires !IsCode(t, m + [b]) && m + [b] != Ones(EOS_LENGTH)
    ensures Step(t, Walker(false, out, m), b) == Walker(false, out, m + [b])
  {
  }

  lemma ProperPrefixOpen(t: CodeTable, c: byte, k: nat)
    requires GoodCode(t) && k < t[c].bitCount
    ensures Open(t, Code(t, c)[..k])
  {
    var n := Code(t, c)[..k];
    forall j | 0 < j <= |n|
      ensures !IsCode(t, n[..j]) && n[..j] != Ones(EOS_LENGTH)
    {
      assert n[..j] == Code(t, c)[..j] <= Code(t, c);
      assert forall d: byte :: Code(t, d) == n[..j] ==> Code(t, d) <= Code(t, c);
    }
  }

  lemma PaddingOpen(t: CodeTable, p: nat)
    requires GoodCode(t) && p < EOS_LENGTH
    ensures Open(t, Ones(p))
  {
    forall j | 0 < j <= p
      ensures !IsCode(t, Ones(p)[..j])
    {
      assert Ones(p)[..j] <= Ones(EOS_LENGTH);
    }
  }

  lemma RunCode(t: CodeTable, out: seq<byte>, c: byte)
    requires GoodCode(t)
    ensures Run(t, Walker(false, out, []), Code(t, c)) == Walker(false, out + [c], [])
  {
    var s := Code(t, c);
    ProperPrefixOpen(t, c, |s| - 1);
    RunOpen(t, out, s[..|s| - 1]);
    assert s[..|s| - 1] + [s[|s| - 1]] == s;
    assert IsCode(t, s);
    assert forall d: byte :: Code(t, d) == s ==> Code(t, d) <= Code(t, c);
  }

  /** The walk over the code words of s emits s and is back at the root. */
  lemma {:induction false} RunCodes(t: CodeTable, s: seq<byte>)
    requires GoodCode(t)
    ensures Run(t, START, Codes(t, s)) == Walker(false, s, [])
  {
    hide GoodCode, Code, Step, IsCode, Sized;
    if s == [] {
    } else {
      var m, c := s[..|s| - 1], s[|s| - 1];
      RunCodes(t, m);
      assert Codes(t, s) == Codes(t, m) + Code(t, c);
      RunConcat(t, START, Codes(t, m), Code(t, c));
      RunCode(t, m, c);
      assert m + [c] == s;
    }
  }

  /** Decoding an encoding accepts and gives back exactly the encoded bytes, for every byte string. */
  lemma EncodeThenDecode(t: CodeTable, s: seq<byte>)
    requires GoodCode(t)
    ensures Decoded(t, Encoded(t, s)) == Decoding(true, s)
  {
    var b := Codes(t, s);
    var p := PadLength(|b|);
    BytesBitsPack(b + Ones(p), (|b| + p) / 8);
    RunConcat(t, START, b, Ones(p));
    RunCodes(t, s);
    PaddingOpen(t, p);
    RunOpen(t, s, Ones(p));
  }

  // ---- decoding then encoding

  /** What has been read is the code words of the symbols met, then the bits of the current node (or EOS and more). */
  predicate HasRead(t: CodeTable, w: Walker, s: bits) {
    if w.rejected then Codes(t, w.out) + Ones(EOS_LENGTH) <= s else s == Codes(t, w.out) + w.node
  }

  lemma StepReads(t: CodeTable, w: Walker, s: bits, b: bool)
    requires HasRead(t, w, s)
    ensures HasRead(t, Step(t, w, b), s + [b])
  {
    if !w.rejected {
      var n, x := w.node + [b], Step(t, w, b);
      assert s + [b] == Codes(t, w.out) + n;
      if IsCode(t, n) {
        assert x.out[..|x.out| - 1] == w.out;
      }
    }
  }

  lemma NothingRead(t: CodeTable)
    ensures HasRead(t, START, [])
  {
  }

  /** A walk from the root has read exactly what it says. */
  lemma {:induction false} RunReads(t: CodeTable, s: bits)
    ensures HasRead(t, Run(t, START, s), s)
  {
    hide HasRead, Step;
    if s == [] {
      NothingRead(t);
    } else {
      var m, b := s[..|s| - 1], s[|s| - 1];
      RunReads(t, m);
      StepReads(t, Run(t, START, m), m, b);
      assert m + [b] == s;
    }
  }

  /** An accepted input is the encoding of what it decodes to: decode accepts exactly the image of encode. */
  lemma DecodeThenEncode(t: CodeTable, d: seq<byte>)
    ensures var r := Decoded(t, d); r.ok ==> d == Encoded(t, r.out)
  {
    var w := Run(t, START, BytesBits(d));
    if Decoded(t, d).ok {
      RunReads(t, BytesBits(d));
      PadUnique(|Codes(t, w.out)|, |w.node|, |d|);
      assert d == Pack(Codes(t, w.out) + Ones(|w.node|)) by { PackBytesBits(d); }
    }
  }

  /** The inputs that are accepted are precisely the encodings of some byte string. */
  lemma AcceptsExactlyEncodings(t: CodeTable, d: seq<byte>)
    requires GoodCode(t)
    ensures Decoded(t, d).ok <==> exists s :: d == Encoded(t, s)
  {
    DecodeThenEncode(t, d);
    forall s | d == Encoded(t, s)
      ensures Decoded(t, d).ok
    {
      EncodeThenDecode(t, s);
    }
  }
}
