/**
 A complete prefix code has a four-bit automaton: its states are the proper prefixes of the code words, which the walk
 never leaves.
 */
module HuffmanAutomaton {
  import opened Bits
  import opened HuffmanCode
  import opened Huffman
  import HuffmanTable

  /** A node inside the tree. */
  ghost predicate Inner(t: CodeTable, n: bits) {
    exists c: byte :: |n| < t[c].bitCount && n == Code(t, c)[..|n|]
  }

  /** What follows a node inside the tree is a code word, EOS, or inside the tree again. */
  lemma ChildInner(t: CodeTable, n: bits, b: bool)
    requires GoodCode(t) && Complete(t) && Inner(t, n)
    ensures var m := n + [b]; IsCode(t, m) || m == Ones(EOS_LENGTH) || Inner(t, m)
  {
    hide Code;
    var m := n + [b];
    var d: byte :| |n| < t[d].bitCount && n == Code(t, d)[..|n|];
    var pad := EOS_LENGTH - |m|;
    if m != Ones(EOS_LENGTH) {
      PaddedNotEos(m, pad);
      var c: byte :| Code(t, c) <= m + Zeros(pad);
      PrefixCases(Code(t, c), n, b, Zeros(pad));
      if Code(t, c) <= n {
        PrefixTransitive(Code(t, c), n, Code(t, d));
      }
    }
  }

  lemma PaddedNotEos(m: bits, pad: nat)
    requires m != Ones(|m| + pad)
    ensures m + Zeros(pad) != Ones(|m| + pad)
  {
    if pad == 0 {
      assert m + Zeros(pad) == m;
    } else {
      assert !(m + Zeros(pad))[|m|];
    }
  }

  /** A prefix of n + [b] + z is a prefix of n, is n + [b], or extends n + [b]. */
  lemma PrefixCases(p: bits, n: bits, b: bool, z: bits)
    requires p <= n + [b] + z
    ensures p <= n || p == n + [b] || (|n| + 1 < |p| && n + [b] == p[..|n| + 1])
  {
  }

  lemma PrefixTransitive(p: bits, n: bits, q: bits)
    requires p <= n && |n| < |q| && n == q[..|n|]
    ensures p <= q && p != q
  {
  }

  lemma StepStaysInner(t: CodeTable, w: Walker, b: bool)
    requires GoodCode(t) && Complete(t) && Inner(t, w.node)
    ensures Inner(t, Step(t, w, b).node)
  {
    RootInner(t);
    ChildInner(t, w.node, b);
  }

  lemma RootInner(t: CodeTable)
    requires GoodCode(t)
    ensures Inner(t, [])
  {
    assert Code(t, 0)[..0] == [];
  }

  lemma {:induction false} RunStaysInner(t: CodeTable, w: Walker, s: bits)
    requires GoodCode(t) && Complete(t) && Inner(t, w.node)
    ensures Inner(t, Run(t, w, s).node)
  {
    if s == [] {
    } else {
      RunStaysInner(t, w, s[..|s| - 1]);
      StepStaysInner(t, Run(t, w, s[..|s| - 1]), s[|s| - 1]);
    }
  }

  ghost function InnerNodes(t: CodeTable): (s: set<bits>)
    ensures forall n :: n in s <==> Inner(t, n)
  {
    set c: int, k: int | 0 <= c < 256 && 0 <= k < t[c].bitCount :: Code(t, c)[..k]
  }

  // ---- how many nodes there are

  ghost function Extended(s: set<bits>, b: bool): set<bits> {
    set n | n in s :: n + [b]
  }

  lemma InExtended(s: set<bits>, b: bool, m: bits)
    ensures m in Extended(s, b) <==> m != [] && m[|m| - 1] == b && m[..|m| - 1] in s
  {
    if m in Extended(s, b) {
      var n :| n in s && m == n + [b];
      assert m[..|m| - 1] == n;
    }
    if m != [] && m[|m| - 1] == b && m[..|m| - 1] in s {
      assert m == m[..|m| - 1] + [b];
    }
  }

  lemma {:induction false} ExtendedSize(s: set<bits>, b: bool)
    ensures |Extended(s, b)| == |s|
  {
    if s == {} {
      assert Extended(s, b) == {};
    } else {
      var n :| n in s;
      var r := s - {n};
      ExtendedSize(r, b);
      InExtended(r, b, n + [b]);
      assert (n + [b])[..|n|] == n;
      assert Extended(s, b) == Extended(r, b) + {n + [b]};
    }
  }

  /** The code words of the first k symbols. */
  ghost function Words(t: CodeTable, k: nat): (s: set<bits>)
    requires k <= 256
    ensures forall m :: m in s <==> exists c: byte :: c < k && Code(t, c) == m
  {
    if k == 0 then {} else Words(t, k - 1) + {Code(t, k - 1)}
  }

  lemma {:induction false} WordsSize(t: CodeTable, k: nat)
    requires GoodCode(t) && k <= 256
    ensures |Words(t, k)| == k
  {
    if k == 0 {
    } else {
      hide Code, GoodCode;
      WordsSize(t, k - 1);
      var c: byte := k - 1;
      forall d: byte | d < k - 1 ensures Code(t, d) != Code(t, c) {
        SameWord(t, d, c);
      }
      assert Words(t, k) == Words(t, k - 1) + {Code(t, c)};
    }
  }

  lemma SameWord(t: CodeTable, c: byte, d: byte)
    requires GoodCode(t)
    ensures Code(t, c) == Code(t, d) ==> c == d
  {
    assert Code(t, c) == Code(t, d) ==> Code(t, c) <= Code(t, d);
  }

  /** A node inside the tree is neither a code word nor EOS. */
  lemma InnerIsNoLeaf(t: CodeTable, n: bits)
    requires GoodCode(t) && Inner(t, n)
    ensures !IsCode(t, n) && n != Ones(EOS_LENGTH)
  {
    var d: byte :| |n| < t[d].bitCount && n == Code(t, d)[..|n|];
    forall c: byte ensures Code(t, c) != n {
      assert Code(t, c) == n ==> Code(t, c) <= Code(t, d);
    }
  }

  /** The parent of a code word, of EOS and of a node inside the tree is inside the tree. */
  lemma ParentInner(t: CodeTable, m: bits)
    requires GoodCode(t) && Complete(t) && m != []
    requires IsCode(t, m) || m == Ones(EOS_LENGTH) || Inner(t, m)
    ensures Inner(t, m[..|m| - 1])
  {
    hide Code, GoodCode, Complete;
    var n := m[..|m| - 1];
    if IsCode(t, m) {
      var c: byte :| Code(t, c) == m;
      assert n == Code(t, c)[..|n|];
    } else if Inner(t, m) {
      var d: byte :| |m| < t[d].bitCount && m == Code(t, d)[..|m|];
      assert n == Code(t, d)[..|n|];
    } else {
      EosParent(t);
      assert n == Ones(EOS_LENGTH - 1);
      assert Inner(t, n);
    }
  }

  /** What begins n + [false], n all ones, is ones only or all of it. */
  lemma OnesOrAll(w: bits, n: bits)
    requires n == Ones(|n|) && w <= n + [false]
    ensures w <= Ones(|n| + 1) || (|n| < |w| && w[..|n|] == n)
  {
    if |w| <= |n| {
      assert forall k :: 0 <= k < |w| ==> w[k] == (n + [false])[k] == n[k];
    }
  }

  lemma EosParent(t: CodeTable)
    requires GoodCode(t) && Complete(t)
    ensures Inner(t, Ones(EOS_LENGTH - 1))
  {
    hide Code;
    var n := Ones(EOS_LENGTH - 1);
    var m := n + [false];
    assert !m[EOS_LENGTH - 1];
    var c: byte :| Code(t, c) <= m;
    OnesOrAll(Code(t, c), n);
  }

  lemma WordIsCode(t: CodeTable, m: bits)
    ensures m in Words(t, 256) <==> IsCode(t, m)
  {
  }

  /** The nodes one bit below the nodes inside the tree are all the other nodes, the code words and EOS. */
  lemma ChildrenAre(t: CodeTable, m: bits)
    requires GoodCode(t) && Complete(t)
    ensures var i := InnerNodes(t);
            m in Extended(i, false) + Extended(i, true) <==> m in (i - {[]}) + Words(t, 256) + {Ones(EOS_LENGTH)}
  {
    hide Code, GoodCode, Complete, Words, InnerNodes, Extended;
    var i := InnerNodes(t);
    InExtended(i, false, m);
    InExtended(i, true, m);
    WordIsCode(t, m);
    if m != [] {
      var n := m[..|m| - 1];
      if n in i {
        ChildInner(t, n, m[|m| - 1]);
        assert n + [m[|m| - 1]] == m;
      }
      if IsCode(t, m) || m == Ones(EOS_LENGTH) || Inner(t, m) { ParentInner(t, m); }
    } else {
      RootInner(t);
      InnerIsNoLeaf(t, []);
    }
  }

  /**
   A binary tree with 257 leaves, 256 code words and EOS, has 256 nodes inside: one for each value of a state byte.
   */
  lemma NodeCount(t: CodeTable)
    requires GoodCode(t) && Complete(t)
    ensures |InnerNodes(t)| == 256
  {
    hide GoodCode, Complete, Code, Inner, InnerNodes, Words, Extended, IsCode;
    var i, w, e := InnerNodes(t), Words(t, 256), Ones(EOS_LENGTH);
    var low, high := Extended(i, false), Extended(i, true);
    ExtendedSize(i, false);
    ExtendedSize(i, true);
    WordsSize(t, 256);
    RootInner(t);
    forall m ensures m in low + high <==> m in (i - {[]}) + w + {e} {
      ChildrenAre(t, m);
    }
    forall m ensures !(m in low && m in high) {
      InExtended(i, false, m);
      InExtended(i, true, m);
    }
    forall m ensures m in i ==> m !in w && m != e {
      if Inner(t, m) { InnerIsNoLeaf(t, m); WordIsCode(t, m); }
    }
    EosIsNoWord(t);
    Cardinality(low, high, i, w, e);
  }

  lemma EosIsNoWord(t: CodeTable)
    requires GoodCode(t)
    ensures Ones(EOS_LENGTH) !in Words(t, 256)
  {
    forall c: byte ensures Code(t, c) != Ones(EOS_LENGTH) {
      assert !(Code(t, c) <= Ones(EOS_LENGTH));
    }
  }

  lemma Cardinality(low: set<bits>, high: set<bits>, i: set<bits>, w: set<bits>, e: bits)
    requires low + high == (i - {[]}) + w + {e} && low !! high && [] in i && i !! w && e !in w && e !in i
    ensures |low| + |high| == |i| - 1 + |w| + 1
  {
    var r := i - {[]};
    assert |low + high| == |low| + |high|;
    assert i == r + {[]} && |i| == |r| + 1;
    assert |r + w| == |r| + |w|;
    assert |r + w + {e}| == |r + w| + 1;
  }

  // ---- the automaton

  lemma {:induction false} Listed(s: set<bits>) returns (l: seq<bits>)
    ensures |l| == |s| && forall n :: n in s <==> n in l
  {
    if s == {} {
      l := [];
    } else {
      var n :| n in s;
      l := Listed(s - {n});
      l := [n] + l;
    }
  }

  ghost function Cell(t: CodeTable, nodes: seq<bits>, node: bits, x: nat): DecodeData {
    var w := Run(t, Walker(false, [], node), ToBits(x, 4));
    if w.rejected || w.node !in nodes || |w.out| > 1 then DecodeData(0, 4, 0)
    else
      var s: nat :| s < |nodes| && nodes[s] == w.node;
      CellFor(s, Padding(w.node), w.out)
  }

  function CellFor(state: nat, accept: bool, out: seq<byte>): (e: DecodeData)
    requires |out| <= 1
    ensures e.state == state && !e.Fails() && e.Accept() == accept && e.Emits() == (out != [])
    ensures out != [] ==> out == [e.symbol]
  {
    DecodeData(state, (if accept then 1 else 0) + (if out != [] then 2 else 0), if out != [] then out[0] else 0)
  }

  lemma CellIsRight(t: CodeTable, nodes: seq<bits>, node: bits, x: nat)
    requires GoodCode(t) && Complete(t) && Inner(t, node) && nodes != [] && forall n :: Inner(t, n) ==> n in nodes
    ensures CellRight(t, nodes, node, x, Cell(t, nodes, node, x)) && Cell(t, nodes, node, x).state < |nodes|
  {
    hide Run, GoodCode, Complete, CellFor, ToBits;
    RunStaysInner(t, Walker(false, [], node), ToBits(x, 4));
    AtMostOneSymbolPerNibble(t, node, x);
    RejectsBeforeSymbols(t, node, x);
    assert DecodeData(0, 4, 0).Fails();
  }

  /** Within a nibble EOS is only met before any symbol, so a failing cell has no symbol. */
  lemma RejectsBeforeSymbols(t: CodeTable, node: bits, x: nat)
    requires GoodCode(t)
    ensures var w := Run(t, Walker(false, [], node), ToBits(x, 4)); w.rejected ==> w.out == []
  {
    RejectsLate(t, node, ToBits(x, 4));
  }

  lemma {:induction false} RejectsLate(t: CodeTable, node: bits, s: bits)
    requires GoodCode(t) && |s| < EOS_LENGTH
    ensures var w := Run(t, Walker(false, [], node), s); w.rejected ==> w.out == []
  {
    if s == [] {
    } else {
      RejectsLate(t, node, s[..|s| - 1]);
      EmitsAfterLength(t, node, s[..|s| - 1]);
    }
  }

  /** So the automaton that Decode is proved against exists, with as many states as a byte has values. */
  lemma AutomatonExists(t: CodeTable) returns (table: DecodeTable, nodes: seq<bits>)
    requires GoodCode(t) && Complete(t)
    ensures Automaton(t, table, nodes) && |table| == 256
    ensures forall s, x :: 0 <= s < 256 && 0 <= x < 16 ==> table[s][x].state < 256
  {
    hide GoodCode, Complete, Inner, InnerNodes, Cell, CellRight;
    var l := Listed(InnerNodes(t) - {[]});
    nodes := [[]] + l;
    RootInner(t);
    NodeCount(t);
    table := seq(|nodes|, s requires 0 <= s < |nodes| =>
      seq(16, x requires 0 <= x < 16 => Cell(t, nodes, nodes[s], x)));
    forall s, x | 0 <= s < |table| && 0 <= x < 16
      ensures CellRight(t, nodes, nodes[s], x, table[s][x]) && table[s][x].state < |nodes|
    {
      assert s > 0 ==> nodes[s] == l[s - 1] && l[s - 1] in l;
      assert nodes[s] in InnerNodes(t);
      CellIsRight(t, nodes, nodes[s], x);
    }
  }

  /** The table that is shipped has such an automaton, so what is required of a decoder for it can be met. */
  lemma ShippedAutomatonExists() returns (table: DecodeTable, nodes: seq<bits>)
    ensures Automaton(HuffmanTable.EncodeTable(), table, nodes) && |table| == 256
  {
    hide Automaton, GoodCode, Complete;
    HuffmanTable.TableGood();
    table, nodes := AutomatonExists(HuffmanTable.EncodeTable());
  }
}
