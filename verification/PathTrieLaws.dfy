/** The trie agrees with the map of what was registered, and its shape depends on nothing else. */
module PathTrieLaws {
  import opened Bits
  import opened PathTrie

  // ---- searching

  /** MapFindFrom, on what the trie represents. */
  function FindFrom<T>(t: Trie<T>, path: Path, i: nat): Option<T>
    requires i <= |path|
    decreases |path| - i
  {
    var e := Lookup(t, path[..i]);
    if i == |path| then (if e.Some? then Some(e.value.value) else None)
    else if e.Some? && e.value.wildcard then Some(e.value.value)
    else FindFrom(t, path, i + 1)
  }

  lemma {:induction false} FindFromSkips<T>(t: Trie<T>, path: Path, i: nat, j: nat)
    requires i <= j <= |path|
    requires forall k :: i <= k < j ==> Lookup(t, path[..k]).None? || !Lookup(t, path[..k]).value.wildcard
    ensures FindFrom(t, path, i) == FindFrom(t, path, j)
    decreases j - i
  {
    hide Lookup;
    if i == j {
    } else {
      FindFromSkips(t, path, i + 1, j);
    }
  }

  lemma {:induction false} FindFromChild<T>(t: Trie<T>, path: Path, i: nat)
    requires path != [] && path[0] in t.children
    requires var p := t.children[path[0]].prefix; p <= path && p != [] && |p| <= i <= |path|
    ensures var child := t.children[path[0]];
            FindFrom(t, path, i) == FindFrom(child, path[|child.prefix|..], i - |child.prefix|)
    decreases |path| - i
  {
    var child := t.children[path[0]];
    var n := |child.prefix|;
    assert path[n..][..i - n] == path[..i][n..];
    assert child.prefix <= path[..i];
    if i == |path| {
    } else {
      FindFromChild(t, path, i + 1);
    }
  }

  lemma {:induction false} FindIsFindFrom<T>(t: Trie<T>, path: Path)
    requires Shaped(t)
    ensures Find(t, path) == FindFrom(t, path, 0)
    decreases t
  {
    if path == [] {
    } else if t.regexEnd {
      assert Lookup(t, path[..0]) == Some(Entry(t.value.value, true));
    } else if path[0] !in t.children {
      FindFromSkips(t, path, 0, |path|);
    } else {
      var child := t.children[path[0]];
      var n := |child.prefix|;
      if child.prefix <= path {
        FindFromSkips(t, path, 0, n);
        FindFromChild(t, path, n);
        FindIsFindFrom(child, path[n..]);
      } else {
        FindFromSkips(t, path, 0, |path|);
      }
    }
  }

  // ---- insertion

  lemma ForkLookup<T>(prefix: Path, a: Trie<T>, b: Trie<T>, k: Path)
    requires a.prefix != [] && b.prefix != [] && a.prefix[0] != b.prefix[0]
    ensures Lookup(Fork(prefix, a, b), k)
         == if a.prefix <= k then Lookup(a, k[|a.prefix|..])
            else if b.prefix <= k then Lookup(b, k[|b.prefix|..])
            else None
  {
  }

  lemma ShorterLookup<T>(prefix: Path, value: T, a: Trie<T>, k: Path)
    requires a.prefix != []
    ensures Lookup(Shorter(prefix, value, a), k)
         == if k == [] then Some(Entry(value, false)) else if a.prefix <= k then Lookup(a, k[|a.prefix|..]) else None
  {
  }

  /** The subtree below a label, as seen from above the label. */
  function Below<T>(child: Trie<T>, k: Path): Option<Entry<T>> {
    if child.prefix <= k then Lookup(child, k[|child.prefix|..]) else None
  }

  lemma LeafBelow<T>(prefix: Path, value: T, regexEnd: bool, k: Path)
    ensures Below(Leaf(prefix, value, regexEnd), k) == if k == prefix then Some(Entry(value, regexEnd)) else None
  {
  }

  lemma Prefixed(key: Path, d: nat, k: Path)
    requires d <= |key|
    ensures key[..d] <= k && key[d..] <= k[d..] <==> key <= k
    ensures key[..d] <= k && key[d..] == k[d..] <==> key == k
  {
    assert key == key[..d] + key[d..];
    if key[..d] <= k {
      assert k == k[..d] + k[d..];
    }
  }

  /** Cutting a label into two leaves the subtree as it was. */
  lemma Cut<T>(child: Trie<T>, d: nat, k: Path)
    requires d <= |child.prefix|
    ensures Below(child, k)
         == if child.prefix[..d] <= k then Below(child.(prefix := child.prefix[d..]), k[d..]) else None
  {
    var p, rest := child.prefix, child.(prefix := child.prefix[d..]);
    Prefixed(p, d, k);
    if p <= k {
      assert k[d..][|p| - d..] == k[|p|..];
      SameBelow(child, rest, k[|p|..]);
    }
  }

  lemma SameBelow<T>(a: Trie<T>, b: Trie<T>, k: Path)
    requires a == b.(prefix := a.prefix)
    ensures Lookup(a, k) == Lookup(b, k)
  {
  }

  lemma NotBothPrefixes(x: Path, y: Path, k: Path)
    requires x != [] && y != [] && x[0] != y[0]
    ensures !(x <= k && y <= k)
  {
  }

  /** Splitting a label where it differs from the key adds the key. */
  lemma ForkBelow<T>(child: Trie<T>, key: Path, d: nat, value: T, regexEnd: bool, k: Path)
    requires d < |key| && d < |child.prefix| && key[..d] == child.prefix[..d] && key[d] != child.prefix[d]
    ensures Below(Fork(key[..d], child.(prefix := child.prefix[d..]), Leaf(key[d..], value, regexEnd)), k)
         == if k == key then Some(Entry(value, regexEnd)) else Below(child, k)
  {
    var a, b := child.(prefix := child.prefix[d..]), Leaf(key[d..], value, regexEnd);
    var f := Fork(key[..d], a, b);
    assert f.prefix == key[..d];
    hide Lookup, Fork, Leaf;
    Cut(child, d, k);
    Prefixed(key, d, k);
    if key[..d] <= k {
      ForkLookup(key[..d], a, b, k[d..]);
      LeafBelow(key[d..], value, regexEnd, k[d..]);
      NotBothPrefixes(a.prefix, key[d..], k[d..]);
    }
  }

  /** Cutting a label at the end of the key adds the key. */
  lemma ShorterBelow<T>(child: Trie<T>, key: Path, value: T, k: Path)
    requires key < child.prefix
    ensures Below(Shorter(key, value, child.(prefix := child.prefix[|key|..])), k)
         == if k == key then Some(Entry(value, false)) else Below(child, k)
  {
    var d, a := |key|, child.(prefix := child.prefix[|key|..]);
    var f := Shorter(key, value, a);
    assert f.prefix == key == child.prefix[..d];
    hide Lookup, Shorter;
    Cut(child, d, k);
    if key <= k {
      ShorterLookup(key, value, a, k[d..]);
      Prefixed(key, d, k);
    }
  }

  lemma ChildShaped<T>(t: Trie<T>, c: byte)
    requires Shaped(t) && c in t.children
    ensures var child := t.children[c];
            Inner(child, c) && Shaped(child) && child.prefix != [] && child.prefix[0] == c
            && (child.value.Some? || Branching(child))
  {
  }

  lemma LookupBelow<T>(t: Trie<T>, k: Path)
    requires k != []
    ensures Lookup(t, k) == if k[0] in t.children then Below(t.children[k[0]], k) else None
  {
  }

  /** The child that the key enters, after an accepted insertion. */
  lemma {:induction false} AddBelow<T>(t: Trie<T>, child: Trie<T>, key: Path, value: T, regexEnd: bool, k: Path)
    requires Shaped(t) && key != [] && key[0] in t.children && child == t.children[key[0]]
    ensures var r := Add(t, key, value, regexEnd);
            r.ok ==>
              && key[0] in r.trie.children
              && Below(r.trie.children[key[0]], k) == if k == key then Some(Entry(value, regexEnd)) else Below(child, k)
    decreases t, 0
  {
    hide Lookup, Fork, Shorter, Leaf, Shaped, DiffIndex;
    var r := Add(t, key, value, regexEnd);
    ChildShaped(t, key[0]);
    var d := DiffIndex(key, child.prefix);
    if !r.ok {
    } else if d < |key| && d < |child.prefix| {
      ForkBelow(child, key, d, value, regexEnd, k);
    } else if |child.prefix| <= |key| {
      var n := |child.prefix|;
      assert child.prefix == key[..n];
      Prefixed(key, n, k);
      if child.prefix <= k {
        AddLookup(child, key[n..], value, regexEnd, k[n..]);
      }
    } else {
      assert key < child.prefix;
      ShorterBelow(child, key, value, k);
    }
  }

  /** An accepted insertion adds its key and changes nothing else. */
  lemma {:induction false} AddLookup<T>(t: Trie<T>, key: Path, value: T, regexEnd: bool, k: Path)
    requires Shaped(t)
    ensures var r := Add(t, key, value, regexEnd);
            r.ok ==> Lookup(r.trie, k) == if k == key then Some(Entry(value, regexEnd)) else Lookup(t, k)
    decreases t, 1
  {
    var r := Add(t, key, value, regexEnd);
    if key != [] && k != [] {
      hide Lookup, Leaf, Below;
      OtherChildren(t, key, value, regexEnd);
      LookupBelow(t, k);
      LookupBelow(r.trie, k);
      if key[0] in t.children {
        AddBelow(t, t.children[key[0]], key, value, regexEnd, k);
      } else {
        LeafBelow(key, value, regexEnd, k);
      }
    }
  }

  /** An insertion only touches the child that the key enters. */
  lemma OtherChildren<T>(t: Trie<T>, key: Path, value: T, regexEnd: bool)
    requires key != []
    ensures var n := Add(t, key, value, regexEnd).trie;
            && (forall c :: c != key[0] ==> (c in n.children <==> c in t.children))
            && (forall c :: c != key[0] && c in t.children ==> n.children[c] == t.children[c])
            && (key[0] !in t.children ==> n.children == t.children[key[0] := Leaf(key, value, regexEnd)])
  {
    hide DiffIndex, Fork, Shorter, Leaf;
  }

  // ---- the canonical shape

  /** Only the label of an inner node depends on where it is. */
  lemma Relabel<T>(child: Trie<T>, c: byte, prefix: Path)
    requires Inner(child, c) && prefix != []
    ensures Inner(child.(prefix := prefix), prefix[0])
  {
    var n := child.(prefix := prefix);
    assert Branching(child) ==> Branching(n);
    assert Shaped(n);
  }

  lemma ForkShaped<T>(prefix: Path, a: Trie<T>, b: Trie<T>)
    requires prefix != [] && a.prefix != [] && b.prefix != [] && a.prefix[0] != b.prefix[0]
    requires Inner(a, a.prefix[0]) && Inner(b, b.prefix[0])
    ensures Inner(Fork(prefix, a, b), prefix[0])
  {
    var f := Fork(prefix, a, b);
    assert a.prefix[0] in f.children && b.prefix[0] in f.children;
  }

  lemma PutShaped<T>(t: Trie<T>, c: byte, child: Trie<T>)
    requires Shaped(t) && Inner(child, c)
    ensures Shaped(t.(children := t.children[c := child]))
    ensures Branching(t) ==> Branching(t.(children := t.children[c := child]))
  {
    var n := t.(children := t.children[c := child]);
    if Branching(t) {
      var i: byte, j: byte :| i != j && i in t.children && j in t.children;
      assert i in n.children && j in n.children;
    }
  }

  lemma {:induction false} AddShaped<T>(t: Trie<T>, key: Path, value: T, regexEnd: bool)
    requires Shaped(t)
    ensures var r := Add(t, key, value, regexEnd);
            Shaped(r.trie) && (t.value.Some? ==> r.trie.value.Some?) && (Branching(t) ==> Branching(r.trie))
    decreases t
  {
    var r := Add(t, key, value, regexEnd);
    if key == [] {
      assert r.trie.children == t.children;
    } else {
      hide Shaped, Inner;
      var c := key[0];
      if c !in t.children {
        LeafShaped(key, value, regexEnd);
        PutShaped(t, c, Leaf(key, value, regexEnd));
      } else {
        var child := t.children[c];
        ChildShaped(t, c);
        var d := DiffIndex(key, child.prefix);
        if d < |key| && d < |child.prefix| {
          var a, b := child.(prefix := child.prefix[d..]), Leaf(key[d..], value, regexEnd);
          Relabel(child, c, child.prefix[d..]);
          LeafShaped(key[d..], value, regexEnd);
          ForkShaped(key[..d], a, b);
          PutShaped(t, c, Fork(key[..d], a, b));
        } else if |child.prefix| <= |key| {
          var s := Add(child, key[|child.prefix|..], value, regexEnd);
          AddShaped(child, key[|child.prefix|..], value, regexEnd);
          InnerFrom(child, s.trie, c);
          PutShaped(t, c, s.trie);
        } else if !regexEnd {
          var a := child.(prefix := child.prefix[|key|..]);
          Relabel(child, c, child.prefix[|key|..]);
          ShorterShaped(key, value, a);
          PutShaped(t, c, Shorter(key, value, a));
        }
      }
    }
  }

  lemma LeafShaped<T>(prefix: Path, value: T, regexEnd: bool)
    requires prefix != []
    ensures Inner(Leaf(prefix, value, regexEnd), prefix[0])
  {
  }

  lemma ShorterShaped<T>(prefix: Path, value: T, a: Trie<T>)
    requires prefix != [] && a.prefix != [] && Inner(a, a.prefix[0])
    ensures Inner(Shorter(prefix, value, a), prefix[0])
  {
  }

  lemma InnerFrom<T>(t: Trie<T>, n: Trie<T>, c: byte)
    requires Inner(t, c) && Shaped(n) && n.prefix == t.prefix
    requires (t.value.Some? ==> n.value.Some?) && (Branching(t) ==> Branching(n))
    ensures Inner(n, c)
  {
  }

  // ---- the verdict

  /** Every inner node has an entry below it. */
  lemma {:induction false} SomeKey<T>(t: Trie<T>, c: byte) returns (k: Path)
    requires Inner(t, c)
    ensures Lookup(t, k).Some?
    decreases t
  {
    if t.value.Some? {
      k := [];
    } else {
      var i: byte :| i in t.children;
      var below := SomeKey(t.children[i], i);
      k := KeyUnder(t, i, below);
    }
  }

  lemma KeyUnder<T>(t: Trie<T>, i: byte, below: Path) returns (k: Path)
    requires i in t.children && Inner(t.children[i], i) && Lookup(t.children[i], below).Some?
    ensures k == t.children[i].prefix + below && Lookup(t, k).Some? && k != [] && k[0] == i
  {
    var p := t.children[i].prefix;
    k := p + below;
    assert k[|p|..] == below && p <= k;
  }

  /** In terms of the trie: a longer key exists, and b is the next byte of all of them. */
  ghost predicate Funnel<T>(t: Trie<T>, key: Path) {
    && (exists k :: key < k && Lookup(t, k).Some?)
    && (exists b: byte :: Next(t, key, b))
  }

  ghost predicate Next<T>(t: Trie<T>, key: Path, b: byte) {
    forall k :: key < k && Lookup(t, k).Some? ==> k[|key|] == b
  }

  /** Two children of a node without value keep a key that ends there from being a funnel. */
  lemma BranchNoFunnel<T>(t: Trie<T>)
    requires Shaped(t) && Branching(t)
    ensures !Funnel(t, [])
  {
    var i: byte, j: byte :| i != j && i in t.children && j in t.children;
    var a := SomeKey(t.children[i], i);
    var b := SomeKey(t.children[j], j);
    var ka := KeyUnder(t, i, a);
    var kb := KeyUnder(t, j, b);
    forall c: byte ensures !Next(t, [], c) {
      assert [] < ka && [] < kb;
    }
  }

  /** The keys of a child, seen from its parent. */
  lemma KeyBelow<T>(t: Trie<T>, child: Trie<T>, key: Path, k: Path)
    requires key != [] && key[0] in t.children && t.children[key[0]] == child && child.prefix <= key
    requires child.prefix != []
    requires key[|child.prefix|..] < k
    ensures var long := child.prefix + k;
            key < long && Lookup(t, long) == Lookup(child, k) && long[|key|] == k[|key| - |child.prefix|]
  {
    var long := child.prefix + k;
    assert long[|child.prefix|..] == k && child.prefix <= long;
    assert key == child.prefix + key[|child.prefix|..];
  }

  /** The keys that go through a child, seen from the child. */
  lemma KeyAbove<T>(t: Trie<T>, child: Trie<T>, key: Path, k: Path)
    requires key != [] && key[0] in t.children && t.children[key[0]] == child && child.prefix <= key
    requires child.prefix != []
    requires key < k
    ensures var rest, n := k[|child.prefix|..], |child.prefix|;
            key[n..] < rest && Lookup(t, k) == Lookup(child, rest) && k[|key|] == rest[|key| - n]
  {
    assert k == child.prefix + k[|child.prefix|..];
  }

  /** Whether longer keys exist and share a byte is decided below the child that the key enters. */
  lemma FunnelBelow<T>(t: Trie<T>, child: Trie<T>, key: Path)
    requires key != [] && key[0] in t.children && t.children[key[0]] == child && child.prefix <= key
    requires child.prefix != []
    ensures Funnel(t, key) <==> Funnel(child, key[|child.prefix|..])
  {
    hide Lookup;
    var rest := key[|child.prefix|..];
    if Funnel(t, key) {
      var k :| key < k && Lookup(t, k).Some?;
      KeyAbove(t, child, key, k);
      var b: byte :| Next(t, key, b);
      forall k | rest < k && Lookup(child, k).Some? ensures k[|rest|] == b {
        KeyBelow(t, child, key, k);
      }
      assert Next(child, rest, b);
    }
    if Funnel(child, rest) {
      var k :| rest < k && Lookup(child, k).Some?;
      KeyBelow(t, child, key, k);
      var b: byte :| Next(child, rest, b);
      forall k | key < k && Lookup(t, k).Some? ensures k[|key|] == b {
        KeyAbove(t, child, key, k);
      }
      assert Next(t, key, b);
    }
  }

  /** A key that ends inside a label is a funnel. */
  lemma InsideLabel<T>(t: Trie<T>, child: Trie<T>, key: Path)
    requires key != [] && key[0] in t.children && t.children[key[0]] == child && key < child.prefix
    requires Inner(child, key[0])
    ensures Funnel(t, key) && Lookup(t, key) == None
  {
    var below := SomeKey(child, key[0]);
    var k := KeyUnder(t, key[0], below);
    assert key < k;
    assert Next(t, key, child.prefix[|key|]);
  }

  /** No longer key exists where the label of the child differs from the key, or where there is no child. */
  lemma OffLabel<T>(t: Trie<T>, key: Path)
    requires key != []
    requires key[0] in t.children ==>
               var p := t.children[key[0]].prefix; exists d :: 0 <= d < |key| && d < |p| && key[d] != p[d]
    ensures !Funnel(t, key) && Lookup(t, key) == None
  {
    if key[0] in t.children {
      var p := t.children[key[0]].prefix;
      var d: nat :| d < |key| && d < |p| && key[d] != p[d];
      forall k | key <= k ensures Lookup(t, k) == None {
        assert k[d] == key[d];
      }
    }
  }

  /** Exactly which insertions are refused. */
  lemma {:induction false} AddVerdict<T>(t: Trie<T>, key: Path, value: T, regexEnd: bool)
    requires Shaped(t) && (key == [] ==> t.value.Some? || Branching(t))
    ensures !Add(t, key, value, regexEnd).ok <==> Lookup(t, key).Some? || (regexEnd && Funnel(t, key))
    decreases t
  {
    if key == [] {
      if Branching(t) { BranchNoFunnel(t); }
      assert t.value.Some? <==> Lookup(t, key).Some?;
    } else {
      var c := key[0];
      if c !in t.children {
        OffLabel(t, key);
      } else {
        var child := t.children[c];
        ChildShaped(t, c);
        var d := DiffIndex(key, child.prefix);
        if d < |key| && d < |child.prefix| {
          OffLabel(t, key);
        } else if |child.prefix| <= |key| {
          assert child.prefix <= key;
          FunnelBelow(t, child, key);
          AddVerdict(child, key[|child.prefix|..], value, regexEnd);
        } else {
          InsideLabel(t, child, key);
        }
      }
    }
  }

  // ---- one shape for one set of entries

  ghost predicate SameEntries<T>(a: Trie<T>, b: Trie<T>) {
    forall k :: Lookup(a, k) == Lookup(b, k)
  }

  lemma SameFunnel<T>(a: Trie<T>, b: Trie<T>, key: Path)
    requires SameEntries(a, b) && Funnel(a, key)
    ensures Funnel(b, key)
  {
    hide Lookup;
    var k :| key < k && Lookup(a, k).Some?;
    assert Lookup(b, k).Some?;
    var c: byte :| Next(a, key, c);
    assert Next(b, key, c);
  }

  /** Entries below a child are entries of the other trie below its child of the same index. */
  lemma SameIndices<T>(a: Trie<T>, b: Trie<T>, c: byte)
    requires Shaped(a) && SameEntries(a, b) && c in a.children
    ensures c in b.children
  {
    var below := SomeKey(a.children[c], c);
    var k := KeyUnder(a, c, below);
    assert Lookup(b, k).Some?;
  }

  lemma AtLabel<T>(t: Trie<T>, c: byte)
    requires Shaped(t) && c in t.children
    ensures var child := t.children[c];
            && child.prefix[|child.prefix|..] == []
            && (Lookup(t, child.prefix).Some? <==> child.value.Some?)
  {
    ChildShaped(t, c);
  }

  /** Neither label can go on where the other ends, or differ from it. */
  lemma LabelFits<T>(a: Trie<T>, b: Trie<T>, c: byte)
    requires Shaped(a) && Shaped(b) && SameEntries(a, b) && c in a.children && c in b.children
    ensures b.children[c].prefix <= a.children[c].prefix
  {
    hide Lookup, Shaped;
    var p, q := a.children[c].prefix, b.children[c].prefix;
    ChildShaped(a, c);
    ChildShaped(b, c);
    var d := DiffIndex(p, q);
    if d < |p| && d < |q| {
      var below := SomeKey(a.children[c], c);
      var k := KeyUnder(a, c, below);
      assert k[d] == p[d] != q[d];
      assert Lookup(b, k).Some?;
      OffLabel(b, k);
    } else if |p| < |q| {
      assert p < q;
      AtLabel(a, c);
      assert Lookup(a, p) == Lookup(b, p);
      FunnelBelow(a, a.children[c], p);
      InsideLabel(b, b.children[c], p);
      SameFunnel(b, a, p);
      BranchNoFunnel(a.children[c]);
    }
  }

  lemma SameBelowLabel<T>(a: Trie<T>, b: Trie<T>, c: byte)
    requires SameEntries(a, b) && c in a.children && c in b.children
    requires a.children[c].prefix == b.children[c].prefix != [] && a.children[c].prefix[0] == c
    ensures SameEntries(a.children[c], b.children[c])
  {
    var p := a.children[c].prefix;
    forall k ensures Lookup(a.children[c], k) == Lookup(b.children[c], k) {
      assert (p + k)[|p|..] == k && p <= p + k;
      assert Lookup(a, p + k) == Lookup(b, p + k);
    }
  }

  /** The shape of a trie depends on its entries alone. */
  lemma {:induction false} Canonical<T>(a: Trie<T>, b: Trie<T>)
    requires Shaped(a) && Shaped(b) && SameEntries(a, b) && a.prefix == b.prefix
    ensures a == b
    decreases a
  {
    assert Lookup(a, []) == Lookup(b, []);
    assert a.value == b.value && a.regexEnd == b.regexEnd;
    forall c: byte
      ensures (c in a.children <==> c in b.children) && (c in a.children ==> a.children[c] == b.children[c])
    {
      if c in a.children { SameIndices(a, b, c); }
      if c in b.children { SameIndices(b, a, c); }
      if c in a.children {
        LabelFits(a, b, c);
        LabelFits(b, a, c);
        ChildShaped(a, c);
        ChildShaped(b, c);
        SameBelowLabel(a, b, c);
        Canonical(a.children[c], b.children[c]);
      }
    }
    assert a.children == b.children;
  }

  // ---- the trie and the map

  ghost predicate Represents<T>(t: Trie<T>, m: map<Path, Entry<T>>) {
    forall k :: Lookup(t, k) == if k in m then Some(m[k]) else None
  }

  lemma {:induction false} FindFromIsMapFindFrom<T>(t: Trie<T>, m: map<Path, Entry<T>>, path: Path, i: nat)
    requires Represents(t, m) && i <= |path|
    ensures FindFrom(t, path, i) == MapFindFrom(m, path, i)
    decreases |path| - i
  {
    hide Lookup;
    assert path[..|path|] == path;
    assert Lookup(t, path[..i]) == if path[..i] in m then Some(m[path[..i]]) else None;
    if i == |path| {
    } else {
      FindFromIsMapFindFrom(t, m, path, i + 1);
    }
  }

  /** Searching finds the shortest wildcard that the path properly extends, or else the entry of the path itself. */
  lemma FindIsMapFind<T>(t: Trie<T>, m: map<Path, Entry<T>>, path: Path)
    requires Shaped(t) && Represents(t, m)
    ensures Find(t, path) == MapFind(m, path)
  {
    FindIsFindFrom(t, path);
    FindFromIsMapFindFrom(t, m, path, 0);
  }

  lemma FunnelIsShared<T>(t: Trie<T>, m: map<Path, Entry<T>>, key: Path)
    requires Represents(t, m)
    ensures Funnel(t, key) <==> HasLonger(m, key) && SharesNext(m, key)
  {
    hide Lookup;
    if Funnel(t, key) {
      var k :| key < k && Lookup(t, k).Some?;
      assert k in m;
      var b: byte :| Next(t, key, b);
      assert NextIs(m, key, b);
    }
    if HasLonger(m, key) && SharesNext(m, key) {
      var k :| k in m && key < k;
      assert Lookup(t, k).Some?;
      var b: byte :| NextIs(m, key, b);
      assert Next(t, key, b);
    }
  }

  /** An insertion is refused exactly when the map refuses it, and otherwise does to the entries what the map does. */
  lemma AddIsMapAdd<T>(t: Trie<T>, m: map<Path, Entry<T>>, key: Path, value: T, regexEnd: bool)
    requires Shaped(t) && Represents(t, m)
    ensures var r := Add(t, key, value, regexEnd);
            && (!r.ok <==> Refused(m, key, regexEnd)) && (!r.ok ==> r.trie == t)
            && Shaped(r.trie) && Represents(r.trie, MapAdd(m, key, Entry(value, regexEnd)))
  {
    var r := Add(t, key, value, regexEnd);
    if key != [] {
      AddVerdict(t, key, value, regexEnd);
      FunnelIsShared(t, m, key);
    }
    AddShaped(t, key, value, regexEnd);
    assert Lookup(t, key).Some? <==> key in m;
    if r.ok {
      forall k
        ensures Lookup(r.trie, k) == if k == key then Some(Entry(value, regexEnd)) else Lookup(t, k)
      {
        AddLookup(t, key, value, regexEnd, k);
      }
    }
  }

  // ---- whole runs

  /** A pattern as it is registered: a path, with a star at the end for a wildcard. */
  datatype Registration<T> = Registration(pattern: Path, value: T)
  {
    predicate Wildcard() {
      pattern != [] && pattern[|pattern| - 1] == STAR
    }

    function Key(): Path {
      if Wildcard() then pattern[..|pattern| - 1] else pattern
    }
  }

  function TrieOf<T>(run: seq<Registration<T>>): Trie<T> {
    if run == [] then Empty()
    else
      var r := run[|run| - 1];
      Add(TrieOf(run[..|run| - 1]), r.Key(), r.value, r.Wildcard()).trie
  }

  ghost function MapOf<T>(run: seq<Registration<T>>): map<Path, Entry<T>> {
    if run == [] then map[]
    else
      var r := run[|run| - 1];
      MapAdd(MapOf(run[..|run| - 1]), r.Key(), Entry(r.value, r.Wildcard()))
  }

  lemma {:induction false} RunRepresents<T>(run: seq<Registration<T>>)
    ensures Shaped(TrieOf(run)) && Represents(TrieOf(run), MapOf(run)) && TrieOf(run).prefix == []
  {
    hide Shaped, Lookup, Add, Refused;
    if run == [] {
      EmptyTrie<T>();
    } else {
      RunRepresents(run[..|run| - 1]);
      var r := run[|run| - 1];
      AddIsMapAdd(TrieOf(run[..|run| - 1]), MapOf(run[..|run| - 1]), r.Key(), r.value, r.Wildcard());
    }
  }

  lemma EmptyTrie<T>()
    ensures Shaped<T>(Empty()) && Represents<T>(Empty(), map[])
  {
  }

  /** After any sequence of registrations the trie answers every search as the plain map does. */
  lemma RunFinds<T>(run: seq<Registration<T>>, path: Path)
    ensures Find(TrieOf(run), path) == MapFind(MapOf(run), path)
  {
    RunRepresents(run);
    FindIsMapFind(TrieOf(run), MapOf(run), path);
  }

  /** Runs that register the same entries build the same trie. */
  lemma SameMapSameTrie<T>(a: seq<Registration<T>>, b: seq<Registration<T>>)
    requires MapOf(a) == MapOf(b)
    ensures TrieOf(a) == TrieOf(b)
  {
    hide Lookup, TrieOf, MapOf;
    RunRepresents(a);
    RunRepresents(b);
    Canonical(TrieOf(a), TrieOf(b));
  }

  /** No registration of the run is refused. */
  ghost predicate NoneRefused<T>(run: seq<Registration<T>>) {
    run != [] ==>
      && NoneRefused(run[..|run| - 1])
      && var r := run[|run| - 1]; Add(TrieOf(run[..|run| - 1]), r.Key(), r.value, r.Wildcard()).ok
  }

  /** One more registration is accepted exactly when the map does not refuse it. */
  lemma OneMore<T>(run: seq<Registration<T>>, r: Registration<T>)
    ensures NoneRefused(run + [r]) <==> NoneRefused(run) && !Refused(MapOf(run), r.Key(), r.Wildcard())
    ensures MapOf(run + [r]) == MapAdd(MapOf(run), r.Key(), Entry(r.value, r.Wildcard()))
  {
    hide Lookup, Add, Refused, MapAdd, Shaped;
    assert (run + [r])[..|run|] == run;
    RunRepresents(run);
    AddIsMapAdd(TrieOf(run), MapOf(run), r.Key(), r.value, r.Wildcard());
  }

  /** An accepted registration has a new path. */
  lemma AcceptedStep<T>(run: seq<Registration<T>>)
    requires run != [] && NoneRefused(run)
    ensures var m, z := MapOf(run[..|run| - 1]), run[|run| - 1];
            NoneRefused(run[..|run| - 1]) && z.Key() !in m && MapOf(run) == m[z.Key() := Entry(z.value, z.Wildcard())]
    ensures forall r :: r in run <==> r in run[..|run| - 1] || r == run[|run| - 1]
  {
    hide NoneRefused, MapOf, HasLonger, SharesNext;
    var m, z := run[..|run| - 1], run[|run| - 1];
    assert run == m + [z];
    OneMore(m, z);
  }

  /** The map of a run that is accepted as a whole holds its registrations and nothing else. */
  lemma {:induction false} AcceptedMap<T>(run: seq<Registration<T>>)
    requires NoneRefused(run)
    ensures forall r :: r in run ==> r.Key() in MapOf(run) && MapOf(run)[r.Key()] == Entry(r.value, r.Wildcard())
    ensures forall k :: k in MapOf(run) ==> exists r :: r in run && r.Key() == k
  {
    if run == [] {
    } else {
      hide NoneRefused, MapOf, TrieOf, Add;
      AcceptedStep(run);
      AcceptedMap(run[..|run| - 1]);
    }
  }

  /** Registrations that are accepted in two orders build the same trie in both. */
  lemma AnyOrder<T>(a: seq<Registration<T>>, b: seq<Registration<T>>)
    requires NoneRefused(a) && NoneRefused(b) && (forall r :: r in a <==> r in b)
    ensures TrieOf(a) == TrieOf(b)
  {
    hide NoneRefused, MapOf, TrieOf, Add;
    AcceptedMap(a);
    AcceptedMap(b);
    var ma, mb := MapOf(a), MapOf(b);
    forall k ensures (k in ma <==> k in mb) && (k in ma ==> ma[k] == mb[k]) {
      if k in ma {
        var r :| r in a && r.Key() == k;
        assert r in b;
      }
      if k in mb {
        var r :| r in b && r.Key() == k;
        assert r in a;
      }
    }
    assert ma == mb;
    SameMapSameTrie(a, b);
  }

  /** The order matters to what is accepted: a* can be followed by ab, but not ab by a*. */
  lemma OrderMatters<T>(u: T, v: T)
    ensures var x, y := Registration([97, STAR], u), Registration([97, 98], v);
            NoneRefused([x] + [y]) && !NoneRefused([y] + [x])
  {
    hide NoneRefused, TrieOf, MapOf, Add;
    var x, y := Registration([97, STAR], u), Registration([97, 98], v);
    assert [] + [x] == [x] && [] + [y] == [y] && x.Key() == [97] && y.Key() == [97, 98];
    NothingRefused<T>();
    OneMore([], x);
    OneMore([x], y);
    OneMore([], y);
    OneMore([y], x);
    assert NextIs(MapOf([y]), [97], 98);
    assert y.Key() in MapOf([y]) && [97] < y.Key();
  }

  lemma NothingRefused<T>()
    ensures NoneRefused<T>([]) && MapOf<T>([]) == map[]
  {
  }

  /** Exact patterns with different paths. */
  ghost predicate DistinctExact<T>(run: seq<Registration<T>>) {
    && (forall r :: r in run ==> !r.Wildcard())
    && (forall i, j :: 0 <= i < j < |run| ==> run[i].pattern != run[j].pattern)
  }

  lemma Older<T>(run: seq<Registration<T>>)
    requires run != [] && DistinctExact(run)
    ensures var m, z := run[..|run| - 1], run[|run| - 1];
            DistinctExact(m) && !z.Wildcard() && (forall r :: r in m ==> r.pattern != z.pattern && !r.Wildcard())
  {
    assert run == run[..|run| - 1] + [run[|run| - 1]];
  }

  /** Exact patterns with different paths are never refused, in whatever order they come. */
  lemma {:induction false} ExactAccepted<T>(run: seq<Registration<T>>)
    requires DistinctExact(run)
    ensures NoneRefused(run)
  {
    if run == [] {
    } else {
      hide DistinctExact, NoneRefused, MapOf, HasLonger, SharesNext;
      var m, z := run[..|run| - 1], run[|run| - 1];
      assert run == m + [z];
      Older(run);
      ExactAccepted(m);
      AcceptedMap(m);
      OneMore(m, z);
    }
  }

  // ---- in terms of the patterns

  /** A pattern is a wildcard exactly when it ends with a star, and then stands for the path before it. */
  lemma PatternExact<T>(k: Path, v: T)
    ensures var r := Registration(k + [42], v); r.Wildcard() && r.Key() == k
    ensures k == [] || k[|k| - 1] != 42 ==> var r := Registration(k, v); !r.Wildcard() && r.Key() == k
  {
    assert (k + [42])[..|k|] == k;
  }

  /** What the map of registrations refuses, spelled out, and what it does with the rest. */
  lemma RefusedExact<T>(m: map<Path, Entry<T>>, key: Path, e: Entry<T>)
    ensures Refused(m, key, e.wildcard) <==>
              || key in m
              || (&& e.wildcard && key != []
                  && (exists k :: k in m && key < k)
                  && forall j, k :: j in m && k in m && key < j && key < k ==> j[|key|] == k[|key|])
    ensures MapAdd(m, key, e) == if Refused(m, key, e.wildcard) then m else m[key := e]
  {
    if SharesNext(m, key) {
      var b: byte :| NextIs(m, key, b);
    }
    if k :| k in m && key < k {
      assert (forall j :: j in m && key < j ==> j[|key|] == k[|key|]) ==> NextIs(m, key, k[|key|]);
    }
  }

  /** A wildcard alone is found for every path that starts with what is before its star. */
  lemma WildcardAlone<T>(k: Path, v: T, p: Path)
    ensures Find(TrieOf([Registration(k + [42], v)]), p) == if k <= p then Some(v) else None
  {
    hide Find, TrieOf;
    PatternExact(k, v);
    AloneFinds(Registration(k + [42], v), p);
  }

  /** A pattern without star alone is found for itself only. */
  lemma ExactAlone<T>(k: Path, v: T, p: Path)
    requires k == [] || k[|k| - 1] != 42
    ensures Find(TrieOf([Registration(k, v)]), p) == if k == p then Some(v) else None
  {
    hide Find, TrieOf;
    PatternExact(k, v);
    AloneFinds(Registration(k, v), p);
  }

  lemma AloneFinds<T>(r: Registration<T>, p: Path)
    ensures Find(TrieOf([r]), p)
         == if r.Key() == p || (r.Wildcard() && r.Key() <= p) then Some(r.value) else None
  {
    hide Find, TrieOf, NoneRefused, MapOf, MapFind;
    AloneMap(r);
    RunFinds([r], p);
    var m := MapOf([r]);
    assert r.Key() <= p ==> r.Key() < p || r.Key() == p;
    if r.Wildcard() && r.Key() < p {
      WildcardFound(m, p, r.Key());
    } else {
      OtherwiseItself(m, p);
    }
  }

  lemma AloneMap<T>(r: Registration<T>)
    ensures MapOf([r]) == map[r.Key() := Entry(r.value, r.Wildcard())]
  {
    hide NoneRefused, TrieOf, Add;
    assert [] + [r] == [r];
    NothingRefused<T>();
    OneMore([], r);
  }

  /** A wildcard of the map that the path properly extends, of at least i bytes. */
  ghost predicate Above<T>(m: map<Path, Entry<T>>, path: Path, i: nat, k: Path) {
    k in m && m[k].wildcard && i <= |k| && k < path
  }

  lemma {:induction false} WildcardFoundFrom<T>(m: map<Path, Entry<T>>, path: Path, i: nat, k: Path)
    requires Above(m, path, i, k) && forall j :: Above(m, path, i, j) ==> |k| <= |j|
    ensures MapFindFrom(m, path, i) == Some(m[k].value)
    decreases |path| - i
  {
    if i == |k| {
      assert path[..i] == k;
    } else {
      assert !Above(m, path, i, path[..i]);
      forall j | Above(m, path, i + 1, j) ensures |k| <= |j| {
        assert Above(m, path, i, j);
      }
      WildcardFoundFrom(m, path, i + 1, k);
    }
  }

  /** What is found is the shortest wildcard that the path properly extends, if there is one. */
  lemma WildcardFound<T>(m: map<Path, Entry<T>>, path: Path, k: Path)
    requires k in m && m[k].wildcard && k < path
    requires forall j :: j in m && m[j].wildcard && j < path ==> |k| <= |j|
    ensures MapFind(m, path) == Some(m[k].value)
  {
    assert forall j :: Above(m, path, 0, j) <==> j in m && m[j].wildcard && j < path;
    WildcardFoundFrom(m, path, 0, k);
  }

  lemma {:induction false} OtherwiseItselfFrom<T>(m: map<Path, Entry<T>>, path: Path, i: nat)
    requires i <= |path| && forall k :: !Above(m, path, i, k)
    ensures MapFindFrom(m, path, i) == if path in m then Some(m[path].value) else None
    decreases |path| - i
  {
    if i == |path| {
    } else {
      assert !Above(m, path, i, path[..i]);
      var n := i + 1;
      if k: Path :| Above(m, path, n, k) {
        assert Above(m, path, i, k);
      }
      OtherwiseItselfFrom(m, path, n);
    }
  }

  /** If there is none, it is the entry of the path itself. */
  lemma OtherwiseItself<T>(m: map<Path, Entry<T>>, path: Path)
    requires forall j :: j in m && m[j].wildcard ==> !(j < path)
    ensures MapFind(m, path) == if path in m then Some(m[path].value) else None
  {
    assert forall j :: Above(m, path, 0, j) <==> j in m && m[j].wildcard && j < path;
    OtherwiseItselfFrom(m, path, 0);
  }

  /** After a run of which nothing is refused: the registration with the shortest star above the path is found, */
  lemma RunFindsWildcard<T>(run: seq<Registration<T>>, k: Path, v: T, path: Path)
    requires NoneRefused(run) && Registration(k + [42], v) in run && k < path
    requires forall r :: r in run && r.Wildcard() && r.Key() < path ==> |k| <= |r.Key()|
    ensures Find(TrieOf(run), path) == Some(v)
  {
    hide Find, TrieOf, NoneRefused, MapOf, MapFind;
    PatternExact(k, v);
    AcceptedMap(run);
    RunFinds(run, path);
    WildcardFound(MapOf(run), path, k);
  }

  /** or else the one of the path itself, with a star or without, and nothing if there is none. */
  lemma RunFindsItself<T>(run: seq<Registration<T>>, path: Path)
    requires NoneRefused(run) && forall r :: r in run && r.Wildcard() ==> !(r.Key() < path)
    ensures forall r :: r in run && r.Key() == path ==> Find(TrieOf(run), path) == Some(r.value)
    ensures (forall r :: r in run ==> r.Key() != path) ==> Find(TrieOf(run), path) == None
  {
    hide Find, TrieOf, NoneRefused, MapOf, MapFind;
    AcceptedMap(run);
    RunFinds(run, path);
    OtherwiseItself(MapOf(run), path);
  }
}
