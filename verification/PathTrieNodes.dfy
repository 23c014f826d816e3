/** The nodes of the trie on the heap: the insertion rewrites them in place and the search follows them. */
module PathTrieNodes {
  import opened Bits
  import opened Tries = PathTrie
  import opened PathTrieLaws

  class TrieNode<T(0)> {
    var prefix: Path
    var regexEnd: bool
    var hasValue: bool
    var value: T
    const children: array<TrieNode?<T>>

    /** The objects of the subtree, and the subtree as a value. */
    ghost var repr: set<object>
    ghost var tree: Trie<T>

    ghost predicate Valid()
      reads this, repr
      decreases repr
    {
      && Fields()
      && (forall c: byte :: children[c] != null ==> Owns(c))
      && Apart()
    }

    /** Subtrees of different children share nothing. */
    ghost predicate Apart()
      requires this in repr && children in repr && children.Length == 256
      requires forall c: byte :: children[c] != null ==> children[c] in repr
      reads this, repr
    {
      forall c: byte, d: byte ::
        c != d && children[c] != null && children[d] != null ==> children[c].repr !! children[d].repr
    }

    ghost predicate Fields()
      reads this, repr
    {
      && this in repr && children in repr && children.Length == 256
      && tree.prefix == prefix && tree.regexEnd == regexEnd
      && tree.value == (if hasValue then Some(value) else None)
      && (forall c: byte :: c in tree.children <==> children[c] != null)
    }

    /** The subtree of a child belongs to this node, and the value of this node knows it. */
    ghost predicate Owns(c: byte)
      requires this in repr && children in repr && children.Length == 256 && children[c] != null
      reads this, repr
      decreases repr, 0
    {
      var child := children[c];
      && child in repr && child.repr < repr && this !in child.repr && children !in child.repr
      && child.Valid()
      && c in tree.children && tree.children[c] == child.tree
    }

    /** What a valid node shows to those who do not look into it. */
    lemma Shown()
      requires Valid()
      ensures this in repr && children in repr && children.Length == 256 && prefix == tree.prefix
      ensures forall c: byte :: c in tree.children <==> children[c] != null
    {
    }

    constructor ()
      ensures Valid() && fresh(repr) && tree == Empty()
    {
      prefix, regexEnd, hasValue := [], false, false;
      children := new TrieNode?<T>[256](i => null);
      tree := Empty();
      new;
      repr := {this, children};
    }

    constructor WithValue(val: T)
      ensures Valid() && fresh(repr) && tree == Leaf([], val, false)
    {
      prefix, regexEnd, hasValue, value := [], false, true, val;
      children := new TrieNode?<T>[256](i => null);
      tree := Leaf([], val, false);
      new;
      repr := {this, children};
    }

    method SetPrefix(p: Path)
      requires Valid()
      modifies this
      ensures Valid() && repr == old(repr) && tree == old(tree).(prefix := p)
    {
      prefix, tree := p, tree.(prefix := p);
    }

    method SetRegexEnd(r: bool)
      requires Valid()
      modifies this
      ensures Valid() && repr == old(repr) && tree == old(tree).(regexEnd := r)
    {
      regexEnd, tree := r, tree.(regexEnd := r);
    }

    method SetValue(v: T, r: bool)
      requires Valid()
      modifies this
      ensures Valid() && repr == old(repr) && tree == old(tree).(value := Some(v), regexEnd := r)
    {
      value, hasValue, regexEnd := v, true, r;
      tree := tree.(value := Some(v), regexEnd := r);
    }

    /** Swaps a child with a pointer that owns nothing. */
    method Take(c: byte) returns (child: TrieNode<T>)
      requires Valid() && c in tree.children
      modifies this, children
      ensures Valid() && c !in tree.children && child == old(children[c])
      ensures child.Valid() && child.tree == old(tree.children[c])
      ensures repr == old(repr) - child.repr && child.repr <= old(repr) && this in repr && children in repr
      ensures tree == old(tree).(children := old(tree).children - {c})
    {
      hide Valid;
      Opened();
      assert Owns(c);
      child := children[c];
      child.Shown();
      Others(c);
      children[c] := null;
      tree := tree.(children := tree.children - {c});
      repr := repr - child.repr;
      forall d: byte | children[d] != null
        ensures children[d] in repr && Owns(d)
      {
        var n := children[d];
        assert d != c && old(Owns(d)) && n.repr !! child.repr;
        assert n.Valid() && n.repr == old(n.repr) && n in n.repr;
      }
      Closed();
    }

    /** The other children of a node, as seen from one of them. */
    lemma Others(c: byte)
      requires Valid() && Fields() && children[c] != null
      ensures forall d: byte :: d != c && children[d] != null ==>
                children[d] in children[d].repr && children[d].repr !! children[c].repr
    {
      forall d: byte | d != c && children[d] != null
        ensures children[d] in children[d].repr && children[d].repr !! children[c].repr
      {
        assert Owns(d);
        children[d].Shown();
      }
    }

    /** Swaps an empty slot with a pointer to a subtree. */
    method Put(c: byte, child: TrieNode<T>)
      requires Valid() && c !in tree.children && child.Valid() && child.repr !! repr
      modifies this, children
      ensures Valid() && repr == old(repr) + child.repr
      ensures tree == old(tree).(children := old(tree).children[c := child.tree])
    {
      hide Valid;
      Opened();
      child.Shown();
      children[c] := child;
      tree := tree.(children := tree.children[c := child.tree]);
      repr := repr + child.repr;
      forall d: byte | d != c && children[d] != null
        ensures Owns(d) && children[d].repr !! child.repr
      {
        var n := children[d];
        assert old(Owns(d)) && n.Valid() && n.repr == old(n.repr);
      }
      assert Owns(c);
      Closed();
    }

    /** A path that no child has a byte in common with becomes a child. */
    method InsertLeaf(key: Path, val: T, r: bool)
      requires Valid() && key != [] && key[0] !in tree.children
      modifies repr
      ensures Valid() && fresh(repr - old(repr))
      ensures tree == old(tree).(children := old(tree).children[key[0] := Leaf(key, val, r)])
    {
      hide Valid;
      Shown();
      var newChild := new TrieNode<T>.WithValue(val);
      newChild.Shown();
      newChild.SetPrefix(key);
      newChild.SetRegexEnd(r);
      Put(key[0], newChild);
    }

    /** Puts two subtrees below a node without children. */
    method PutBoth(a: TrieNode<T>, b: TrieNode<T>)
      requires Valid() && a.Valid() && b.Valid() && repr !! a.repr && repr !! b.repr && a.repr !! b.repr
      requires a.tree.prefix != [] && b.tree.prefix != [] && a.tree.prefix[0] != b.tree.prefix[0]
      requires tree == Node(tree.prefix, false, None, map[])
      modifies this, children
      ensures Valid() && repr == old(repr) + a.repr + b.repr
      ensures tree == Fork(old(tree.prefix), a.tree, b.tree)
    {
      hide Valid;
      Shown();
      a.Shown();
      b.Shown();
      Put(a.prefix[0], a);
      Put(b.prefix[0], b);
    }

    /** A path that leaves the label of a child at d gets a common node above both. */
    method InsertFork(key: Path, d: nat, val: T, r: bool)
      requires Valid() && key != [] && key[0] in tree.children
      requires var p := tree.children[key[0]].prefix; d < |key| && d < |p| && key[d] != p[d]
      modifies repr
      ensures Valid() && fresh(repr - old(repr))
      ensures var child := old(tree).children[key[0]];
              tree == old(tree).(children := old(tree).children[key[0] :=
                Fork(key[..d], child.(prefix := child.prefix[d..]), Leaf(key[d..], val, r))])
    {
      hide Valid;
      Shown();
      var c := key[0];
      var child := Take(c);
      child.Shown();
      var commonNode := child.ForkAt(key, d, val, r);
      Put(c, commonNode);
      Replaced(old(tree).children, c, commonNode.tree);
    }

    /** Puts this subtree, cut at d, and a new leaf below a common node. */
    method ForkAt(key: Path, d: nat, val: T, r: bool) returns (commonNode: TrieNode<T>)
      requires Valid() && d < |key| && d < |tree.prefix| && key[d] != tree.prefix[d]
      modifies this
      ensures commonNode.Valid() && fresh(commonNode.repr - old(repr))
      ensures commonNode.tree == Fork(key[..d], old(tree).(prefix := old(tree).prefix[d..]), Leaf(key[d..], val, r))
    {
      hide Valid;
      Shown();
      commonNode := new TrieNode<T>();
      var insertedNode := new TrieNode<T>.WithValue(val);
      commonNode.Shown();
      insertedNode.Shown();
      commonNode.SetPrefix(key[..d]);
      SetPrefix(prefix[d..]);
      insertedNode.SetPrefix(key[d..]);
      insertedNode.SetRegexEnd(r);
      commonNode.PutBoth(this, insertedNode);
    }

    /** A path that ends inside the label of a child gets a shorter node above it. */
    method InsertShorter(key: Path, val: T)
      requires Valid() && key != [] && key[0] in tree.children && key < tree.children[key[0]].prefix
      modifies repr
      ensures Valid() && fresh(repr - old(repr))
      ensures var child := old(tree).children[key[0]];
              tree == old(tree).(children := old(tree).children[key[0] :=
                Shorter(key, val, child.(prefix := child.prefix[|key|..]))])
    {
      hide Valid;
      Shown();
      var c := key[0];
      var child := Take(c);
      child.Shown();
      var shorterNode := child.CutAt(key, val);
      Put(c, shorterNode);
      Replaced(old(tree).children, c, shorterNode.tree);
    }

    /** Puts this subtree, cut at the end of the key, below a node for the key. */
    method CutAt(key: Path, val: T) returns (shorterNode: TrieNode<T>)
      requires Valid() && key < tree.prefix
      modifies this
      ensures shorterNode.Valid() && fresh(shorterNode.repr - old(repr))
      ensures shorterNode.tree == Shorter(key, val, old(tree).(prefix := old(tree).prefix[|key|..]))
    {
      hide Valid;
      Shown();
      assert prefix[..|key|] == key;
      shorterNode := new TrieNode<T>.WithValue(val);
      shorterNode.Shown();
      shorterNode.SetPrefix(prefix[..|key|]);
      SetPrefix(prefix[|key|..]);
      Shown();
      shorterNode.Put(prefix[0], this);
    }

    /** The insertion of a rest below a child. */
    method Descend(c: byte, key: Path, val: T, r: bool) returns (ok: bool)
      requires Valid() && c in tree.children
      modifies repr
      ensures Valid() && fresh(repr - old(repr))
      ensures var s := Add(old(tree).children[c], key, val, r);
              ok == s.ok && tree == old(tree).(children := old(tree).children[c := s.trie])
      decreases tree, 0
    {
      hide Valid, Add, ValidBut;
      Shown();
      ChildShown(c);
      var child := children[c];
      Release(c, child);
      ok := child.AddNode(key, val, r);
      Regain(c, child);
    }

    /** Valid, except for the child at c, whose subtree does not count as part of this node's objects. */
    ghost predicate ValidBut(c: byte, child: TrieNode<T>)
      reads this, repr
    {
      && Fields() && children[c] == child && child !in repr
      && (forall d: byte :: d != c && children[d] != null ==> children[d] in repr && Owns(d))
      && (forall d: byte, e: byte ::
            d != e && d != c && e != c && children[d] != null && children[e] != null ==>
              children[d].repr !! children[e].repr)
    }

    ghost method Release(c: byte, child: TrieNode<T>)
      requires Valid() && c in tree.children && children[c] == child
      modifies this`repr
      ensures ValidBut(c, child) && child.Valid() && child.repr !! repr && repr + child.repr == old(repr)
      ensures child.tree == tree.children[c] && this in repr && child.repr == old(child.repr)
    {
      assert Owns(c);
      child.Shown();
      repr := repr - child.repr;
      forall d: byte | d != c && children[d] != null
        ensures children[d] in repr && Owns(d)
      {
        var n := children[d];
        assert old(Owns(d)) && n.repr !! child.repr;
        assert n.Valid();
        assert n in n.repr && n.repr <= repr;
      }
    }

    ghost method Regain(c: byte, child: TrieNode<T>)
      requires ValidBut(c, child) && child.Valid() && child.repr !! repr
      modifies this`repr, this`tree
      ensures Valid() && repr == old(repr) + child.repr
      ensures tree == old(tree).(children := old(tree).children[c := child.tree])
    {
      hide Valid;
      child.Shown();
      repr := repr + child.repr;
      tree := tree.(children := tree.children[c := child.tree]);
      forall d: byte | d != c && children[d] != null
        ensures Owns(d) && children[d].repr !! child.repr
      {
        var n := children[d];
        assert old(Owns(d)) && n.Valid() && n.repr == old(n.repr);
      }
      assert Owns(c);
      Closed();
    }

    lemma Opened()
      requires Valid()
      ensures Fields() && (forall c: byte :: children[c] != null ==> Owns(c)) && Apart()
    {
    }

    lemma Closed()
      requires Fields() && (forall c: byte :: children[c] != null ==> children[c] in repr && Owns(c)) && Apart()
      ensures Valid()
    {
    }

    /** addNodeRecursive: rewrites the subtree as the insertion on values says. */
    method AddNode(key: Path, val: T, r: bool) returns (ok: bool)
      requires Valid()
      modifies repr
      ensures Valid() && fresh(repr - old(repr))
      ensures Added(tree, ok) == Add(old(tree), key, val, r)
      decreases tree, 1
    {
      Shown();
      if |key| == 0 {
        if hasValue {
          return false;
        }
        SetValue(val, r);
        return true;
      }
      var c := key[0];
      if children[c] == null {
        InsertLeaf(key, val, r);
        return true;
      }
      var child := children[c];
      ChildShown(c);
      var diffIndex := FirstDifference(key, child.prefix);
      if diffIndex < |key| && diffIndex < |child.prefix| {
        InsertFork(key, diffIndex, val, r);
        return true;
      }
      if |child.prefix| <= |key| {
        ok := Descend(c, key[|child.prefix|..], val, r);
        assert tree.children == old(tree).children[c := tree.children[c]];
        Unchanged(old(tree), c);
        return;
      }
      if r {
        return false;
      }
      assert key == child.prefix[..|key|];
      InsertShorter(key, val);
      return true;
    }

    /** findRecursive: what the search on values finds. */
    function Search(path: Path): (r: Option<T>)
      requires Valid() && Shaped(tree)
      reads this, repr
      ensures r == Find(tree, path)
      decreases repr
    {
      if |path| == 0 then (if hasValue then Some(value) else None)
      else if regexEnd then Some(value)
      else if children[path[0]] == null then None
      else
        var child := children[path[0]];
        assert Owns(path[0]);
        assert child.prefix == child.tree.prefix && Shaped(child.tree) by {
          child.Shown();
          ChildShaped(tree, path[0]);
        }
        if |child.prefix| > |path| then None
        else if !(child.prefix <= path) then None
        else child.Search(path[|child.prefix|..])
    }

    lemma ChildShown(c: byte)
      requires Valid() && c in tree.children
      ensures children.Length == 256 && children[c] != null && children[c].prefix == tree.children[c].prefix
    {
      assert Owns(c);
      children[c].Shown();
    }
  }

  lemma Unchanged<T>(t: Trie<T>, c: byte)
    requires c in t.children
    ensures t.(children := t.children[c := t.children[c]]) == t
  {
    assert t.children[c := t.children[c]] == t.children;
  }

  lemma Replaced<T>(m: map<byte, Trie<T>>, c: byte, t: Trie<T>)
    ensures (m - {c})[c := t] == m[c := t]
  {
  }

  lemma DiffIndexUnique(a: Path, b: Path, d: nat)
    requires d <= |a| && d <= |b| && a[..d] == b[..d] && (d < |a| && d < |b| ==> a[d] != b[d])
    ensures d == DiffIndex(a, b)
  {
    var e := DiffIndex(a, b);
    if e < d {
      InPrefix(a, d, e);
      InPrefix(b, d, e);
    } else if d < e {
      InPrefix(a, e, d);
      InPrefix(b, e, d);
    }
  }

  method FirstDifference(a: Path, b: Path) returns (d: nat)
    ensures d == DiffIndex(a, b)
  {
    d := 0;
    while d < Min(|a|, |b|) && a[d] == b[d]
      invariant d <= |a| && d <= |b| && a[..d] == b[..d]
    {
      d := d + 1;
    }
    DiffIndexUnique(a, b, d);
  }

  /** The trie with its root, and the map that it stands for. */
  class PathTrie<T(0)> {
    const root: TrieNode<T>
    ghost var entries: map<Path, Entry<T>>

    ghost predicate Valid()
      reads this, root, root.repr
    {
      root.Valid() && Shaped(root.tree) && Represents(root.tree, entries) && this !in root.repr
    }

    constructor ()
      ensures Valid() && fresh(root.repr) && entries == map[]
    {
      root := new TrieNode<T>();
      entries := map[];
      new;
      EmptyTrie<T>();
    }

    /** Registers a pattern; a refused one changes nothing, an accepted one adds its path and nothing else. */
    method AddNode(prefix: Path, value: T) returns (ok: bool)
      requires Valid()
      modifies this, root.repr
      ensures Valid() && fresh(root.repr - old(root.repr))
      ensures var r := Registration(prefix, value);
              && (!ok <==> Refused(old(entries), r.Key(), r.Wildcard()))
              && entries == (if ok then old(entries)[r.Key() := Entry(value, r.Wildcard())] else old(entries))
              && (!ok ==> root.tree == old(root.tree))
      ensures ok ==> entries == if prefix != [] && prefix[|prefix| - 1] == 42
                                then old(entries)[prefix[..|prefix| - 1] := Entry(value, true)]
                                else old(entries)[prefix := Entry(value, false)]
    {
      hide Shaped, Lookup, Add, Refused, TrieNode<T>.Valid;
      var prefixStr := prefix;
      var regex := |prefix| != 0 && prefix[|prefix| - 1] == STAR;
      if regex {
        prefixStr := prefixStr[..|prefixStr| - 1];
      }
      AddIsMapAdd(root.tree, entries, prefixStr, value, regex);
      ok := root.AddNode(prefixStr, value, regex);
      entries := MapAdd(entries, prefixStr, Entry(value, regex));
    }

    /** The value for a path, as the map of registrations has it. */
    method FindPath(path: Path) returns (result: Option<T>)
      requires Valid()
      ensures result == MapFind(entries, path)
    {
      FindIsMapFind(root.tree, entries, path);
      result := root.Search(path);
    }
  }
}
