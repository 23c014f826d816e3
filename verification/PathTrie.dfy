/** The radix trie over paths, as a value: what it represents, and the canonical shape that every insertion keeps. */
module PathTrie {
  import opened Bits

  datatype Option<T> = None | Some(value: T)

  const STAR: byte := '*' as int

  type Path = seq<byte>

  /** What is registered for a path: a value, for the path alone or for everything that starts with it. */
  datatype Entry<T> = Entry(value: T, wildcard: bool)

  // ---- the reference: a plain map

  ghost predicate HasLonger<T>(m: map<Path, Entry<T>>, key: Path) {
    exists k :: k in m && key < k
  }

  ghost predicate NextIs<T>(m: map<Path, Entry<T>>, key: Path, b: byte) {
    forall k :: k in m && key < k ==> k[|key|] == b
  }

  ghost predicate SharesNext<T>(m: map<Path, Entry<T>>, key: Path) {
    exists b: byte :: NextIs(m, key, b)
  }

  /**
   The registrations that the trie refuses: a path it has, and a wildcard above longer paths that do not branch there.
   */
  ghost predicate Refused<T>(m: map<Path, Entry<T>>, key: Path, wildcard: bool) {
    key in m || (wildcard && key != [] && HasLonger(m, key) && SharesNext(m, key))
  }

  ghost function MapAdd<T>(m: map<Path, Entry<T>>, key: Path, e: Entry<T>): map<Path, Entry<T>> {
    if Refused(m, key, e.wildcard) then m else m[key := e]
  }

  /** The shortest wildcard path of at least i bytes that path properly extends, or else path itself. */
  function MapFindFrom<T>(m: map<Path, Entry<T>>, path: Path, i: nat): Option<T>
    requires i <= |path|
    decreases |path| - i
  {
    if i == |path| then (if path in m then Some(m[path].value) else None)
    else if path[..i] in m && m[path[..i]].wildcard then Some(m[path[..i]].value)
    else MapFindFrom(m, path, i + 1)
  }

  function MapFind<T>(m: map<Path, Entry<T>>, path: Path): Option<T> {
    MapFindFrom(m, path, 0)
  }

  // ---- the trie

  datatype Trie<T> = Node(prefix: Path, regexEnd: bool, value: Option<T>, children: map<byte, Trie<T>>)

  function Leaf<T>(prefix: Path, value: T, regexEnd: bool): Trie<T> {
    Node(prefix, regexEnd, Some(value), map[])
  }

  function Empty<T>(): Trie<T> {
    Node([], false, None, map[])
  }

  ghost predicate Branching<T>(t: Trie<T>) {
    exists i: byte, j: byte :: i != j && i in t.children && j in t.children
  }

  /** The canonical shape below a node. */
  ghost predicate Shaped<T>(t: Trie<T>)
    decreases t, 0
  {
    && (t.regexEnd ==> t.value.Some?)
    && (forall c: byte :: c in t.children ==> Inner(t.children[c], c))
  }

  /** An inner node: a label that starts with its index, and either a value or at least two children. */
  ghost predicate Inner<T>(t: Trie<T>, c: byte)
    decreases t, 1
  {
    && t.prefix != [] && t.prefix[0] == c
    && Shaped(t)
    && (t.value.Some? || Branching(t))
  }

  /** The entry for a path below a node. */
  function Lookup<T>(t: Trie<T>, key: Path): Option<Entry<T>>
    decreases t
  {
    if key == [] then (if t.value.Some? then Some(Entry(t.value.value, t.regexEnd)) else None)
    else if key[0] !in t.children then None
    else
      var child := t.children[key[0]];
      if child.prefix <= key then Lookup(child, key[|child.prefix|..]) else None
  }

  /** The recursive search of the source. */
  function Find<T>(t: Trie<T>, path: Path): Option<T>
    decreases t
  {
    if path == [] then t.value
    else if t.regexEnd then t.value
    else if path[0] !in t.children then None
    else
      var child := t.children[path[0]];
      if |child.prefix| > |path| then None
      else if !(child.prefix <= path) then None
      else Find(child, path[|child.prefix|..])
  }

  /** The index of the first difference, or the length of the shorter one. */
  function DiffIndex(a: Path, b: Path): (d: nat)
    ensures d <= |a| && d <= |b| && a[..d] == b[..d]
    ensures d < |a| && d < |b| ==> a[d] != b[d]
  {
    if a == [] || b == [] || a[0] != b[0] then 0
    else
      var d := 1 + DiffIndex(a[1..], b[1..]);
      assert a[..d] == [a[0]] + a[1..][..d - 1] && b[..d] == [b[0]] + b[1..][..d - 1];
      d
  }

  /** A node without value over two subtrees whose labels differ in their first byte. */
  function Fork<T>(prefix: Path, a: Trie<T>, b: Trie<T>): Trie<T>
    requires a.prefix != [] && b.prefix != []
  {
    Node(prefix, false, None, map[a.prefix[0] := a, b.prefix[0] := b])
  }

  /** A node with a value over one subtree. */
  function Shorter<T>(prefix: Path, value: T, a: Trie<T>): Trie<T>
    requires a.prefix != []
  {
    Node(prefix, false, Some(value), map[a.prefix[0] := a])
  }

  datatype Added<T> = Added(trie: Trie<T>, ok: bool)

  /** The recursive insertion of the source. */
  function Add<T>(t: Trie<T>, key: Path, value: T, regexEnd: bool): (r: Added<T>)
    ensures r.trie.prefix == t.prefix && (!r.ok ==> r.trie == t)
    decreases t
  {
    if key == [] then
      if t.value.Some? then Added(t, false) else Added(t.(value := Some(value), regexEnd := regexEnd), true)
    else
      var c := key[0];
      if c !in t.children then
        Added(t.(children := t.children[c := Leaf(key, value, regexEnd)]), true)
      else
        var child := t.children[c];
        var d := DiffIndex(key, child.prefix);
        if d < |key| && d < |child.prefix| then
          var fork := Fork(key[..d], child.(prefix := child.prefix[d..]), Leaf(key[d..], value, regexEnd));
          Added(t.(children := t.children[c := fork]), true)
        else if |child.prefix| <= |key| then
          var r := Add(child, key[|child.prefix|..], value, regexEnd);
          if r.ok then Added(t.(children := t.children[c := r.trie]), true) else Added(t, false)
        else if regexEnd then Added(t, false)
        else
          var shorter := Shorter(key, value, child.(prefix := child.prefix[|key|..]));
          Added(t.(children := t.children[c := shorter]), true)
  }
}
