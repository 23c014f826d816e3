/** The requests and responses of RFC 7541 appendices C.3 and C.5, byte for byte. */
module HpackExamples {
  import opened Bits
  import opened HpackStatic
  import opened HpackTable
  import opened HpackBlock
  import opened HpackOutcomes

  // ---- short representations in front of a block

  /** An indexed field of one byte. */
  lemma Behind(i: nat, t: seq<byte>, c: Config)
    requires 1 <= i < 127 && HasIndex(c.table.entries, i)
    ensures Block([128 + i] + t, c) == Block(t, c.With(AtIndex(c.table.entries, i)))
  {
    hide Block, AtIndex, HasIndex, Encode;
    OneRepresentation(Indexed(i), t, c);
    IndexedBytes(i);
  }

  lemma IndexedBytes(i: nat)
    requires i < 127
    ensures Encode(Indexed(i)) == [128 + i]
  {
  }

  lemma OneRepresentation(r: Repr, t: seq<byte>, c: Config)
    requires Readable(r, c)
    ensures Block(Encode(r) + t, c) == Block(t, Meaning(r, c))
  {
    hide Block, Encode;
    assert [r][1..] == [] && EncodeAll([]) == [] && Encode(r) + [] == Encode(r);
    assert EncodeAll([r]) == Encode(r);
    BlockBehind([r], t, c);
  }

  /** A raw value of 1 to 126 bytes behind the index of its name, to be put into the table. */
  lemma Added(i: nat, value: Text, t: seq<byte>, c: Config)
    requires 1 <= i < 63 && HasIndex(c.table.entries, i) && 1 <= |value| <= 126
    requires |AtIndex(c.table.entries, i).name| + |value| + 32 <= c.table.limit
    ensures var e := Entry(AtIndex(c.table.entries, i).name, value);
            && Block([64 + i, |value|] + value + t, c)
               == Block(t, Config(c.table.After(Step.Add(e)), c.headers + [e]))
  {
    hide Block, AtIndex, HasIndex, Encode;
    var r := LiteralHeader(Incremental, NameAt(i), Str(false, value));
    OneRepresentation(r, t, c);
    AddedBytes(i, value);
  }

  lemma AddedBytes(i: nat, value: Text)
    requires i < 63 && |value| <= 126
    ensures Encode(LiteralHeader(Incremental, NameAt(i), Str(false, value))) == [64 + i, |value|] + value
  {
    assert [64 + i] + ([|value|] + value) == [64 + i, |value|] + value;
  }

  /** The same with a new name. */
  lemma AddedNew(name: Text, value: Text, t: seq<byte>, c: Config)
    requires 1 <= |name| <= 126 && 1 <= |value| <= 126 && |name| + |value| + 32 <= c.table.limit
    ensures Block([64, |name|] + name + [|value|] + value + t, c)
         == Block(t, Config(c.table.After(Step.Add(Entry(name, value))), c.headers + [Entry(name, value)]))
  {
    hide Block, Encode;
    var r := LiteralHeader(Incremental, NewName(Str(false, name)), Str(false, value));
    OneRepresentation(r, t, c);
    AddedNewBytes(name, value);
  }

  lemma AddedNewBytes(name: Text, value: Text)
    requires |name| <= 126 && |value| <= 126
    ensures Encode(LiteralHeader(Incremental, NewName(Str(false, name)), Str(false, value)))
         == [64, |name|] + name + [|value|] + value
  {
    assert [64] + ([|name|] + name) + ([|value|] + value) == [64, |name|] + name + [|value|] + value;
  }

  // ---- the entries that the examples use

  function Header(name: string, value: string): Entry {
    Entry(Octets(name), Octets(value))
  }

  lemma StaticEntries(dynamic: seq<Entry>)
    ensures AtIndex(dynamic, 1) == Header(":authority", "") && AtIndex(dynamic, 2) == Header(":method", "GET")
    ensures AtIndex(dynamic, 4) == Header(":path", "/") && AtIndex(dynamic, 5) == Header(":path", "/index.html")
    ensures AtIndex(dynamic, 6) == Header(":scheme", "http") && AtIndex(dynamic, 7) == Header(":scheme", "https")
    ensures AtIndex(dynamic, 8).name == Octets(":status") && AtIndex(dynamic, 24) == Header("cache-control", "")
    ensures AtIndex(dynamic, 33) == Header("date", "") && AtIndex(dynamic, 46) == Header("location", "")
  {
  }

  /** An entry that fits together with all others pushes nothing out. */
  lemma RoomForAll(t: State, e: Entry)
    requires |e.name| + |e.value| + 32 + Bytes(t.entries) <= t.limit
    ensures t.After(Step.Add(e)) == State(t.limit, [e] + t.entries)
  {
    FitStep(t.entries, t.limit - EntrySize(e));
  }

  const AUTHORITY := Header(":authority", "www.example.com")
  const NO_CACHE := Header("cache-control", "no-cache")
  const CUSTOM := Header("custom-key", "custom-value")

  /** Appendix C.3.1. */
  lemma FirstRequest()
    ensures Block([0x82, 0x86, 0x84, 0x41, 0x0f] + Octets("www.example.com"), Config(State(4096, []), []))
         == BlockRead(
              Accept,
              Config(
                State(4096, [AUTHORITY]),
                [Header(":method", "GET"), Header(":scheme", "http"), Header(":path", "/"), AUTHORITY]))
  {
    hide Block, AtIndex, Octets;
    var c0, v := Config(State(4096, []), []), Octets("www.example.com");
    StaticEntries([]);
    OctetLengths();
    var t1: seq<byte> := [0x86, 0x84, 0x41, 0x0f] + v;
    var t2: seq<byte> := [0x84, 0x41, 0x0f] + v;
    var t3: seq<byte> := [0x41, 0x0f] + v;
    assert [0x82, 0x86, 0x84, 0x41, 0x0f] + v == [0x82] + t1 && t1 == [0x86] + t2 && t2 == [0x84] + t3 && t3 == t3 + [];
    Behind(2, t1, c0);
    var c1 := c0.With(Header(":method", "GET"));
    Behind(6, t2, c1);
    var c2 := c1.With(Header(":scheme", "http"));
    Behind(4, t3, c2);
    var c3 := c2.With(Header(":path", "/"));
    Added(1, v, [], c3);
    SizeBySection41(AUTHORITY, []);
    RoomForAll(c3.table, AUTHORITY);
    NothingMore(Config(State(4096, [AUTHORITY] + []), c3.headers + [AUTHORITY]));
  }

  /** Appendix C.3.2, behind the first request. */
  lemma SecondRequest()
    ensures Block([0x82, 0x86, 0x84, 0xbe, 0x58, 0x08] + Octets("no-cache"), Config(State(4096, [AUTHORITY]), []))
         == BlockRead(
              Accept,
              Config(
                State(4096, [NO_CACHE, AUTHORITY]),
                [Header(":method", "GET"), Header(":scheme", "http"), Header(":path", "/"), AUTHORITY, NO_CACHE]))
  {
    hide Block, AtIndex, Octets;
    var c0, v := Config(State(4096, [AUTHORITY]), []), Octets("no-cache");
    StaticEntries([AUTHORITY]);
    FirstDynamic(AUTHORITY, []);
    OctetLengths();
    var t1: seq<byte> := [0x86, 0x84, 0xbe, 0x58, 0x08] + v;
    var t2: seq<byte> := [0x84, 0xbe, 0x58, 0x08] + v;
    var t3: seq<byte> := [0xbe, 0x58, 0x08] + v;
    var t4: seq<byte> := [0x58, 0x08] + v;
    assert [0x82, 0x86, 0x84, 0xbe, 0x58, 0x08] + v == [0x82] + t1 && t1 == [0x86] + t2 && t2 == [0x84] + t3;
    assert t3 == [0xbe] + t4 && t4 == t4 + [] && [AUTHORITY] + [] == [AUTHORITY];
    Behind(2, t1, c0);
    var c1 := c0.With(Header(":method", "GET"));
    Behind(6, t2, c1);
    var c2 := c1.With(Header(":scheme", "http"));
    Behind(4, t3, c2);
    var c3 := c2.With(Header(":path", "/"));
    Behind(62, t4, c3);
    var c4 := c3.With(AUTHORITY);
    Added(24, v, [], c4);
    SizeBySection41(AUTHORITY, []);
    RoomForAll(c4.table, NO_CACHE);
    NothingMore(Config(State(4096, [NO_CACHE] + [AUTHORITY]), c4.headers + [NO_CACHE]));
  }

  /** Appendix C.3.3, behind the second. */
  lemma ThirdRequest()
    ensures Block(
              [0x82, 0x87, 0x85, 0xbf, 0x40, 0x0a] + Octets("custom-key") + [0x0c] + Octets("custom-value"),
              Config(State(4096, [NO_CACHE, AUTHORITY]), []))
         == BlockRead(
              Accept,
              Config(
                State(4096, [CUSTOM, NO_CACHE, AUTHORITY]),
                [Header(":method", "GET"), Header(":scheme", "https"), Header(":path", "/index.html"), AUTHORITY,
                 CUSTOM]))
  {
    hide Block, AtIndex, Octets;
    var d := [NO_CACHE, AUTHORITY];
    var c0, k, v := Config(State(4096, d), []), Octets("custom-key"), Octets("custom-value");
    StaticEntries(d);
    SecondDynamic(NO_CACHE, AUTHORITY, []);
    OctetLengths();
    var t1: seq<byte> := [0x87, 0x85, 0xbf, 0x40, 0x0a] + k + [0x0c] + v;
    var t2: seq<byte> := [0x85, 0xbf, 0x40, 0x0a] + k + [0x0c] + v;
    var t3: seq<byte> := [0xbf, 0x40, 0x0a] + k + [0x0c] + v;
    var t4: seq<byte> := [0x40, 0x0a] + k + [0x0c] + v;
    assert [0x82, 0x87, 0x85, 0xbf, 0x40, 0x0a] + k + [0x0c] + v == [0x82] + t1 && t1 == [0x87] + t2;
    assert t2 == [0x85] + t3 && t3 == [0xbf] + t4 && t4 == t4 + [];
    Behind(2, t1, c0);
    var c1 := c0.With(Header(":method", "GET"));
    Behind(7, t2, c1);
    var c2 := c1.With(Header(":scheme", "https"));
    Behind(5, t3, c2);
    var c3 := c2.With(Header(":path", "/index.html"));
    Behind(63, t4, c3);
    var c4 := c3.With(AUTHORITY);
    AddedNew(k, v, [], c4);
    SizeBySection41(AUTHORITY, []);
    SizeBySection41(NO_CACHE, [AUTHORITY]);
    RoomForAll(c4.table, CUSTOM);
    NothingMore(Config(State(4096, [CUSTOM] + d), c4.headers + [CUSTOM]));
  }

  lemma FirstDynamic(a: Entry, rest: seq<Entry>)
    ensures HasIndex([a] + rest, 62) && AtIndex([a] + rest, 62) == a
  {
  }

  lemma SecondDynamic(a: Entry, b: Entry, rest: seq<Entry>)
    ensures HasIndex([a, b] + rest, 63) && AtIndex([a, b] + rest, 63) == b && [a, b] + [] == [a, b]
  {
  }

  const FOUND := Header(":status", "302")
  const PRIVATE := Header("cache-control", "private")
  const DATE := Header("date", "Mon, 21 Oct 2013 20:13:21 GMT")
  const LOCATION := Header("location", "https://www.example.com")

  /** Appendix C.5.1: a table of 256 bytes of which 222 are used. */
  lemma FirstResponse()
    ensures Block(
              [0x48, 0x03] + Octets("302") + ([0x58, 0x07] + Octets("private")
              + ([0x61, 0x1d] + Octets("Mon, 21 Oct 2013 20:13:21 GMT")
              + ([0x6e, 0x17] + Octets("https://www.example.com")))),
              Config(State(256, []), []))
         == BlockRead(
              Accept,
              Config(State(256, [LOCATION, DATE, PRIVATE, FOUND]), [FOUND, PRIVATE, DATE, LOCATION]))
  {
    hide Block, AtIndex, Octets;
    var l := Octets("https://www.example.com");
    var t3: seq<byte> := [0x6e, 0x17] + l;
    var t2: seq<byte> := [0x61, 0x1d] + Octets("Mon, 21 Oct 2013 20:13:21 GMT") + t3;
    var t1: seq<byte> := [0x58, 0x07] + Octets("private") + t2;
    OctetLengths();
    SizeBySection41(FOUND, []);
    SizeBySection41(PRIVATE, [FOUND]);
    SizeBySection41(DATE, [PRIVATE, FOUND]);
    assert [FOUND] + [] == [FOUND] && [PRIVATE] + [FOUND] == [PRIVATE, FOUND];
    assert [DATE] + [PRIVATE, FOUND] == [DATE, PRIVATE, FOUND] && t3 == t3 + [];
    var c0 := Config(State(256, []), []);
    StaticEntries([]);
    Added(8, Octets("302"), t1, c0);
    RoomForAll(c0.table, FOUND);
    var c1 := Config(State(256, [FOUND]), [] + [FOUND]);
    StaticEntries([FOUND]);
    Added(24, Octets("private"), t2, c1);
    RoomForAll(c1.table, PRIVATE);
    var c2 := Config(State(256, [PRIVATE, FOUND]), c1.headers + [PRIVATE]);
    StaticEntries([PRIVATE, FOUND]);
    Added(33, Octets("Mon, 21 Oct 2013 20:13:21 GMT"), t3, c2);
    RoomForAll(c2.table, DATE);
    var c3 := Config(State(256, [DATE, PRIVATE, FOUND]), c2.headers + [DATE]);
    StaticEntries([DATE, PRIVATE, FOUND]);
    Added(46, l, [], c3);
    RoomForAll(c3.table, LOCATION);
    NothingMore(Config(State(256, [LOCATION] + [DATE, PRIVATE, FOUND]), c3.headers + [LOCATION]));
  }

  const MOVED := Header(":status", "307")

  /** Appendix C.5.2: the new status pushes out the first one. */
  lemma SecondResponse()
    ensures Block(
              [0x48, 0x03] + Octets("307") + [0xc1, 0xc0, 0xbf],
              Config(State(256, [LOCATION, DATE, PRIVATE, FOUND]), []))
         == BlockRead(
              Accept,
              Config(State(256, [MOVED, LOCATION, DATE, PRIVATE]), [MOVED, PRIVATE, DATE, LOCATION]))
  {
    hide Block, Octets, AtIndex, Bytes, Fit;
    var d, e := [LOCATION, DATE, PRIVATE, FOUND], [MOVED, LOCATION, DATE, PRIVATE];
    var c0, c1 := Config(State(256, d), []), Config(State(256, e), [] + [MOVED]);
    OctetLengths();
    StaticEntries(d);
    Added(8, Octets("307"), [0xc1, 0xc0, 0xbf], c0);
    OnePushedOut();
    LaterDynamic(MOVED, LOCATION, DATE, PRIVATE);
    assert [0xc1, 0xc0, 0xbf] == [0xc1] + [0xc0, 0xbf] && [0xc0, 0xbf] == [0xc0] + [0xbf] && [0xbf] == [0xbf] + [];
    Behind(65, [0xc0, 0xbf], c1);
    Behind(64, [0xbf], c1.With(PRIVATE));
    Behind(63, [], c1.With(PRIVATE).With(DATE));
    NothingMore(c1.With(PRIVATE).With(DATE).With(LOCATION));
  }

  lemma LaterDynamic(a: Entry, b: Entry, c: Entry, d: Entry)
    ensures HasIndex([a, b, c, d], 65) && AtIndex([a, b, c, d], 63) == b
    ensures AtIndex([a, b, c, d], 64) == c && AtIndex([a, b, c, d], 65) == d
  {
  }

  lemma OnePushedOut()
    ensures State(256, [LOCATION, DATE, PRIVATE, FOUND]).After(Step.Add(MOVED))
         == State(256, [MOVED, LOCATION, DATE, PRIVATE])
  {
    hide Octets, Bytes, Fit;
    var d := [LOCATION, DATE, PRIVATE, FOUND];
    OctetLengths();
    Sizes();
    assert d[..|d| - 1] == [LOCATION, DATE, PRIVATE];
    FitStep(d, 214);
    FitStep(d[..|d| - 1], 214);
    assert [MOVED] + [LOCATION, DATE, PRIVATE] == [MOVED, LOCATION, DATE, PRIVATE];
  }

  lemma Sizes()
    ensures Bytes([LOCATION, DATE, PRIVATE]) == 180 && Bytes([LOCATION, DATE, PRIVATE, FOUND]) == 222
  {
    hide Octets, Bytes;
    OctetLengths();
    SizeBySection41(PRIVATE, []);
    SizeBySection41(DATE, [PRIVATE]);
    SizeBySection41(LOCATION, [DATE, PRIVATE]);
    SizeBySection41(FOUND, []);
    SizeBySection41(PRIVATE, [FOUND]);
    SizeBySection41(DATE, [PRIVATE, FOUND]);
    SizeBySection41(LOCATION, [DATE, PRIVATE, FOUND]);
    assert [PRIVATE] + [] == [PRIVATE] && [DATE] + [PRIVATE] == [DATE, PRIVATE];
    assert [LOCATION] + [DATE, PRIVATE] == [LOCATION, DATE, PRIVATE] && [FOUND] + [] == [FOUND];
    assert [PRIVATE] + [FOUND] == [PRIVATE, FOUND] && [DATE] + [PRIVATE, FOUND] == [DATE, PRIVATE, FOUND];
    assert [LOCATION] + [DATE, PRIVATE, FOUND] == [LOCATION, DATE, PRIVATE, FOUND];
  }

  lemma NothingMore(c: Config)
    ensures Block([], c) == BlockRead(Accept, c)
  {
  }

  lemma OctetLengths()
    ensures |Octets("www.example.com")| == 15 && |Octets(":authority")| == 10
    ensures |Octets("cache-control")| == 13 && |Octets("no-cache")| == 8 && |Octets("private")| == 7
    ensures |Octets("custom-key")| == 10 && |Octets("custom-value")| == 12
    ensures |Octets(":status")| == 7 && |Octets("302")| == 3 && |Octets("307")| == 3
    ensures |Octets("date")| == 4 && |Octets("Mon, 21 Oct 2013 20:13:21 GMT")| == 29
    ensures |Octets("location")| == 8 && |Octets("https://www.example.com")| == 23
  {
  }
}
