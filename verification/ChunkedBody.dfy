/**
 The chunked transfer coding of RFC 7230 section 4.1: what a stream means to the reader, and what a body looks like.
 */
module ChunkedBody {
  import opened Bits
  import opened HttpTypes
  import opened BufferedReader
  import opened Strconv

  const SEMICOLON: byte := ';' as int
  const SIZE_LINE_LIMIT := 1024
  const TRAILER_LIMIT := 64 * 1024

  /** Where the reader is: before a size line, inside chunk data, after it, or behind the body. */
  datatype Stage = Length | Data | DataEol | Eof

  /** What is still to be delivered, and what follows the body if the stream goes on as a chunked body. */
  datatype Parse = Body(data: seq<byte>, rest: seq<byte>) | Malformed(data: seq<byte>)
  {
    function Prepend(s: seq<byte>): Parse {
      this.(data := s + data)
    }
  }

  /** The part of a size line before any chunk extension. */
  function SizeText(line: seq<byte>): (t: seq<byte>)
    ensures t <= line && SEMICOLON !in t && (t == line || line[|t|] == SEMICOLON)
  {
    if line == [] || line[0] == SEMICOLON then []
    else
      assert line == [line[0]] + line[1..];
      [line[0]] + SizeText(line[1..])
  }

  predicate SizeValid(line: seq<byte>) {
    Parses(SizeText(line), 16, UINT64_MAX)
  }

  function Size(line: seq<byte>): (n: nat)
    requires SizeValid(line)
    ensures n <= UINT64_MAX
  {
    assert SizeText(line)[..|SizeText(line)|] == SizeText(line);
    ValueMonotone(SizeText(line), 16, 0);
    Value(SizeText(line), 16)
  }

  /** A complete line comes next; in the strict reading it is also shorter than the limit. */
  predicate HasLine(strict: bool, s: seq<byte>, limit: nat) {
    LineEnd(s) < |s| && (strict ==> LineEnd(s) < limit)
  }

  function AfterLine(s: seq<byte>): (r: seq<byte>)
    ensures s == LineBytes(s) + r
    ensures LineEnd(s) < |s| ==> |r| < |s|
  {
    s[|LineBytes(s)|..]
  }

  function ParseTrailers(strict: bool, s: seq<byte>): Parse
    decreases |s|
  {
    if !HasLine(strict, s, TRAILER_LIMIT) then Malformed([])
    else if LineText(s) == [] then Body([], AfterLine(s))
    else ParseTrailers(strict, AfterLine(s))
  }

  /**
   The meaning of the stream s to a reader at the given stage with cur bytes of the chunk to come. The strict reading
   also asks for lines within the limits and for chunk data that ends with CR LF.
   */
  function ParseBody(strict: bool, stage: Stage, cur: nat, s: seq<byte>): Parse
    decreases |s|
  {
    match stage
    case Eof => Body([], s)
    case Length =>
      if !HasLine(strict, s, SIZE_LINE_LIMIT) || !SizeValid(LineText(s)) then Malformed([])
      else if Size(LineText(s)) == 0 then ParseTrailers(strict, AfterLine(s))
      else ParseBody(strict, Data, Size(LineText(s)), AfterLine(s))
    case Data =>
      if cur == 0 || |s| < cur then Malformed(s[..Min(cur, |s|)])
      else ParseBody(strict, DataEol, 0, s[cur..]).Prepend(s[..cur])
    case DataEol =>
      if !HasLine(strict, s, SIZE_LINE_LIMIT) || LineText(s) != [] || (strict && s[0] != CR) then Malformed([])
      else ParseBody(strict, Length, 0, AfterLine(s))
  }

  /** A body in the strict reading is the same body in the lax one. */
  lemma {:induction false} StrictIsLax(stage: Stage, cur: nat, s: seq<byte>)
    requires ParseBody(true, stage, cur, s).Body?
    ensures ParseBody(false, stage, cur, s) == ParseBody(true, stage, cur, s)
    decreases |s|
  {
    match stage
    case Eof =>
    case Length =>
      if Size(LineText(s)) == 0 {
        StrictTrailers(AfterLine(s));
      } else {
        StrictIsLax(Data, Size(LineText(s)), AfterLine(s));
      }
    case Data => StrictIsLax(DataEol, 0, s[cur..]);
    case DataEol => StrictIsLax(Length, 0, AfterLine(s));
  }

  lemma {:induction false} StrictTrailers(s: seq<byte>)
    requires ParseTrailers(true, s).Body?
    ensures ParseTrailers(false, s) == ParseTrailers(true, s)
    decreases |s|
  {
    if LineText(s) == [] {
    } else {
      StrictTrailers(AfterLine(s));
    }
  }

  /** Part of the data of a chunk may be delivered first. */
  lemma SplitData(strict: bool, cur: nat, s: seq<byte>, n: nat)
    requires 0 < n <= cur && n <= |s|
    ensures ParseBody(strict, Data, cur, s)
         == ParseBody(strict, if n == cur then DataEol else Data, cur - n, s[n..]).Prepend(s[..n])
  {
    if n < cur <= |s| {
      assert s[n..][cur - n..] == s[cur..];
      assert s[..cur] == s[..n] + s[n..][..cur - n];
      var p := ParseBody(strict, DataEol, 0, s[cur..]);
      assert s[..n] + (s[n..][..cur - n] + p.data) == s[..cur] + p.data;
    } else if |s| < cur {
      assert s[..|s|] == s && s[n..][..|s| - n] == s[n..] && s[..n] + s[n..] == s;
    } else {
      var p := ParseBody(strict, DataEol, 0, s[cur..]);
      assert s[cur..] == s[n..];
    }
  }

  lemma DataIsThere(s: seq<byte>, cur: nat)
    ensures ParseBody(true, Data, cur, s).Body? ==> s != []
  {
  }

  lemma Rest(s: seq<byte>, r: seq<byte>)
    requires s == LineBytes(s) + r
    ensures r == AfterLine(s)
  {
  }

  lemma BehindBody(strict: bool, cur: nat, s: seq<byte>)
    ensures ParseBody(strict, Stage.Eof, cur, s) == Body([], s)
  {
  }

  /** Reading the line end behind chunk data. */
  lemma EolStep(s: seq<byte>, cur: nat)
    requires s != [] && LineText(s) == []
    ensures |AfterLine(s)| < |s|
    ensures ParseBody(false, DataEol, cur, s) == ParseBody(false, Length, cur, AfterLine(s))
    ensures var p := ParseBody(true, DataEol, cur, s); p.Body? ==> p == ParseBody(true, Length, cur, AfterLine(s))
  {
    assert LineEnd(s) < |s|;
  }

  /** What a line end in the strict reading looks like to the buffered reader. */
  lemma StrictEol(s: seq<byte>, cur: nat)
    requires ParseBody(true, DataEol, cur, s).Body?
    ensures s != [] && s[0] == CR && LineText(s) == [] && HasLine(true, s, SIZE_LINE_LIMIT)
  {
  }

  /** Reading a size line that is not the last one. */
  lemma SizeStep(s: seq<byte>, cur: nat)
    requires s != [] && SizeValid(LineText(s)) && Size(LineText(s)) != 0
    ensures |AfterLine(s)| < |s|
    ensures ParseBody(false, Length, cur, s) == ParseBody(false, Data, Size(LineText(s)), AfterLine(s))
    ensures var p := ParseBody(true, Length, cur, s); p.Body? ==>
              p == ParseBody(true, Data, Size(LineText(s)), AfterLine(s))
  {
    hide LineText, SizeValid, Size;
    if LineEnd(s) == |s| {
      assert AfterLine(s) == [];
    }
  }

  /** Reading the last size line. */
  lemma LastStep(s: seq<byte>, cur: nat)
    requires s != [] && SizeValid(LineText(s)) && Size(LineText(s)) == 0
    ensures |AfterLine(s)| < |s|
    ensures ParseTrailers(false, AfterLine(s)).Body? ==>
              ParseBody(false, Length, cur, s) == ParseTrailers(false, AfterLine(s))
    ensures var p := ParseBody(true, Length, cur, s); p.Body? ==> p == ParseTrailers(true, AfterLine(s))
  {
    hide LineText, SizeValid, Size;
    if LineEnd(s) == |s| {
      assert AfterLine(s) == [];
    }
  }

  /** Reading a trailer line, or the blank line behind them. */
  lemma TrailerStep(s: seq<byte>)
    requires s != []
    ensures |AfterLine(s)| < |s|
    ensures ParseTrailers(false, s)
         == if LineText(s) == [] then Body([], AfterLine(s)) else ParseTrailers(false, AfterLine(s))
    ensures ParseTrailers(true, s).Body? ==>
              && HasLine(true, s, TRAILER_LIMIT)
              && ParseTrailers(true, s)
                 == if LineText(s) == [] then Body([], AfterLine(s)) else ParseTrailers(true, AfterLine(s))
  {
    if LineEnd(s) == |s| {
      assert AfterLine(s) == [];
    }
  }

  /** A stream that is over has no trailers. */
  lemma NoTrailers(s: seq<byte>)
    requires ParseTrailers(true, s).Body?
    ensures s != [] && HasLine(true, s, TRAILER_LIMIT)
  {
  }

  lemma StrictSize(s: seq<byte>, cur: nat)
    requires ParseBody(true, Length, cur, s).Body?
    ensures HasLine(true, s, SIZE_LINE_LIMIT) && SizeValid(LineText(s))
  {
  }

  lemma PrependTwice(p: Parse, a: seq<byte>, b: seq<byte>)
    ensures p.Prepend(b).Prepend(a) == p.Prepend(a + b)
  {
    assert a + (b + p.data) == a + b + p.data;
  }

  // ---- how a read ends

  /** Whether a read succeeds, meets a fault, or the end of the stream; Unsure is left to the fragments that arrive. */
  datatype Outlook = Fine | Fault | End | Unsure

  /** The trailers from s on. */
  function TrailersAhead(s: seq<byte>): Outlook
    decreases |s|
  {
    if s == [] then End
    else if LineEnd(s) >= TRAILER_LIMIT then Unsure
    else if LineText(s) == [] then Fine
    else
      Shorter(s);
      TrailersAhead(AfterLine(s))
  }

  /**
   What a read of need bytes comes to, at a stage with cur bytes of the chunk to come: lines that may be too long, and a
   bare line feed behind chunk data, which may be taken for a torn line end, are left open.
   */
  function Ahead(stage: Stage, cur: nat, s: seq<byte>, need: nat): Outlook
    decreases |s|, if stage == Data then 1 else 0
  {
    match stage
    case Eof => Fine
    case Length =>
      if need == 0 then Fine
      else if s == [] then End
      else if LineEnd(s) >= SIZE_LINE_LIMIT then Unsure
      else if !SizeValid(LineText(s)) then Fault
      else
        Shorter(s);
        if Size(LineText(s)) == 0 then TrailersAhead(AfterLine(s))
        else Ahead(Data, Size(LineText(s)), AfterLine(s), need)
    case Data =>
      if |s| < Min(cur, need) then End
      else if need < cur || cur == 0 then Fine
      else Ahead(DataEol, 0, s[cur..], need - cur)
    case DataEol =>
      if s == [] then End
      else if LineEnd(s) >= SIZE_LINE_LIMIT then Unsure
      else if LineText(s) != [] then Fault
      else if s[0] == LF then Unsure
      else
        Shorter(s);
        Ahead(Length, 0, AfterLine(s), need)
  }

  lemma Shorter(s: seq<byte>)
    requires s != []
    ensures |AfterLine(s)| < |s|
  {
    if LineEnd(s) == |s| {
      assert AfterLine(s) == [];
    }
  }

  /** The result of a read that has come to something; behind the body there may be nothing left to deliver. */
  predicate Answers(outlook: Outlook, err: HttpError, over: bool) {
    match outlook
    case Fine => err == Ok || (err == HttpError.Eof && over)
    case Fault => err == ClientError
    case End => err == HttpError.Eof && !over
    case Unsure => true
  }

  /** What one call, with its result, leaves of the outlook before it. */
  predicate Keeps(before: Outlook, after: Outlook, err: HttpError) {
    match err
    case Ok => before == Unsure || after == before
    case ClientError => before in {Unsure, Fault}
    case LineTooLong => before == Unsure
    case Eof => before in {Unsure, End}
  }

  lemma SizeAhead(cur: nat, s: seq<byte>, need: nat)
    requires need > 0
    ensures var a := Ahead(Length, cur, s, need);
            if s == [] then a == End
            else a == Unsure || (LineEnd(s) < SIZE_LINE_LIMIT && (SizeValid(LineText(s)) || a == Fault))
  {
    hide LineText, LineEnd, AfterLine, SizeValid, Size, TrailersAhead;
  }

  lemma EolAhead(cur: nat, s: seq<byte>, need: nat)
    ensures var a := Ahead(DataEol, cur, s, need);
            if s == [] then a == End
            else
              || a == Unsure
              || (&& LineEnd(s) < SIZE_LINE_LIMIT
                  && if LineText(s) != [] then a == Fault
                     else s[0] != LF && a == Ahead(Length, cur, AfterLine(s), need))
  {
    hide LineText, LineEnd, AfterLine, SizeValid, Size, TrailersAhead;
  }

  lemma NothingAhead(cur: nat, s: seq<byte>, need: nat)
    requires s == [] && cur > 0 && need > 0
    ensures Ahead(Data, cur, s, need) == End
  {
  }

  /** Part of the data of a chunk delivered first does not change the outlook. */
  lemma AheadPart(cur: nat, s: seq<byte>, need: nat, n: nat)
    requires 0 < n <= Min(cur, need) && n <= |s|
    ensures Ahead(Data, cur, s, need) == Ahead(if n == cur then DataEol else Data, cur - n, s[n..], need - n)
  {
    if n < cur <= |s| {
      assert s[n..][cur - n..] == s[cur..];
    }
  }

  // ---- bodies as they are written

  datatype Chunk = Chunk(line: seq<byte>, data: seq<byte>)

  /** Chunks, the size line of the last chunk, and trailer lines. */
  datatype Message = Message(chunks: seq<Chunk>, last: seq<byte>, trailers: seq<seq<byte>>)

  const CRLF: seq<byte> := [CR, LF]

  predicate WellFormedLine(line: seq<byte>, limit: nat) {
    LF !in line && |line| + 1 < limit
  }

  predicate WellFormedChunk(c: Chunk) {
    WellFormedLine(c.line, SIZE_LINE_LIMIT) && c.data != [] && SizeValid(c.line) && Size(c.line) == |c.data|
  }

  predicate WellFormed(m: Message) {
    && (forall i :: 0 <= i < |m.chunks| ==> WellFormedChunk(m.chunks[i]))
    && WellFormedLine(m.last, SIZE_LINE_LIMIT) && SizeValid(m.last) && Size(m.last) == 0
    && (forall i :: 0 <= i < |m.trailers| ==> WellFormedLine(m.trailers[i], TRAILER_LIMIT) && m.trailers[i] != [])
  }

  function TrailerBytes(trailers: seq<seq<byte>>): seq<byte> {
    if trailers == [] then CRLF else trailers[0] + CRLF + TrailerBytes(trailers[1..])
  }

  /** The octets of a chunked body. */
  function MessageBytes(m: Message): seq<byte>
    decreases |m.chunks|
  {
    if m.chunks == [] then m.last + CRLF + TrailerBytes(m.trailers)
    else
      var c := m.chunks[0];
      c.line + CRLF + (c.data + CRLF + MessageBytes(m.(chunks := m.chunks[1..])))
  }

  function MessageData(m: Message): seq<byte>
    decreases |m.chunks|
  {
    if m.chunks == [] then [] else m.chunks[0].data + MessageData(m.(chunks := m.chunks[1..]))
  }

  /** A line written with CR LF reads back as itself. */
  lemma WrittenLine(line: seq<byte>, rest: seq<byte>)
    requires LF !in line
    ensures var s := line + CRLF + rest;
            LineEnd(s) == |line| + 1 < |s| && LineText(s) == line && AfterLine(s) == rest
  {
    var s := line + CRLF + rest;
    assert s[..|line| + 1] == line + [CR];
    LineEndUnique(s, |line| + 1);
    assert s[..|line|] == line;
  }

  lemma {:induction false} WrittenTrailers(trailers: seq<seq<byte>>, rest: seq<byte>)
    requires forall i :: 0 <= i < |trailers| ==> WellFormedLine(trailers[i], TRAILER_LIMIT) && trailers[i] != []
    ensures ParseTrailers(true, TrailerBytes(trailers) + rest) == Body([], rest)
  {
    if trailers == [] {
      WrittenLine([], rest);
      assert [] + CRLF + rest == TrailerBytes(trailers) + rest;
    } else {
      var more := TrailerBytes(trailers[1..]) + rest;
      WrittenLine(trailers[0], more);
      assert TrailerBytes(trailers) + rest == trailers[0] + CRLF + more;
      WrittenTrailers(trailers[1..], rest);
    }
  }

  lemma WrittenEol(strict: bool, rest: seq<byte>)
    ensures ParseBody(strict, DataEol, 0, CRLF + rest) == ParseBody(strict, Length, 0, rest)
  {
    hide LineEnd, LineText, AfterLine;
    WrittenLine([], rest);
    assert [] + CRLF + rest == CRLF + rest;
  }

  lemma WrittenData(strict: bool, data: seq<byte>, rest: seq<byte>)
    requires data != []
    ensures ParseBody(strict, Data, |data|, data + CRLF + rest) == ParseBody(strict, Length, 0, rest).Prepend(data)
  {
    var s := data + CRLF + rest;
    assert s[..|data|] == data && s[|data|..] == CRLF + rest;
    WrittenEol(strict, rest);
  }

  lemma WrittenChunk(strict: bool, c: Chunk, rest: seq<byte>)
    requires WellFormedChunk(c)
    ensures ParseBody(strict, Length, 0, c.line + CRLF + (c.data + CRLF + rest))
         == ParseBody(strict, Length, 0, rest).Prepend(c.data)
  {
    hide LineEnd, LineText, AfterLine, SizeValid, Size;
    WrittenLine(c.line, c.data + CRLF + rest);
    WrittenData(strict, c.data, rest);
  }

  /** Every well-formed body, whatever its extensions and trailers, parses to its data and leaves what follows it. */
  lemma {:induction false} WrittenMessage(m: Message, rest: seq<byte>)
    requires WellFormed(m)
    ensures ParseBody(true, Length, 0, MessageBytes(m) + rest) == Body(MessageData(m), rest)
    decreases |m.chunks|
  {
    hide LineEnd, LineText, AfterLine, SizeValid, Size;
    if m.chunks == [] {
      var more := TrailerBytes(m.trailers) + rest;
      WrittenLine(m.last, more);
      assert MessageBytes(m) + rest == m.last + CRLF + more;
      WrittenTrailers(m.trailers, rest);
    } else {
      hide ParseBody;
      var c, tail := m.chunks[0], m.(chunks := m.chunks[1..]);
      var after := MessageBytes(tail) + rest;
      assert MessageBytes(m) + rest == c.line + CRLF + (c.data + CRLF + after);
      WrittenChunk(true, c, after);
      WrittenMessage(tail, rest);
    }
  }
}
