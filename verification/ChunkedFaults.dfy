/** How reads of streams end that are not chunked bodies, or not whole ones, in terms of their bytes. */
module ChunkedFaults {
  import opened Bits
  import opened HttpTypes
  import opened BufferedReader
  import opened ChunkedBody
  import opened Strconv
  import ChunkedReader
  import ChunkedWriter

  /** The octets of some chunks. */
  function ChunkBytes(chunks: seq<Chunk>): seq<byte> {
    if chunks == [] then []
    else chunks[0].line + CRLF + (chunks[0].data + CRLF + ChunkBytes(chunks[1..]))
  }

  function ChunkData(chunks: seq<Chunk>): seq<byte> {
    if chunks == [] then [] else chunks[0].data + ChunkData(chunks[1..])
  }

  /** A body in the strict reading has nothing in it for a read to stumble over. */
  lemma {:induction false} StrictIsFine(stage: Stage, cur: nat, s: seq<byte>, need: nat)
    requires ParseBody(true, stage, cur, s).Body?
    ensures Ahead(stage, cur, s, need) == Fine
    decreases |s|
  {
    hide LineText, LineEnd, AfterLine, SizeValid, Size;
    match stage
    case Eof =>
    case Length =>
      if need > 0 {
        StrictSize(s, cur);
        Shorter(s);
        if Size(LineText(s)) == 0 {
          StrictTrailersFine(AfterLine(s));
        } else {
          StrictIsFine(Data, Size(LineText(s)), AfterLine(s), need);
        }
      }
    case Data =>
      if need >= cur { StrictIsFine(DataEol, 0, s[cur..], need - cur); }
    case DataEol =>
      StrictEol(s, cur);
      Shorter(s);
      StrictIsFine(Length, 0, AfterLine(s), need);
  }

  lemma {:induction false} StrictTrailersFine(s: seq<byte>)
    requires ParseTrailers(true, s).Body?
    ensures TrailersAhead(s) == Fine
    decreases |s|
  {
    hide LineText, LineEnd, AfterLine;
    NoTrailers(s);
    Shorter(s);
    if LineText(s) == [] {
    } else {
      StrictTrailersFine(AfterLine(s));
    }
  }

  /** One chunk is read as far as the read goes; what comes behind it counts for the rest. */
  lemma OneChunk(c: Chunk, tail: seq<byte>, need: nat)
    requires WellFormedChunk(c) && need > 0
    ensures Ahead(Length, 0, c.line + CRLF + (c.data + CRLF + tail), need)
         == if need < |c.data| then Fine else Ahead(Length, 0, tail, need - |c.data|)
  {
    hide LineText, LineEnd, AfterLine, SizeValid, Size;
    WrittenLine(c.line, c.data + CRLF + tail);
    DataOfChunk(c.data, tail, need);
  }

  lemma DataOfChunk(data: seq<byte>, tail: seq<byte>, need: nat)
    requires data != []
    ensures Ahead(Data, |data|, data + CRLF + tail, need)
         == if need < |data| then Fine else Ahead(Length, 0, tail, need - |data|)
  {
    hide LineText, LineEnd, AfterLine, SizeValid, Size;
    assert (data + CRLF + tail)[|data|..] == CRLF + tail;
    WrittenLine([], tail);
    assert [] + CRLF + tail == CRLF + tail;
  }

  /** Chunks are read as far as the read goes; what comes behind them counts for the rest. */
  lemma {:induction false} BehindChunks(chunks: seq<Chunk>, tail: seq<byte>, need: nat)
    requires forall i :: 0 <= i < |chunks| ==> WellFormedChunk(chunks[i])
    ensures Ahead(Length, 0, ChunkBytes(chunks) + tail, need)
         == if need <= |ChunkData(chunks)| then Fine else Ahead(Length, 0, tail, need - |ChunkData(chunks)|)
  {
    hide Ahead, WellFormedChunk;
    NoNeed(ChunkBytes(chunks) + tail);
    NoNeed(tail);
    if chunks == [] {
      assert ChunkBytes(chunks) + tail == tail;
    } else if need > 0 {
      var c, more := chunks[0], ChunkBytes(chunks[1..]) + tail;
      assert ChunkBytes(chunks) + tail == c.line + CRLF + (c.data + CRLF + more);
      OneChunk(c, more, need);
      if need >= |c.data| { BehindChunks(chunks[1..], tail, need - |c.data|); }
    }
  }

  lemma NoNeed(s: seq<byte>)
    ensures Ahead(Length, 0, s, 0) == Fine
  {
  }

  /** A line that is not a size is a fault of the client, */
  lemma BadSize(line: seq<byte>, rest: seq<byte>, need: nat)
    requires LF !in line && |line| + 1 < 1024 && !SizeValid(line) && need > 0
    ensures Ahead(Length, 0, line + CRLF + rest, need) == Fault
  {
    hide LineText, LineEnd, AfterLine, SizeValid, Size;
    WrittenLine(line, rest);
  }

  /** and so is anything but a line end behind the data of a chunk. */
  lemma BadEol(data: seq<byte>, line: seq<byte>, rest: seq<byte>, need: nat)
    requires LF !in line && 0 < |line| && |line| + 1 < 1024 && 0 < |data| <= need
    ensures Ahead(Data, |data|, data + (line + CRLF + rest), need) == Fault
  {
    hide LineText, LineEnd, AfterLine, SizeValid, Size;
    WrittenLine(line, rest);
    assert (data + (line + CRLF + rest))[|data|..] == line + CRLF + rest;
  }

  /** A stream that is over before a size line, in the data that a read needs, or before a line end, is cut short. */
  lemma CutShort(cur: nat, s: seq<byte>, need: nat)
    requires need > 0
    ensures Ahead(Length, cur, [], need) == Ahead(DataEol, cur, [], need) == TrailersAhead([]) == End
    ensures |s| < cur && |s| < need ==> Ahead(Data, cur, s, need) == End
  {
  }

  function TrailerLines(lines: seq<seq<byte>>): seq<byte> {
    if lines == [] then [] else lines[0] + CRLF + TrailerLines(lines[1..])
  }

  /** Trailers without a blank line behind them are cut short too. */
  lemma {:induction false} CutTrailers(lines: seq<seq<byte>>)
    requires forall i :: 0 <= i < |lines| ==> lines[i] != [] && LF !in lines[i] && |lines[i]| + 1 < 0x1_0000
    ensures TrailersAhead(TrailerLines(lines)) == End
  {
    hide LineText, LineEnd, AfterLine;
    if lines == [] {
    } else {
      WrittenLine(lines[0], TrailerLines(lines[1..]));
      CutTrailers(lines[1..]);
    }
  }

  /** Chunks before a line that is not a size are not a body in any reading. */
  lemma {:induction false} NoBody(chunks: seq<Chunk>, line: seq<byte>, rest: seq<byte>)
    requires forall i :: 0 <= i < |chunks| ==> WellFormedChunk(chunks[i])
    requires LF !in line && !SizeValid(line)
    ensures ParseBody(false, Length, 0, ChunkBytes(chunks) + (line + CRLF + rest)) == Malformed(ChunkData(chunks))
  {
    hide LineText, LineEnd, AfterLine, SizeValid, Size, WellFormedChunk;
    if chunks == [] {
      assert ChunkBytes(chunks) + (line + CRLF + rest) == line + CRLF + rest;
      WrittenLine(line, rest);
    } else {
      hide ParseBody;
      var c, more := chunks[0], ChunkBytes(chunks[1..]) + (line + CRLF + rest);
      assert ChunkBytes(chunks) + (line + CRLF + rest) == c.line + CRLF + (c.data + CRLF + more);
      WrittenChunk(false, c, more);
      NoBody(chunks[1..], line, rest);
    }
  }

  /** Any chunks, then a line that is not a size: what comes before it can be read, and any more is refused. */
  method ReadToBadSize(chunks: seq<Chunk>, line: seq<byte>, rest: seq<byte>, initialBufferSize: uint32, len: uint32)
      returns (got: seq<byte>, err: HttpError)
    requires forall i :: 0 <= i < |chunks| ==> WellFormedChunk(chunks[i])
    requires LF !in line && |line| + 1 < 1024 && !SizeValid(line) && initialBufferSize > 0 && len > 0
    ensures err == if len <= |ChunkData(chunks)| then Ok else ClientError
    ensures if len <= |ChunkData(chunks)| then got == ChunkData(chunks)[..len] else got == []
  {
    hide ParseBody, Ahead, LineText, LineEnd, SizeValid, ChunkBytes, ChunkData, WellFormedChunk;
    hide BufferedReader.Stream, BufferedReader.Window, BufferedReader.Torn;
    var octets := ChunkBytes(chunks) + (line + CRLF + rest);
    var reader := ChunkedWriter.Connect(octets, initialBufferSize);
    BehindChunks(chunks, line + CRLF + rest, len);
    NoBody(chunks, line, rest);
    if len > |ChunkData(chunks)| { BadSize(line, rest, len - |ChunkData(chunks)|); }
    var dest := new byte[len];
    var n;
    n, err := reader.Read(dest, 0, len);
    if err == Ok {
      if reader.stage == Stage.Eof { reader.AtEnd(); }
      assert ChunkData(chunks) == dest[0..0 + n] + reader.Remaining(false).data;
    }
    got := dest[..n];
  }
}
