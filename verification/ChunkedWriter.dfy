/** The writer of chunked bodies, and the round trip through a reader. */
module ChunkedWriter {
  import opened Bits
  import opened HttpTypes
  import opened ChunkedBody
  import opened Strconv
  import StrconvPrinters
  import BufferedReader
  import ChunkedReader

  const LAST_SIZE: seq<byte> := ['0' as int]

  /** The octets of one write: nothing for an empty one, since an empty chunk would end the body. */
  function Frame(data: seq<byte>): seq<byte> {
    if data == [] then [] else UnsignedText(|data|, 16) + CRLF + data + CRLF
  }

  function Frames(writes: seq<seq<byte>>): seq<byte> {
    if writes == [] then [] else Frames(writes[..|writes| - 1]) + Frame(writes[|writes| - 1])
  }

  function Concat(writes: seq<seq<byte>>): seq<byte> {
    if writes == [] then [] else writes[0] + Concat(writes[1..])
  }

  const TERMINATOR: seq<byte> := LAST_SIZE + CRLF + CRLF

  /** The message that a list of writes makes: one chunk without extension for each write that is not empty. */
  function ChunksOf(writes: seq<seq<byte>>): seq<Chunk> {
    if writes == [] then []
    else if writes[0] == [] then ChunksOf(writes[1..])
    else [Chunk(UnsignedText(|writes[0]|, 16), writes[0])] + ChunksOf(writes[1..])
  }

  function MessageOf(writes: seq<seq<byte>>): Message {
    Message(ChunksOf(writes), LAST_SIZE, [])
  }

  /** The octets of a write and of the end, spelled out: a size in upper-case hexadecimal, CR LF, the data, CR LF. */
  lemma OctetsExact(data: seq<byte>)
    ensures Frame([]) == [] && TERMINATOR == [48, 13, 10, 13, 10]
    ensures data != [] ==> Frame(data) == UnsignedText(|data|, 16) + [13, 10] + data + [13, 10]
    ensures Frame([7, 8]) == [50, 13, 10, 7, 8, 13, 10]
  {
    hide RadixText;
    TwoInHex();
    assert LAST_SIZE + CRLF + CRLF == [48, 13, 10, 13, 10];
    assert [50] + CRLF + [7, 8] + CRLF == [50, 13, 10, 7, 8, 13, 10];
  }

  lemma TwoInHex()
    ensures UnsignedText(2, 16) == [50]
  {
    assert RadixText(0, 16) == [] && [] + [ValueAsChar(2)] == [50];
  }

  // ---- what is written is a well-formed body

  /** A size line reads back as the size. */
  lemma SizeLine(text: seq<byte>, n: nat)
    requires AllDigits(text, 16) && Value(text, 16) == n <= UINT64_MAX && text != []
    ensures SizeText(text) == text && LF !in text && SizeValid(text) && Size(text) == n
  {
    forall i | 0 <= i < |text|
      ensures text[i] != LF && text[i] != SEMICOLON
    {
      assert IsDigit(text[i], 16);
    }
  }

  lemma WrittenSize(n: nat)
    requires 0 < n <= UINT32_MAX
    ensures var line := UnsignedText(n, 16); WellFormedLine(line, SIZE_LINE_LIMIT) && SizeValid(line) && Size(line) == n
  {
    TextValue(n, 16);
    StrconvPrinters.WidthPow2(W32);
    StrconvPrinters.RadixLength(n, 16, 32);
    SizeLine(UnsignedText(n, 16), n);
  }

  lemma LastSize()
    ensures WellFormedLine(LAST_SIZE, SIZE_LINE_LIMIT) && SizeValid(LAST_SIZE) && Size(LAST_SIZE) == 0
  {
    assert LAST_SIZE[..0] == [];
    SizeLine(LAST_SIZE, 0);
  }

  predicate Writable(writes: seq<seq<byte>>) {
    forall i :: 0 <= i < |writes| ==> |writes[i]| <= UINT32_MAX
  }

  lemma {:induction false} MessageIsWellFormed(writes: seq<seq<byte>>)
    requires Writable(writes)
    ensures WellFormed(MessageOf(writes))
  {
    hide SizeValid, Size, UnsignedText, WellFormedLine;
    LastSize();
    if writes == [] {
    } else {
      MessageIsWellFormed(writes[1..]);
      if writes[0] != [] { WrittenSize(|writes[0]|); }
    }
  }

  lemma {:induction false} FramesCons(writes: seq<seq<byte>>)
    requires writes != []
    ensures Frames(writes) == Frame(writes[0]) + Frames(writes[1..])
  {
    hide Frame;
    if |writes| == 1 {
      assert writes[..0] == [] && writes[1..] == [];
      assert Frames([]) == [];
      assert [] + Frame(writes[0]) == Frame(writes[0]) == Frame(writes[0]) + [];
    } else {
      var m, z := writes[..|writes| - 1], writes[|writes| - 1];
      FramesCons(m);
      assert writes[1..][..|writes| - 2] == m[1..];
      Assoc(Frame(m[0]), Frames(m[1..]), Frame(z));
    }
  }

  lemma {:induction false} MessageIsFrames(writes: seq<seq<byte>>)
    ensures MessageBytes(MessageOf(writes)) == Frames(writes) + TERMINATOR
    ensures MessageData(MessageOf(writes)) == Concat(writes)
  {
    hide UnsignedText;
    if writes == [] {
      assert LAST_SIZE + CRLF + CRLF == [] + TERMINATOR;
    } else {
      var w, tail := writes[0], MessageOf(writes[1..]);
      MessageIsFrames(writes[1..]);
      FramesCons(writes);
      Assoc(Frame(w), Frames(writes[1..]), TERMINATOR);
      if w == [] {
        assert MessageOf(writes) == tail;
        assert [] + MessageBytes(tail) == MessageBytes(tail);
        assert [] + Concat(writes[1..]) == Concat(writes[1..]);
      } else {
        var m, line := MessageOf(writes), UnsignedText(|w|, 16);
        assert m.chunks[0] == Chunk(line, w) && m.chunks[1..] == tail.chunks;
        assert m.(chunks := m.chunks[1..]) == tail;
        Regroup(line, w, MessageBytes(tail));
      }
    }
  }

  lemma Regroup(line: seq<byte>, w: seq<byte>, rest: seq<byte>)
    ensures line + CRLF + (w + CRLF + rest) == line + CRLF + w + CRLF + rest
  {
  }

  /** Every list of writes, closed, is a body that delivers their concatenation and ends before whatever follows. */
  lemma WrittenBody(writes: seq<seq<byte>>, rest: seq<byte>)
    requires Writable(writes)
    ensures ParseBody(true, Length, 0, Frames(writes) + TERMINATOR + rest) == Body(Concat(writes), rest)
  {
    hide WellFormed, MessageBytes, MessageData, ParseBody;
    MessageIsWellFormed(writes);
    MessageIsFrames(writes);
    WrittenMessage(MessageOf(writes), rest);
  }

  // ---- the writer

  /** Where the octets go. */
  class StreamSink {
    var written: seq<byte>

    constructor ()
      ensures written == []
    {
      written := [];
    }

    method Writev(a: seq<byte>, b: seq<byte>, c: seq<byte>, d: seq<byte>) returns (err: HttpError)
      modifies this
      ensures err == Ok && written == old(written) + (a + b + c + d)
    {
      written := written + (a + b + c + d);
      return Ok;
    }

    method Write(a: seq<byte>) returns (err: HttpError)
      modifies this
      ensures err == Ok && written == old(written) + a
    {
      written := written + a;
      return Ok;
    }
  }

  class ChunkedWriter {
    const streamSource: StreamSink
    var closed: bool

    constructor (streamSource: StreamSink)
      ensures this.streamSource == streamSource && !closed
    {
      this.streamSource := streamSource;
      closed := false;
    }

    method Write(buffer: seq<byte>) returns (err: HttpError)
      requires |buffer| <= UINT32_MAX
      modifies streamSource
      ensures err == Ok && streamSource.written == old(streamSource.written) + Frame(buffer)
    {
      if |buffer| == 0 {
        assert old(streamSource.written) + [] == old(streamSource.written);
        return Ok;
      }
      hide UnsignedText;
      var lengthBuffer := new byte[32];
      var hexLen := StrconvPrinters.PrintUnsigned(W32, |buffer|, 16, lengthBuffer);
      ghost var text := UnsignedText(|buffer|, 16);
      TextFits(|buffer|);
      assert lengthBuffer[..hexLen] == text by {
        assert text[..hexLen] == text;
        assert lengthBuffer[0..0 + hexLen] == text;
      }
      err := streamSource.Writev(lengthBuffer[..hexLen], CRLF, buffer, CRLF);
    }

    method Close() returns (err: HttpError)
      modifies this, streamSource
      ensures err == Ok && closed
      ensures streamSource.written == old(streamSource.written) + (if old(closed) then [] else TERMINATOR)
    {
      if closed {
        assert old(streamSource.written) + [] == old(streamSource.written);
        return Ok;
      }
      closed := true;
      err := streamSource.Write(TERMINATOR);
    }
  }

  /** The 32 characters for the size suffice. */
  lemma TextFits(n: nat)
    requires 0 < n <= UINT32_MAX
    ensures |UnsignedText(n, 16)| <= 32
  {
    StrconvPrinters.WidthPow2(W32);
    StrconvPrinters.RadixLength(n, 16, 32);
  }

  // ---- the round trip

  /** Writes, closes once or more often, and gives the octets that went out. */
  method WriteAll(writes: seq<seq<byte>>, closes: nat) returns (octets: seq<byte>)
    requires Writable(writes) && closes >= 1
    ensures octets == Frames(writes) + TERMINATOR
  {
    hide Frame;
    var sink := new StreamSink();
    var writer := new ChunkedWriter(sink);
    for i := 0 to |writes|
      invariant sink.written == Frames(writes[..i]) && !writer.closed && writer.streamSource == sink
    {
      assert writes[..i + 1][..i] == writes[..i];
      var _ := writer.Write(writes[i]);
    }
    assert writes[..|writes|] == writes;
    for i := 0 to closes
      invariant sink.written == Frames(writes) + (if i == 0 then [] else TERMINATOR)
      invariant (writer.closed <==> i > 0) && writer.streamSource == sink
    {
      var _ := writer.Close();
    }
    return sink.written;
  }

  function Sum(sizes: seq<uint32>): (n: nat) {
    if sizes == [] then 0 else Sum(sizes[..|sizes| - 1]) + sizes[|sizes| - 1]
  }

  /** A reader of all that was written, and of what follows it. */
  method Connect(octets: seq<byte>, initialBufferSize: uint32) returns (reader: ChunkedReader.ChunkedReader)
    ensures reader.Valid() && reader.stage == Length && reader.curLength == 0 && reader.bufReader.Valid()
    ensures fresh(reader) && fresh(reader.bufReader) && fresh(reader.bufReader.socket) && fresh(reader.bufReader.buffer)
    ensures reader.bufReader.Stream() == octets && reader.bufReader.bufferLen == initialBufferSize
    ensures initialBufferSize > 0 ==> reader.Remaining(true) == ParseBody(true, Length, 0, octets)
  {
    hide ParseBody;
    var source := new StreamSource(octets);
    var buffered := new BufferedReader.BufferedReader(source, initialBufferSize);
    reader := new ChunkedReader.ChunkedReader(buffered);
  }

  /**
   Writes, any close calls, any fragmentation, any initial buffer size but 0 and any read sizes: the reads deliver the
   data in order and then Eof, and as soon as a read comes up short the octets behind the body, and no others, are left.
   With a buffer of 0 bytes, which never grows, nothing is delivered and nothing is taken.
   */
  method Transfer(writes: seq<seq<byte>>, closes: nat, rest: seq<byte>, initialBufferSize: uint32, sizes: seq<uint32>)
    returns (delivered: seq<byte>, err: HttpError, left: seq<byte>)
    requires Writable(writes) && closes >= 1
    requires forall i :: 0 <= i < |sizes| ==> sizes[i] > 0
    ensures initialBufferSize > 0 ==>
              && delivered == Concat(writes)[..Min(Sum(sizes), |Concat(writes)|)]
              && (err == Ok || (err == HttpError.Eof && delivered == Concat(writes)))
              && (Sum(sizes) > |Concat(writes)| ==> left == rest)
              && (sizes != [] && Sum(sizes) - sizes[|sizes| - 1] >= |Concat(writes)| ==> err == HttpError.Eof)
    ensures initialBufferSize == 0 ==>
              && delivered == [] && left == Frames(writes) + TERMINATOR + rest
              && err == if sizes == [] then Ok else HttpError.Eof
  {
    hide ParseBody, Frame, Concat, Received;
    var octets := WriteAll(writes, closes);
    var reader := Connect(octets + rest, initialBufferSize);
    WrittenBody(writes, rest);
    if initialBufferSize > 0 {
      delivered, err := ReadParts(reader, sizes, Concat(writes), rest);
      AllReceived(Concat(writes), sizes, delivered, err, reader.stage == Stage.Eof);
    } else {
      delivered, err := ReadStarved(reader, sizes);
    }
    var buffered := reader.bufReader;
    left := buffered.buffer[buffered.startIndex..buffered.endIndex] + buffered.socket.remaining;
    if reader.stage == Stage.Eof { reader.AtEnd(); }
  }

  /** What the first i reads have delivered of the data, and whether they have shown its end. */
  ghost predicate Received(
      data: seq<byte>, sizes: seq<uint32>, i: nat, delivered: seq<byte>, err: HttpError, ended: bool)
    requires i <= |sizes|
  {
    && |delivered| == Min(Sum(sizes[..i]), |data|) && delivered == data[..|delivered|]
    && (Sum(sizes[..i]) > |data| ==> ended)
    && (err == Ok || (err == HttpError.Eof && delivered == data))
    && (i > 0 && Sum(sizes[..i - 1]) >= |data| ==> err == HttpError.Eof)
  }

  lemma NothingReceived(data: seq<byte>, sizes: seq<uint32>)
    ensures Received(data, sizes, 0, [], Ok, false)
  {
    assert sizes[..0] == [] && data[..0] == [];
  }

  lemma ReceivedMore(
      data: seq<byte>, sizes: seq<uint32>, i: nat, delivered: seq<byte>, part: seq<byte>,
      err0: HttpError, err: HttpError, ended0: bool, ended: bool)
    requires i < |sizes| && sizes[i] > 0 && Received(data, sizes, i, delivered, err0, ended0)
    requires var r := data[|delivered|..];
             && |part| == Min(sizes[i], |r|) && part == r[..|part|]
             && err == (if r == [] then HttpError.Eof else Ok) && (|part| < sizes[i] ==> ended)
    ensures Received(data, sizes, i + 1, delivered + part, err, ended)
    ensures |delivered + part| <= |data| && data[|delivered + part|..] == data[|delivered|..][|part|..]
  {
    SumSnoc(sizes, i);
    NextPart(data, |delivered|, |part|);
    if data[|delivered|..] == [] {
      assert part == [] && delivered + part == delivered == data;
    }
  }

  lemma AllReceived(data: seq<byte>, sizes: seq<uint32>, delivered: seq<byte>, err: HttpError, ended: bool)
    requires Received(data, sizes, |sizes|, delivered, err, ended)
    ensures delivered == data[..Min(Sum(sizes), |data|)] && (Sum(sizes) > |data| ==> ended)
    ensures err == Ok || (err == HttpError.Eof && delivered == data)
    ensures sizes != [] && Sum(sizes) - sizes[|sizes| - 1] >= |data| ==> err == HttpError.Eof
  {
    assert sizes[..|sizes|] == sizes;
    if sizes != [] { SumSnoc(sizes, |sizes| - 1); }
  }

  /** Reads of the given sizes, one after another. */
  method ReadParts(
      reader: ChunkedReader.ChunkedReader, sizes: seq<uint32>, ghost data: seq<byte>, ghost rest: seq<byte>)
      returns (delivered: seq<byte>, err: HttpError)
    requires reader.Valid() && reader.bufReader.Valid() && reader.Remaining(true) == Body(data, rest)
    requires forall i :: 0 <= i < |sizes| ==> sizes[i] > 0
    modifies reader, reader.bufReader, reader.bufReader.socket, reader.bufReader.buffer
    ensures reader.Valid() && reader.bufReader.Valid()
    ensures Received(data, sizes, |sizes|, delivered, err, reader.stage == Stage.Eof)
    ensures |delivered| <= |data| && reader.Remaining(true) == Body(data[|delivered|..], rest)
  {
    hide ParseBody, Received, Sum, ChunkedReader.ChunkedReader.Remaining, ChunkedReader.ChunkedReader.Valid;
    ghost var buffered, ended := reader.bufReader, false;
    delivered, err := [], Ok;
    NothingReceived(data, sizes);
    assert data[0..] == data;
    for i := 0 to |sizes|
      invariant reader.Valid() && buffered.Valid()
      invariant (buffered.buffer == old(buffered.buffer) || fresh(buffered.buffer))
      invariant Received(data, sizes, i, delivered, err, ended) && (ended ==> reader.stage == Stage.Eof)
      invariant |delivered| <= |data| && reader.Remaining(true) == Body(data[|delivered|..], rest)
    {
      var part, e := ReadPart(reader, sizes[i], data[|delivered|..], rest);
      ReceivedMore(data, sizes, i, delivered, part, err, e, ended, reader.stage == Stage.Eof);
      ended := reader.stage == Stage.Eof;
      delivered, err := delivered + part, e;
    }
    Ended(data, sizes, delivered, err, ended, reader.stage == Stage.Eof);
  }

  lemma Ended(data: seq<byte>, sizes: seq<uint32>, delivered: seq<byte>, err: HttpError, ended: bool, more: bool)
    requires Received(data, sizes, |sizes|, delivered, err, ended) && (ended ==> more)
    ensures Received(data, sizes, |sizes|, delivered, err, more)
  {
  }

  /** One read of the expected body into a buffer of its own. */
  method ReadPart(reader: ChunkedReader.ChunkedReader, size: uint32, ghost data: seq<byte>, ghost rest: seq<byte>)
    returns (part: seq<byte>, err: HttpError)
    requires reader.Valid() && size > 0 && reader.Remaining(true) == Body(data, rest)
    modifies reader, reader.bufReader, reader.bufReader.socket, reader.bufReader.buffer
    ensures reader.Valid() && reader.bufReader.Valid()
    ensures reader.bufReader.buffer == old(reader.bufReader.buffer) || fresh(reader.bufReader.buffer)
    ensures |part| == Min(size, |data|) && part == data[..|part|]
    ensures reader.Remaining(true) == Body(data[|part|..], rest)
    ensures err == if data == [] then HttpError.Eof else Ok
    ensures |part| < size ==> reader.stage == Stage.Eof
  {
    var dest := new byte[size];
    var n, e := reader.Read(dest, 0, size);
    return dest[..n], e;
  }

  /** The same through a buffer of no bytes. */
  method ReadStarved(reader: ChunkedReader.ChunkedReader, sizes: seq<uint32>)
      returns (delivered: seq<byte>, err: HttpError)
    requires reader.Valid() && reader.bufReader.Valid() && reader.stage == Length && reader.bufReader.bufferLen == 0
    requires forall i :: 0 <= i < |sizes| ==> sizes[i] > 0
    modifies reader, reader.bufReader, reader.bufReader.socket, reader.bufReader.buffer
    ensures reader.bufReader.Valid() && reader.bufReader.Stream() == old(reader.bufReader.Stream())
    ensures reader.stage == Length
    ensures delivered == [] && err == if sizes == [] then Ok else HttpError.Eof
  {
    ghost var buffered := reader.bufReader;
    delivered, err := [], Ok;
    for i := 0 to |sizes|
      invariant buffered.Valid() && (buffered.buffer == old(buffered.buffer) || fresh(buffered.buffer))
      invariant reader.Valid() && reader.stage == Length && buffered.bufferLen == 0
      invariant buffered.Stream() == old(buffered.Stream())
      invariant delivered == [] && err == if i == 0 then Ok else HttpError.Eof
    {
      var dest := new byte[sizes[i]];
      var n;
      n, err := reader.Read(dest, 0, sizes[i]);
      delivered := delivered + dest[..n];
    }
  }

  /**
   Closing a reader of a body of which nothing has been read yet: Eof instead of Ok exactly for a multiple of
   1024 bytes.
   */
  method CloseUnread(writes: seq<seq<byte>>, rest: seq<byte>, initialBufferSize: uint32)
      returns (err: HttpError, left: seq<byte>)
    requires Writable(writes) && initialBufferSize > 0
    ensures left == rest && err == if |Concat(writes)| % 1024 != 0 then Ok else HttpError.Eof
  {
    hide ParseBody, Frame, Concat;
    var octets := WriteAll(writes, 1);
    var reader := Connect(octets + rest, initialBufferSize);
    WrittenBody(writes, rest);
    err := reader.Close();
    var buffered := reader.bufReader;
    left := buffered.buffer[buffered.startIndex..buffered.endIndex] + buffered.socket.remaining;
  }

  lemma SumSnoc(sizes: seq<uint32>, i: nat)
    requires i < |sizes|
    ensures Sum(sizes[..i + 1]) == Sum(sizes[..i]) + sizes[i]
  {
    assert sizes[..i + 1][..i] == sizes[..i];
  }

  lemma NextPart(data: seq<byte>, k: nat, n: nat)
    requires k <= |data| && n <= |data| - k
    ensures data[k..][n..] == data[k + n..] && data[..k] + data[k..][..n] == data[..k + n]
  {
  }
}
