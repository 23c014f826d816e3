/** Calls that bring a reader into the states in which its answers are not what was meant. */
module ReaderCases {
  import opened Bits
  import opened HttpTypes
  import opened ChunkedWriter
  import BufferedReader

  method NewReader(data: seq<byte>, initialBufferSize: uint32) returns (reader: BufferedReader.BufferedReader)
    ensures fresh(reader) && fresh(reader.socket) && fresh(reader.buffer) && reader.Valid()
    ensures reader.Stream() == data && reader.bufferLen == initialBufferSize
    ensures reader.startIndex == reader.endIndex == 0
  {
    var source := new StreamSource(data);
    reader := new BufferedReader.BufferedReader(source, initialBufferSize);
  }

  /** Looking ahead at a line end and reading its first byte tears it. */
  method Tear(rest: seq<byte>, initialBufferSize: uint32) returns (reader: BufferedReader.BufferedReader)
    ensures fresh(reader) && fresh(reader.socket) && fresh(reader.buffer) && reader.Valid() && reader.Torn()
  {
    hide BufferedReader.LineText, BufferedReader.LineBytes, BufferedReader.Capacity;
    reader := NewReader([CR, LF] + rest, initialBufferSize);
    var same, e := reader.PeekMatch([CR, LF]);
    assert reader.Window()[..2] == [CR, LF];
    assert reader.Window()[0] == CR && reader.Window()[1] == LF;
    var dest := new byte[1];
    var n, e1 := reader.Read(dest, 0, 1);
  }

  /** The length of the next line is then 2^32 - 1. */
  method TornLine(rest: seq<byte>, initialBufferSize: uint32, maxLength: uint32) returns (torn: bool, lineLen: uint32)
    ensures torn && lineLen == UINT32_MAX
  {
    hide BufferedReader.LineText, BufferedReader.LineBytes, BufferedReader.Capacity;
    var reader := Tear(rest, initialBufferSize);
    torn := reader.Torn();
    var lineStart, e;
    lineStart, lineLen, e := reader.ReadLine(maxLength);
  }

  /** Reading exactly what a look ahead has left in the window makes it stale; then discard drops too much. */
  method StaleDiscard(data: seq<byte>, n: uint32) returns (stale: bool, err: HttpError, ghost left: int)
    requires |data| > n + 1 && n < UINT32_MAX
    ensures stale && (err == Ok || err == Eof) && !(err == Ok && left == |data| - 1 - n)
    ensures err == Eof ==> left == 0
  {
    var reader := NewReader(data, 1);
    var same, e := reader.PeekMatch(data[..1]);
    assert same;
    var dest := new byte[1];
    var k, e1 := reader.Read(dest, 0, 1);
    stale := reader.Stale();
    assert |reader.Stream()| == |data| - 1;
    err := reader.Discard(n);
    left := reader.Left();
  }

  /** A window of one byte off the front passes for two expected bytes, although the stream ends behind it. */
  method PeekTooFar(a: byte, b: byte, c: byte, x: byte) returns (same: bool, err: HttpError)
    ensures same && err == Ok
  {
    var reader := NewReader([a, b, c], 8);
    var s0, e0 := reader.PeekMatch([a, b, c]);
    var dest := new byte[2];
    var n, e1 := reader.Read(dest, 0, 2);
    assert reader.Window() == [c];
    same, err := reader.PeekMatch([c, x]);
    assert reader.Stream() == [c];
  }

  /** Closing an unread body without data reports its end as an error. */
  method CloseEmpty(rest: seq<byte>, initialBufferSize: uint32) returns (err: HttpError)
    requires initialBufferSize > 0
    ensures err == Eof
  {
    var left;
    err, left := CloseUnread([], rest, initialBufferSize);
  }
}
