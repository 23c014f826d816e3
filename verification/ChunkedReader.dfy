/** The reader of chunked bodies: a state machine on top of the buffered reader. */
module ChunkedReader {
  import opened Bits
  import opened HttpTypes
  import opened BufferedReader
  import opened ChunkedBody
  import Strconv

  class ChunkedReader {
    const bufReader: BufferedReader
    var curLength: nat
    var stage: Stage

    ghost predicate Valid()
      reads this, bufReader, bufReader.socket, bufReader.buffer
    {
      && bufReader.Valid()
      && (stage == Data ==> 0 < curLength <= Strconv.UINT64_MAX)
      && (stage == Length ==> !bufReader.Torn())
    }

    /** What a reader of the stream may still expect; no line can be read through a buffer of no bytes. */
    ghost function Remaining(strict: bool): Parse
      reads this, bufReader, bufReader.socket, bufReader.buffer
      requires bufReader.Valid()
    {
      if strict && bufReader.bufferLen == 0 && stage != Stage.Eof then Malformed([])
      else ParseBody(strict, stage, curLength, bufReader.Stream())
    }

    /** What a read of need bytes comes to, unless the buffer has no bytes. */
    ghost function Expects(need: nat): Outlook
      reads this, bufReader, bufReader.socket, bufReader.buffer
      requires bufReader.Valid()
    {
      if bufReader.bufferLen == 0 then Unsure else Ahead(stage, curLength, bufReader.Stream(), need)
    }

    /** A call that found the end of the stream has left nothing of it. */
    ghost predicate Ended(err: HttpError)
      reads this, bufReader, bufReader.socket, bufReader.buffer
      requires bufReader.Valid()
    {
      err == HttpError.Eof ==> bufReader.Stream() == [] || bufReader.bufferLen == 0
    }

    /** The buffer has not become smaller, and one of no bytes stays so. */
    predicate Grows(len: uint32)
      reads bufReader
    {
      bufReader.bufferLen >= len && (len == 0 ==> bufReader.bufferLen == 0)
    }

    constructor (bufReader: BufferedReader)
      requires bufReader.Valid() && !bufReader.Torn()
      ensures Valid() && this.bufReader == bufReader && stage == Length && curLength == 0
      ensures bufReader.bufferLen > 0 ==> Remaining(true) == ParseBody(true, Length, 0, bufReader.Stream())
      ensures Remaining(false) == ParseBody(false, Length, 0, bufReader.Stream())
    {
      this.bufReader := bufReader;
      curLength, stage := 0, Length;
    }

    /** Reads a line whose text the caller looks at before anything else happens to the buffer. */
    method NextLine(limit: uint32) returns (line: seq<byte>, err: HttpError)
      requires bufReader.Valid() && !bufReader.Torn() && limit + 2 <= UINT32_MAX
      modifies bufReader, bufReader.socket, bufReader.buffer
      ensures bufReader.Valid() && (bufReader.buffer == old(bufReader.buffer) || fresh(bufReader.buffer))
      ensures bufReader.origin == old(bufReader.origin) && Grows(old(bufReader.bufferLen))
      ensures err == Ok ==> old(bufReader.Stream()) != [] && !bufReader.Torn()
      ensures err == Ok ==>
                bufReader.Stream() == AfterLine(old(bufReader.Stream())) && line == LineText(old(bufReader.Stream()))
      ensures |line| <= UINT32_MAX
      ensures HasLine(true, old(bufReader.Stream()), limit) && bufReader.bufferLen > 0 ==> err == Ok
      ensures bufReader.bufferLen == 0 < limit ==> err == HttpError.Eof && bufReader.Stream() == old(bufReader.Stream())
      ensures err != ClientError && Ended(err) && (err != Ok ==> bufReader.Stream() == old(bufReader.Stream()))
      ensures err == LineTooLong && bufReader.bufferLen > 0 ==> LineEnd(old(bufReader.Stream())) >= limit
    {
      ghost var s := bufReader.Stream();
      var start, len, e := bufReader.ReadLine(limit);
      if e == Ok {
        line := bufReader.buffer[start..start + len];
        assert s == LineBytes(s) + bufReader.Stream();
      } else {
        line := [];
      }
      return line, e;
    }

    /** Skips trailer lines up to the blank line. */
    method SkipTrailers() returns (err: HttpError)
      requires bufReader.Valid() && !bufReader.Torn()
      modifies this, bufReader, bufReader.socket, bufReader.buffer
      ensures bufReader.Valid() && (bufReader.buffer == old(bufReader.buffer) || fresh(bufReader.buffer))
      ensures bufReader.origin == old(bufReader.origin) && Grows(old(bufReader.bufferLen))
      ensures err == Ok ==>
                stage == Stage.Eof && ParseTrailers(false, old(bufReader.Stream())) == Body([], bufReader.Stream())
      ensures var p := ParseTrailers(true, old(bufReader.Stream()));
              p.Body? && bufReader.bufferLen > 0 ==> err == Ok && p == Body([], bufReader.Stream())
      ensures err == Ok ==> |bufReader.Stream()| <= |old(bufReader.Stream())|
      ensures curLength == old(curLength) && (err != Ok ==> stage == old(stage))
      ensures err != ClientError && Ended(err)
      ensures bufReader.bufferLen > 0 ==> Keeps(TrailersAhead(old(bufReader.Stream())), Fine, err)
    {
      hide ParseTrailers, LineText, AfterLine, LineEnd, Skipping, TrailersAhead, Keeps;
      hide BufferedReader.Stream, BufferedReader.Window, BufferedReader.Torn;
      ghost var s := bufReader.Stream();
      SkippingStarts(s);
      while true
        invariant bufReader.Valid() && Skipping(s)
        invariant (bufReader.buffer == old(bufReader.buffer) || fresh(bufReader.buffer))
        invariant Grows(old(bufReader.bufferLen)) && bufReader.origin == old(bufReader.origin)
        invariant curLength == old(curLength) && stage == old(stage)
        decreases |bufReader.Stream()|
      {
        var done;
        done, err := TrailerRound(s);
        if done || err != Ok {
          return;
        }
      }
    }

    /** Trailer lines of s have been skipped, which does not change what s means. */
    ghost predicate Skipping(s: seq<byte>)
      reads this, bufReader, bufReader.socket, bufReader.buffer
    {
      && bufReader.Valid() && !bufReader.Torn() && |bufReader.Stream()| <= |s|
      && ParseTrailers(false, bufReader.Stream()) == ParseTrailers(false, s)
      && (ParseTrailers(true, s).Body? ==> ParseTrailers(true, bufReader.Stream()) == ParseTrailers(true, s))
      && (bufReader.bufferLen > 0 ==>
            TrailersAhead(s) == Unsure || TrailersAhead(bufReader.Stream()) == TrailersAhead(s))
    }

    lemma SkippingStarts(s: seq<byte>)
      requires bufReader.Valid() && !bufReader.Torn() && s == bufReader.Stream()
      ensures Skipping(s)
    {
    }

    /** Reads one trailer line. */
    method TrailerRound(ghost s: seq<byte>) returns (done: bool, err: HttpError)
      requires Skipping(s)
      modifies this, bufReader, bufReader.socket, bufReader.buffer
      ensures bufReader.Valid() && (bufReader.buffer == old(bufReader.buffer) || fresh(bufReader.buffer))
      ensures bufReader.origin == old(bufReader.origin) && Grows(old(bufReader.bufferLen))
      ensures curLength == old(curLength)
      ensures err == Ok && !done ==>
                && Skipping(s) && stage == old(stage) && |bufReader.Stream()| < |old(bufReader.Stream())|
      ensures err == Ok && done ==>
                && stage == Stage.Eof && |bufReader.Stream()| <= |s|
                && ParseTrailers(false, s) == Body([], bufReader.Stream())
                && (ParseTrailers(true, s).Body? ==> ParseTrailers(true, s) == Body([], bufReader.Stream()))
      ensures err != Ok ==> stage == old(stage) && (bufReader.bufferLen > 0 ==> !ParseTrailers(true, s).Body?)
      ensures err != ClientError && Ended(err)
      ensures bufReader.bufferLen > 0 && (done || err != Ok) ==> Keeps(TrailersAhead(s), Fine, err)
    {
      hide ParseTrailers, LineText, AfterLine, LineEnd;
      hide BufferedReader.Stream, BufferedReader.Window, BufferedReader.Torn;
      ghost var t := bufReader.Stream();
      if ParseTrailers(true, t).Body? { NoTrailers(t); }
      if t != [] { TrailerStep(t); }
      var line, e := NextLine(TRAILER_LIMIT);
      if e == Ok && |line| == 0 {
        stage := Stage.Eof;
        return true, Ok;
      }
      return false, e;
    }

    /** Goes on behind the size line that s began with: into the chunk, or past the trailers. */
    method EnterChunk(size: nat, ghost s: seq<byte>, ghost need: nat) returns (err: HttpError)
      requires bufReader.Valid() && !bufReader.Torn() && stage == Length && size <= Strconv.UINT64_MAX
      requires s != [] && SizeValid(LineText(s)) && size == Size(LineText(s)) && bufReader.Stream() == AfterLine(s)
      modifies this, bufReader, bufReader.socket, bufReader.buffer
      ensures bufReader.Valid() && (bufReader.buffer == old(bufReader.buffer) || fresh(bufReader.buffer))
      ensures bufReader.origin == old(bufReader.origin) && Grows(old(bufReader.bufferLen))
      ensures err == Ok ==>
                && Valid() && stage in {Data, Stage.Eof} && |bufReader.Stream()| < |s|
                && Remaining(false) == ParseBody(false, Length, old(curLength), s)
      ensures var p := ParseBody(true, Length, old(curLength), s);
              p.Body? && bufReader.bufferLen > 0 ==> err == Ok && Remaining(true) == p
      ensures err != Ok ==> stage == Length
      ensures err != ClientError && Ended(err)
      ensures bufReader.bufferLen > 0 && need > 0 ==>
                Keeps(Ahead(Length, old(curLength), s, need), Expects(need), err)
    {
      hide ParseBody, ParseTrailers, LineText, AfterLine, LineEnd, HasLine, SizeValid, Size, TrailersAhead;
      hide BufferedReader.Stream, BufferedReader.Window, BufferedReader.Torn;
      ghost var cur := curLength;
      curLength := size;
      if curLength == 0 {
        LastStep(s, cur);
        err := SkipTrailers();
        BehindBody(false, curLength, bufReader.Stream());
        BehindBody(true, curLength, bufReader.Stream());
      } else {
        SizeStep(s, cur);
        stage := Data;
        err := Ok;
      }
    }

    /** Reads a size line, and after a size of zero the trailers. */
    method ReadSize(ghost need: nat) returns (err: HttpError)
      requires Valid() && stage == Length
      modifies this, bufReader, bufReader.socket, bufReader.buffer
      ensures bufReader.Valid() && (bufReader.buffer == old(bufReader.buffer) || fresh(bufReader.buffer))
      ensures bufReader.origin == old(bufReader.origin) && Grows(old(bufReader.bufferLen))
      ensures err == Ok ==> Valid() && stage in {Data, Stage.Eof} && Remaining(false) == old(Remaining(false))
      ensures err == Ok ==> |bufReader.Stream()| < |old(bufReader.Stream())|
      ensures old(Remaining(true)).Body? ==> err == Ok && Remaining(true) == old(Remaining(true))
      ensures err != Ok ==> stage == Length
      ensures bufReader.bufferLen == 0 ==> err == HttpError.Eof && bufReader.Stream() == old(bufReader.Stream())
      ensures Ended(err) && (need > 0 ==> Keeps(old(Expects(need)), Expects(need), err))
      ensures var s := old(bufReader.Stream());
              bufReader.bufferLen > 0 && s != [] && LineEnd(s) < SIZE_LINE_LIMIT && !SizeValid(LineText(s)) ==>
                err == ClientError
    {
      hide ParseBody, ParseTrailers, LineText, AfterLine, LineEnd, HasLine, SizeValid, Size, Ahead;
      hide BufferedReader.Stream, BufferedReader.Window, BufferedReader.Torn;
      ghost var s, cur := bufReader.Stream(), curLength;
      if need > 0 { SizeAhead(cur, s, need); }
      if ParseBody(true, Length, cur, s).Body? { StrictSize(s, cur); }
      var line, e := NextLine(SIZE_LINE_LIMIT);
      if e != Ok {
        return e;
      }
      var size, parseSuccess := ParseSize(line);
      if !parseSuccess {
        curLength := 0;
        return ClientError;
      }
      err := EnterChunk(size, s, need);
    }

    /** Delivers chunk data that is there. */
    method ReadData(dest: array<byte>, off: nat, len: uint32) returns (n: uint32, err: HttpError)
      requires Valid() && stage == Data && 0 < len && off + len <= dest.Length && dest != bufReader.buffer
      modifies this, bufReader, bufReader.socket, bufReader.buffer, dest
      ensures bufReader.Valid() && bufReader.buffer == old(bufReader.buffer)
      ensures bufReader.origin == old(bufReader.origin)
      ensures Grows(old(bufReader.bufferLen))
      ensures n <= len && dest[..off] == old(dest[..off]) && dest[off + n..] == old(dest[off + n..])
      ensures err == Ok ==> Valid() && stage in {Data, DataEol} && |bufReader.Stream()| < |old(bufReader.Stream())|
      ensures err == Ok ==> old(Remaining(false)) == Remaining(false).Prepend(dest[off..off + n])
      ensures var p := old(Remaining(true)); p.Body? ==> err == Ok && p == Remaining(true).Prepend(dest[off..off + n])
      ensures err != Ok ==> stage != Stage.Eof
      ensures err in {Ok, HttpError.Eof} && Ended(err) && Keeps(old(Expects(len)), Expects(len - n), err)
    {
      hide ParseBody, Parse.Prepend, Ahead, BufferedReader.Stream, BufferedReader.Window, BufferedReader.Torn;
      ghost var s, cur := bufReader.Stream(), curLength;
      DataIsThere(s, cur);
      if s == [] { NothingAhead(cur, s, len); }
      var bytesReadable := Min(curLength, len);
      n, err := bufReader.Read(dest, off, bytesReadable);
      if err != Ok {
        return;
      }
      PartDelivered(s, cur, dest[off..off + n], bufReader.Stream(), len);
      curLength := curLength - n;
      if curLength == 0 {
        stage := DataEol;
      }
    }

    /** Reads a line of which only the length matters; behind a torn line end the length is not 0. */
    method NextLineLength() returns (len: uint32, err: HttpError)
      requires bufReader.Valid()
      modifies bufReader, bufReader.socket, bufReader.buffer
      ensures bufReader.Valid() && (bufReader.buffer == old(bufReader.buffer) || fresh(bufReader.buffer))
      ensures bufReader.origin == old(bufReader.origin) && Grows(old(bufReader.bufferLen))
      ensures err == Ok ==> old(bufReader.Stream()) != [] && !bufReader.Torn()
      ensures err == Ok ==> bufReader.Stream() == AfterLine(old(bufReader.Stream()))
      ensures err == Ok && len == 0 ==> LineText(old(bufReader.Stream())) == []
      ensures err == Ok && old(bufReader.Stream())[0] != LF && LineText(old(bufReader.Stream())) == [] ==> len == 0
      ensures HasLine(true, old(bufReader.Stream()), SIZE_LINE_LIMIT) && bufReader.bufferLen > 0 ==> err == Ok
      ensures err != ClientError && Ended(err) && (err != Ok ==> bufReader.Stream() == old(bufReader.Stream()))
      ensures err == LineTooLong && bufReader.bufferLen > 0 ==> LineEnd(old(bufReader.Stream())) >= SIZE_LINE_LIMIT
    {
      hide LineText, LineEnd;
      ghost var s := bufReader.Stream();
      NotTornBeforeCr();
      var start;
      start, len, err := bufReader.ReadLine(SIZE_LINE_LIMIT);
      if err == Ok {
        Rest(s, bufReader.Stream());
      }
    }

    /** Reads the line end behind chunk data. */
    method ReadEol(ghost need: nat) returns (err: HttpError)
      requires Valid() && stage == DataEol
      modifies this, bufReader, bufReader.socket, bufReader.buffer
      ensures bufReader.Valid() && (bufReader.buffer == old(bufReader.buffer) || fresh(bufReader.buffer))
      ensures bufReader.origin == old(bufReader.origin) && Grows(old(bufReader.bufferLen))
      ensures err == Ok ==> Valid() && stage == Length && Remaining(false) == old(Remaining(false))
      ensures err == Ok ==> |bufReader.Stream()| < |old(bufReader.Stream())|
      ensures old(Remaining(true)).Body? ==> err == Ok && Remaining(true) == old(Remaining(true))
      ensures err != Ok ==> stage == DataEol
      ensures Ended(err) && Keeps(old(Expects(need)), Expects(need), err)
      ensures var s := old(bufReader.Stream());
              bufReader.bufferLen > 0 && s != [] && LineEnd(s) < SIZE_LINE_LIMIT && LineText(s) != [] ==>
                err == ClientError
    {
      hide ParseBody, ParseTrailers, LineText, AfterLine, LineEnd, HasLine, Ahead;
      hide BufferedReader.Stream, BufferedReader.Window, BufferedReader.Torn;
      ghost var s, cur := bufReader.Stream(), curLength;
      if ParseBody(true, DataEol, cur, s).Body? { StrictEol(s, cur); }
      EolAhead(cur, s, need);
      var len, e := NextLineLength();
      if e != Ok {
        return e;
      }
      if len > 0 {
        return ClientError;
      }
      EolStep(s, cur);
      stage := Length;
      return Ok;
    }

    lemma NotTornBeforeCr()
      requires bufReader.Valid()
      ensures bufReader.Torn() ==> bufReader.Stream()[0] == LF
    {
    }

    /** One round of the read loop. */
    method Step(dest: array<byte>, off: nat, len: uint32) returns (n: uint32, err: HttpError)
      requires Valid() && stage != Stage.Eof && 0 < len && off + len <= dest.Length && dest != bufReader.buffer
      modifies this, bufReader, bufReader.socket, bufReader.buffer, dest
      ensures bufReader.Valid() && (bufReader.buffer == old(bufReader.buffer) || fresh(bufReader.buffer))
      ensures bufReader.origin == old(bufReader.origin) && Grows(old(bufReader.bufferLen))
      ensures n <= len && dest[..off] == old(dest[..off]) && dest[off + n..] == old(dest[off + n..])
      ensures err == Ok ==>
                Valid() && |bufReader.Stream()| < |old(bufReader.Stream())| && (stage == Stage.Eof ==> n == 0)
      ensures err == Ok ==> old(Remaining(false)) == Remaining(false).Prepend(dest[off..off + n])
      ensures var p := old(Remaining(true)); p.Body? ==> err == Ok && p == Remaining(true).Prepend(dest[off..off + n])
      ensures err != Ok ==> stage != Stage.Eof
      ensures old(stage) == Length && bufReader.bufferLen == 0 ==>
                err == HttpError.Eof && stage == Length && bufReader.Stream() == old(bufReader.Stream())
      ensures (err == Ok ==> stage != DataEol) && Ended(err) && Keeps(old(Expects(len)), Expects(len - n), err)
      ensures var s := old(bufReader.Stream());
              (&& bufReader.bufferLen > 0 && s != [] && LineEnd(s) < SIZE_LINE_LIMIT
               && if old(stage) == Length then !SizeValid(LineText(s))
                  else old(stage) == DataEol && LineText(s) != []) ==>
                err == ClientError
    {
      hide ParseBody, Remaining, Expects, SizeValid, LineText, LineEnd;
      hide BufferedReader.Stream, BufferedReader.Window, BufferedReader.Torn;
      n, err := 0, Ok;
      if stage == Length {
        err := ReadSize(len);
        if err != Ok {
          return;
        }
      }
      n, err := ReadChunk(dest, off, len);
    }

    /** The part of the round behind the size line: chunk data, and the line end behind them. */
    method ReadChunk(dest: array<byte>, off: nat, len: uint32) returns (n: uint32, err: HttpError)
      requires Valid() && 0 < len && off + len <= dest.Length && dest != bufReader.buffer
      modifies this, bufReader, bufReader.socket, bufReader.buffer, dest
      ensures bufReader.Valid() && (bufReader.buffer == old(bufReader.buffer) || fresh(bufReader.buffer))
      ensures bufReader.origin == old(bufReader.origin) && Grows(old(bufReader.bufferLen))
      ensures n <= len && dest[..off] == old(dest[..off]) && dest[off + n..] == old(dest[off + n..])
      ensures err == Ok ==>
                Valid() && (stage == Stage.Eof <==> old(stage) == Stage.Eof) && (stage == Stage.Eof ==> n == 0)
      ensures err == Ok && old(stage) in {Data, DataEol} ==> |bufReader.Stream()| < |old(bufReader.Stream())|
      ensures old(stage) !in {Data, DataEol} ==> err == Ok && bufReader.Stream() == old(bufReader.Stream())
      ensures err == Ok ==> old(Remaining(false)) == Remaining(false).Prepend(dest[off..off + n])
      ensures var p := old(Remaining(true)); p.Body? ==> err == Ok && p == Remaining(true).Prepend(dest[off..off + n])
      ensures err != Ok ==> stage != Stage.Eof
      ensures (err == Ok ==> stage != DataEol) && Ended(err) && Keeps(old(Expects(len)), Expects(len - n), err)
      ensures var s := old(bufReader.Stream());
              (&& bufReader.bufferLen > 0 && s != [] && LineEnd(s) < SIZE_LINE_LIMIT
               && old(stage) == DataEol && LineText(s) != []) ==>
                err == ClientError
    {
      hide ParseBody, Remaining, Expects, LineText, LineEnd;
      hide BufferedReader.Stream, BufferedReader.Window, BufferedReader.Torn;
      n, err := 0, Ok;
      PrependNothing(Remaining(false), dest[off..off]);
      PrependNothing(Remaining(true), dest[off..off]);
      if stage == Data {
        n, err := ReadData(dest, off, len);
        if err != Ok {
          return;
        }
      }
      if stage == DataEol {
        err := ReadEol(len - n);
      }
    }

    /** What has been delivered and what remains make up the whole, in both readings. */
    ghost predicate Delivering(p: Parse, q: Parse, got: seq<byte>)
      reads this, bufReader, bufReader.socket, bufReader.buffer
    {
      && bufReader.Valid()
      && q == Remaining(false).Prepend(got) && (p.Body? ==> p == Remaining(true).Prepend(got))
    }

    /** One round of the read loop behind the bytes that have been delivered already. */
    method Round(dest: array<byte>, off: nat, total: nat, len: uint32, ghost p: Parse, ghost q: Parse)
      returns (n: uint32, err: HttpError)
      requires Valid() && stage != Stage.Eof && total < len && off + len <= dest.Length && dest != bufReader.buffer
      requires Delivering(p, q, dest[off..off + total])
      modifies this, bufReader, bufReader.socket, bufReader.buffer, dest
      ensures bufReader.Valid() && (bufReader.buffer == old(bufReader.buffer) || fresh(bufReader.buffer))
      ensures bufReader.origin == old(bufReader.origin) && Grows(old(bufReader.bufferLen))
      ensures dest[..off] == old(dest[..off]) && dest[off + len..] == old(dest[off + len..])
      ensures err == Ok ==> Valid() && total + n <= len && Delivering(p, q, dest[off..off + total + n])
      ensures err == Ok ==> |bufReader.Stream()| < |old(bufReader.Stream())| && (stage == Stage.Eof ==> n == 0)
      ensures err != Ok ==> !p.Body? && stage != Stage.Eof
      ensures old(stage) == Length && bufReader.bufferLen == 0 ==>
                err == HttpError.Eof && stage == Length && bufReader.Stream() == old(bufReader.Stream())
      ensures total + n <= len && (err == Ok ==> stage != DataEol) && Ended(err)
      ensures Keeps(old(Expects(len - total)), Expects(len - total - n), err)
    {
      hide ParseBody, Remaining, Parse.Prepend, Expects, SizeValid, LineText, LineEnd, Ended;
      hide BufferedReader.Stream, BufferedReader.Window, BufferedReader.Torn;
      ghost var before, r, t, got := dest[..], Remaining(false), Remaining(true), dest[off..off + total];
      BodyOf(t, got);
      n, err := Step(dest, off + total, len - total);
      ghost var more := dest[off + total..off + total + n];
      FrameStep(before, dest[..], off, total, n, len);
      Grown(before, dest[..], off, total, n);
      if err == Ok {
        Extend(q, r, Remaining(false), got, more);
        if p.Body? { Extend(p, t, Remaining(true), got, more); }
      }
    }

    /**
     Fills dest[off..off + len] with data of the body, or what is left of it. On any stream an Ok result delivers the
     bytes that the stream says, and Eof with the reader behind the body says that the body was over. A body in the
     strict reading is delivered without error, and a reader with a buffer of no bytes delivers nothing.
     */
    method Read(dest: array<byte>, off: nat, len: uint32) returns (n: uint32, err: HttpError)
      requires Valid() && off + len <= dest.Length && dest != bufReader.buffer
      modifies this, bufReader, bufReader.socket, bufReader.buffer, dest
      ensures bufReader.Valid() && (bufReader.buffer == old(bufReader.buffer) || fresh(bufReader.buffer))
      ensures bufReader.origin == old(bufReader.origin) && Grows(old(bufReader.bufferLen))
      ensures dest[..off] == old(dest[..off]) && dest[off + len..] == old(dest[off + len..])
      ensures err == Ok ==> Valid() && n <= len && (len > 0 ==> (n < len <==> stage == Stage.Eof))
      ensures err == Ok ==> old(Remaining(false)) == Remaining(false).Prepend(dest[off..off + n])
      ensures err == Ok && len > 0 ==> n > 0 && |bufReader.Stream()| < |old(bufReader.Stream())|
      ensures err == HttpError.Eof && stage == Stage.Eof ==>
                Valid() && n == 0 && old(Remaining(false)) == Body([], bufReader.Stream())
      ensures var p := old(Remaining(true));
              p.Body? ==>
                && Valid() && n == Min(len, |p.data|) && dest[off..off + n] == p.data[..n]
                && Remaining(true) == Body(p.data[n..], p.rest)
                && err == (if p.data == [] && (len > 0 || old(stage) == Stage.Eof) then HttpError.Eof else Ok)
                && (n < len ==> stage == Stage.Eof && bufReader.Stream() == p.rest)
      ensures old(stage) == Length && bufReader.bufferLen == 0 && len > 0 ==>
                err == HttpError.Eof && n == 0 && stage == Length && bufReader.Stream() == old(bufReader.Stream())
      ensures err != Ok ==> n == 0
      ensures err == HttpError.Eof && stage != Stage.Eof ==> bufReader.Stream() == [] || bufReader.bufferLen == 0
      ensures err == ClientError || err == LineTooLong ==> stage != Stage.Eof
      ensures len > 0 && old(stage) != Stage.Eof ==> Answers(old(Expects(len)), err, stage == Stage.Eof)
      ensures var s := old(bufReader.Stream());
              (&& len > 0 && bufReader.bufferLen > 0 && s != [] && LineEnd(s) < SIZE_LINE_LIMIT
               && if old(stage) == Length then !SizeValid(LineText(s))
                  else old(stage) == DataEol && LineText(s) != []) ==>
                err == ClientError
    {
      hide ParseBody, Remaining, Parse.Prepend, Delivering, Expects, SizeValid, LineText, LineEnd;
      hide BufferedReader.Stream, BufferedReader.Window, BufferedReader.Torn;
      if stage == Stage.Eof {
        AtEnd();
        return 0, HttpError.Eof;
      }
      if len > 0 { BadLine(len); }
      ghost var p, q := Remaining(true), Remaining(false);
      StartDelivering(p, q);
      n, err := ReadRounds(dest, off, len, p, q);
      if err != Ok {
        return 0, err;
      }
      NothingMore();
      Delivered(p, q, dest[off..off + n], len);
      if stage == Stage.Eof {
        AtEnd();
        if n == 0 && len > 0 {
          return 0, HttpError.Eof;
        }
      }
    }

    /** The loop of read. */
    method ReadRounds(dest: array<byte>, off: nat, len: uint32, ghost p: Parse, ghost q: Parse)
      returns (total: uint32, err: HttpError)
      requires Valid() && stage != Stage.Eof && off + len <= dest.Length && dest != bufReader.buffer
      requires Delivering(p, q, [])
      modifies this, bufReader, bufReader.socket, bufReader.buffer, dest
      ensures bufReader.Valid() && (bufReader.buffer == old(bufReader.buffer) || fresh(bufReader.buffer))
      ensures bufReader.origin == old(bufReader.origin) && Grows(old(bufReader.bufferLen))
      ensures dest[..off] == old(dest[..off]) && dest[off + len..] == old(dest[off + len..])
      ensures total <= len && Ended(err)
      ensures err == Ok ==>
                && Valid() && Delivering(p, q, dest[off..off + total])
                && (stage == Stage.Eof <==> total < len)
                && (len > 0 ==> |bufReader.Stream()| < |old(bufReader.Stream())| && stage != DataEol)
                && (old(Expects(len)) == Unsure || Expects(len - total) == old(Expects(len)))
      ensures err != Ok ==> !p.Body? && stage != Stage.Eof && Keeps(old(Expects(len)), Fine, err)
      ensures old(stage) == Length && bufReader.bufferLen == 0 && len > 0 ==>
                err == HttpError.Eof && stage == Length && bufReader.Stream() == old(bufReader.Stream())
    {
      hide ParseBody, Remaining, Parse.Prepend, Delivering, Expects, SizeValid, LineText, LineEnd, Ended;
      hide BufferedReader.Stream, BufferedReader.Window, BufferedReader.Torn;
      ghost var v, size, starved := Expects(len), |bufReader.Stream()|, stage == Length && bufReader.bufferLen == 0;
      total, err := 0, Ok;
      assert dest[off..off + total] == [];
      while total < len && stage != Stage.Eof
        invariant Valid() && (bufReader.buffer == old(bufReader.buffer) || fresh(bufReader.buffer))
        invariant Grows(old(bufReader.bufferLen)) && bufReader.origin == old(bufReader.origin)
        invariant dest[..off] == old(dest[..off]) && dest[off + len..] == old(dest[off + len..])
        invariant total <= len && Delivering(p, q, dest[off..off + total]) && (stage == Stage.Eof ==> total < len)
        invariant (|bufReader.Stream()| < size && stage != DataEol) || (total == 0 && |bufReader.Stream()| == size)
        invariant |bufReader.Stream()| == size ==> stage != Stage.Eof
        invariant starved ==> total == 0 && stage == Length && bufReader.Stream() == old(bufReader.Stream())
        invariant v == Unsure || Expects(len - total) == v
        invariant err == Ok
        decreases |bufReader.Stream()|
      {
        var bytes;
        bytes, err := Round(dest, off, total, len, p, q);
        if err != Ok {
          return;
        }
        total := total + bytes;
      }
      NotEnded();
    }

    lemma NotEnded()
      requires bufReader.Valid()
      ensures Ended(Ok)
    {
    }

    /** A read of nothing, and one behind the body, meets nothing. */
    lemma NothingMore()
      requires bufReader.Valid()
      ensures stage != DataEol ==> Expects(0) in {Fine, Unsure}
      ensures forall need: nat :: stage == Stage.Eof ==> Expects(need) in {Fine, Unsure}
    {
      hide SizeValid, Size, LineText, LineEnd;
    }

    /** A line that is not what the stage asks for. */
    lemma BadLine(need: nat)
      requires bufReader.Valid() && need > 0
      ensures var s := bufReader.Stream();
              (&& bufReader.bufferLen > 0 && s != [] && LineEnd(s) < SIZE_LINE_LIMIT
               && if stage == Length then !SizeValid(LineText(s)) else stage == DataEol && LineText(s) != []) ==>
                Expects(need) == Fault
    {
      hide SizeValid, Size, LineText, LineEnd;
    }

    lemma StartDelivering(p: Parse, q: Parse)
      requires bufReader.Valid() && p == Remaining(true) && q == Remaining(false)
      ensures Delivering(p, q, [])
    {
      hide Remaining;
      PrependNothing(p, []);
      PrependNothing(q, []);
    }

    /** What the delivered bytes are of the whole. */
    lemma Delivered(p: Parse, q: Parse, got: seq<byte>, len: nat)
      requires Delivering(p, q, got) && |got| <= len
      ensures bufReader.Valid() && q == Remaining(false).Prepend(got)
      ensures p.Body? ==>
                |got| <= |p.data| && Remaining(true) == Body(p.data[|got|..], p.rest) && got == p.data[..|got|]
      ensures got == [] ==> q == Remaining(false)
    {
      hide Remaining;
      if got == [] { PrependNothing(Remaining(false), got); }
    }

    /**
     Reads and drops the rest of the body. The result is Eof instead of Ok when the last read that was needed found the
     end without delivering anything: exactly when the data not yet read fill the read buffer a whole number of times.
     */
    method Close() returns (err: HttpError)
      requires Valid()
      modifies this, bufReader, bufReader.socket, bufReader.buffer
      ensures bufReader.Valid() && bufReader.origin == old(bufReader.origin) && Grows(old(bufReader.bufferLen))
      ensures err == Ok ==>
                && stage == Stage.Eof
                && old(Remaining(false)).Body? && old(Remaining(false)).rest == bufReader.Stream()
      ensures var p := old(Remaining(true));
              p.Body? ==>
                && stage == Stage.Eof && bufReader.Stream() == p.rest
                && err == (if old(stage) == Stage.Eof || |p.data| % 1024 != 0 then Ok else HttpError.Eof)
      ensures err == HttpError.Eof && stage != Stage.Eof ==> bufReader.Stream() == [] || bufReader.bufferLen == 0
      ensures old(stage) != Stage.Eof ==>
                && (old(Expects(1024)) == Fault ==> err == ClientError)
                && (old(Expects(1024)) == End ==> err == HttpError.Eof && stage != Stage.Eof)
    {
      hide ParseBody, Remaining, Closing, Expects;
      hide BufferedReader.Stream, BufferedReader.Window, BufferedReader.Torn;
      ghost var v := Expects(1024);
      var discardBuffer := new byte[1024];
      ghost var p, q, over := Remaining(true), Remaining(false), stage == Stage.Eof;
      ClosingStarts(p, q);
      while stage != Stage.Eof
        invariant Closing(p, q, over) && (bufReader.buffer == old(bufReader.buffer) || fresh(bufReader.buffer))
        invariant fresh(discardBuffer) && discardBuffer != bufReader.buffer
        invariant bufReader.Valid() && bufReader.origin == old(bufReader.origin) && Grows(old(bufReader.bufferLen))
        invariant old(stage) != Stage.Eof ==> v in {Fine, Unsure} || (stage != Stage.Eof && Expects(1024) == v)
        decreases |bufReader.Stream()|
      {
        err := CloseRound(discardBuffer, p, q, over);
        if err != Ok {
          return;
        }
      }
      ClosingEnds(p, q, over);
      return Ok;
    }

    /** Data have been dropped 1024 bytes at a time, of a reader that was behind the body from the start or was not. */
    ghost predicate Closing(p: Parse, q: Parse, over: bool)
      reads this, bufReader, bufReader.socket, bufReader.buffer
    {
      && Valid() && (over ==> stage == Stage.Eof)
      && (var r := Remaining(false); q.Body? == r.Body? && (q.Body? ==> q.rest == r.rest))
      && (p.Body? ==>
            && var r := Remaining(true);
            && r.Body? && r.rest == p.rest
            && if stage == Stage.Eof then over || |p.data| % 1024 != 0 else |r.data| % 1024 == |p.data| % 1024)
    }

    lemma ClosingStarts(p: Parse, q: Parse)
      requires Valid() && p == Remaining(true) && q == Remaining(false)
      ensures Closing(p, q, stage == Stage.Eof)
    {
      hide Remaining;
    }

    lemma ClosingEnds(p: Parse, q: Parse, over: bool)
      requires Closing(p, q, over) && stage == Stage.Eof
      ensures q.Body? && q.rest == bufReader.Stream()
      ensures p.Body? ==> p.rest == bufReader.Stream() && (over || |p.data| % 1024 != 0)
    {
      hide Remaining;
      AtEnd();
    }

    /** One read of close. */
    method CloseRound(discardBuffer: array<byte>, ghost p: Parse, ghost q: Parse, ghost over: bool)
      returns (err: HttpError)
      requires Closing(p, q, over) && stage != Stage.Eof && discardBuffer.Length == 1024
      requires bufReader.Valid() && discardBuffer != bufReader.buffer
      modifies this, bufReader, bufReader.socket, bufReader.buffer, discardBuffer
      ensures bufReader.Valid() && (bufReader.buffer == old(bufReader.buffer) || fresh(bufReader.buffer))
      ensures bufReader.origin == old(bufReader.origin) && Grows(old(bufReader.bufferLen))
      ensures err == Ok ==> Closing(p, q, over) && |bufReader.Stream()| < |old(bufReader.Stream())|
      ensures err != Ok && p.Body? ==>
                && err == HttpError.Eof && stage == Stage.Eof && bufReader.Stream() == p.rest
                && !over && |p.data| % 1024 == 0
      ensures err == HttpError.Eof && stage != Stage.Eof ==> bufReader.Stream() == [] || bufReader.bufferLen == 0
      ensures Answers(old(Expects(1024)), err, stage == Stage.Eof)
    {
      hide ParseBody, Remaining, Expects, SizeValid, LineText, LineEnd, Ended;
      hide BufferedReader.Stream, BufferedReader.Window, BufferedReader.Torn;
      var n;
      n, err := Read(discardBuffer, 0, 1024);
      if stage == Stage.Eof && bufReader.Valid() { AtEnd(); }
    }

    lemma AtEnd()
      requires bufReader.Valid() && stage == Stage.Eof
      ensures Remaining(true) == Remaining(false) == Body([], bufReader.Stream())
    {
    }
  }

  /** What the number parser says about a size line. */
  method ParseSize(line: seq<byte>) returns (size: int, ok: bool)
    requires |line| <= UINT32_MAX
    ensures (ok <==> SizeValid(line)) && (ok ==> size == Size(line))
  {
    hide Strconv.Parses, Strconv.Value, Strconv.Read;
    size, ok := Strconv.ParseUnsigned(Strconv.W64, SizeText(line), 16);
  }

  /** Bytes of the chunk delivered in front of the rest of it: in both readings and for the outlook. */
  lemma PartDelivered(s: seq<byte>, cur: nat, got: seq<byte>, rest: seq<byte>, need: nat)
    requires s == got + rest && 0 < |got| <= Min(cur, need)
    ensures var stage, left := if |got| == cur then DataEol else Data, cur - |got|;
            && ParseBody(false, Data, cur, s) == ParseBody(false, stage, left, rest).Prepend(got)
            && ParseBody(true, Data, cur, s) == ParseBody(true, stage, left, rest).Prepend(got)
            && Ahead(Data, cur, s, need) == Ahead(stage, left, rest, need - |got|)
  {
    hide ParseBody, Parse.Prepend, Ahead;
    var n := |got|;
    assert s[..n] == got && s[n..] == rest;
    SplitData(false, cur, s, n);
    SplitData(true, cur, s, n);
    AheadPart(cur, s, need, n);
  }

  lemma BodyOf(t: Parse, got: seq<byte>)
    ensures t.Prepend(got).Body? <==> t.Body?
  {
  }

  lemma Extend(p: Parse, r: Parse, t: Parse, got: seq<byte>, more: seq<byte>)
    requires p == r.Prepend(got) && r == t.Prepend(more)
    ensures p == t.Prepend(got + more)
  {
    PrependTwice(t, got, more);
  }

  lemma PrependNothing(p: Parse, s: seq<byte>)
    requires s == []
    ensures p.Prepend(s) == p
  {
    assert [] + p.data == p.data;
  }
}
