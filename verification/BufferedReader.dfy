/**
 The buffered reader: a window over a growable buffer, refilled from a source that may hand out any fragments.
 */
module BufferedReader {
  import opened Bits
  import opened HttpTypes

  // ---- lines of a stream

  /** The index of the first line feed in s, or |s|. */
  function LineEnd(s: seq<byte>): (j: nat)
    ensures j <= |s| && LF !in s[..j] && (j < |s| ==> s[j] == LF)
  {
    if s == [] || s[0] == LF then 0
    else
      assert s[..1 + LineEnd(s[1..])] == [s[0]] + s[1..][..LineEnd(s[1..])];
      1 + LineEnd(s[1..])
  }

  lemma LineEndUnique(s: seq<byte>, j: nat)
    requires j <= |s| && LF !in s[..j] && (j < |s| ==> s[j] == LF)
    ensures LineEnd(s) == j
  {
    var k := LineEnd(s);
    if k < j {
      InPrefix(s, j, k);
    } else if j < k {
      InPrefix(s, k, j);
    }
  }

  /**
   The next line: the bytes before the first line feed, one preceding carriage return removed; or else all that is left.
   */
  function LineText(s: seq<byte>): seq<byte> {
    var j := LineEnd(s);
    if j < |s| && j > 0 && s[j - 1] == CR then s[..j - 1] else s[..j]
  }

  /** The next line with its terminator. */
  function LineBytes(s: seq<byte>): seq<byte> {
    s[..Min(LineEnd(s) + 1, |s|)]
  }

  /** The three ways in which a line ends: with CR LF, with LF alone, and with the stream. */
  lemma LineForms(x: seq<byte>, rest: seq<byte>)
    requires 10 !in x
    ensures LineText(x + [13, 10] + rest) == x && LineBytes(x + [13, 10] + rest) == x + [13, 10]
    ensures x == [] || x[|x| - 1] != 13 ==> LineText(x + [10] + rest) == x && LineBytes(x + [10] + rest) == x + [10]
    ensures LineText(x) == LineBytes(x) == x
  {
    var s, t := x + [13, 10] + rest, x + [10] + rest;
    assert s[..|x| + 1] == x + [13] && s[..|x| + 2] == x + [13, 10] && s[..|x|] == x;
    assert t[..|x|] == x && t[..|x| + 1] == x + [10] && x[..|x|] == x;
    LineEndUnique(s, |x| + 1);
    LineEndUnique(t, |x|);
    LineEndUnique(x, |x|);
  }

  /** The line feed found at j in the window ends the next line of the stream. */
  lemma FoundAt(window: seq<byte>, rest: seq<byte>, j: nat)
    requires j < |window| && window[j] == LF && LF !in window[..j]
    ensures var s := window + rest;
            && LineEnd(s) == j && LineBytes(s) == window[..j + 1] && s == window[..j + 1] + (window[j + 1..] + rest)
            && LineText(s) == window[..if j > 0 && window[j - 1] == CR then j - 1 else j]
  {
    var s := window + rest;
    assert s[..j] == window[..j] && s[..j + 1] == window[..j + 1];
    LineEndUnique(s, j);
    if j > 0 {
      assert s[..j - 1] == window[..j - 1] && s[j - 1] == window[j - 1];
    }
  }

  /** Without a line feed in the window the next line ends in the rest, if at all. */
  lemma NotFound(window: seq<byte>, rest: seq<byte>)
    requires LF !in window
    ensures LineEnd(window + rest) == |window| + LineEnd(rest)
    ensures rest == [] ==> LineBytes(window + rest) == LineText(window + rest) == window
  {
    var s, j := window + rest, |window| + LineEnd(rest);
    assert s[..j] == window + rest[..LineEnd(rest)];
    LineEndUnique(s, j);
    if rest == [] {
      assert s == window && s[..j] == window;
    }
  }

  lemma Conserved(origin: seq<byte>, consumed: seq<byte>, taken: seq<byte>, window: seq<byte>, rest: seq<byte>)
    requires origin == consumed + (taken + window + rest)
    ensures origin == consumed + taken + (window + rest)
    ensures taken + window + rest == taken + (window + rest)
  {
  }

  lemma FixedStep(s: seq<byte>, c: seq<byte>, done: nat, taken: seq<byte>, rest: seq<byte>)
    requires done <= |s| && s[done..] == taken + rest
    ensures done + |taken| <= |s| && s[done + |taken|..] == rest && s[..done + |taken|] == s[..done] + taken
    ensures c + s[..done] + taken == c + s[..done + |taken|]
  {
    assert s == s[..done] + s[done..];
  }

  /** Taking k more bytes off the window after done bytes of s have been taken. */
  lemma TakeStep(s: seq<byte>, c: seq<byte>, done: nat, window: seq<byte>, rest: seq<byte>, k: nat)
    requires done <= |s| && s[done..] == window + rest && k <= |window|
    ensures done + k <= |s| && s[done + k..] == window[k..] + rest
    ensures c + s[..done] + window[..k] == c + s[..done + k]
    ensures c + s == c + s[..done + k] + (window[k..] + rest)
  {
    assert s[done..][k..] == s[done + k..];
    assert s[..done + k] == s[..done] + window[..k];
    assert s == s[..done + k] + s[done + k..];
  }

  lemma FrameStep(before: seq<byte>, after: seq<byte>, off: nat, done: nat, n: nat, len: nat)
    requires |before| == |after| && done + n <= len && off + len <= |before|
    requires after[..off + done] == before[..off + done] && after[off + done + n..] == before[off + done + n..]
    ensures after[..off] == before[..off] && after[off + len..] == before[off + len..]
  {
    assert after[..off] == after[..off + done][..off];
    assert after[off + len..] == after[off + done + n..][len - done - n..];
    assert before[off + len..] == before[off + done + n..][len - done - n..];
  }

  lemma Grown(before: seq<byte>, after: seq<byte>, off: nat, done: nat, n: nat)
    requires |before| == |after| && off + done + n <= |after| && after[..off + done] == before[..off + done]
    ensures after[off..off + done + n] == before[off..off + done] + after[off + done..off + done + n]
  {
    assert after[off..off + done] == after[..off + done][off..];
    assert before[off..off + done] == before[..off + done][off..];
  }

  lemma SplitStream(consumed: seq<byte>, window: seq<byte>, rest: seq<byte>, n: nat)
    requires n <= |window|
    ensures consumed + (window + rest) == consumed + window[..n] + (window[n..] + rest)
    ensures window + rest == window[..n] + (window[n..] + rest)
  {
    assert window == window[..n] + window[n..];
  }

  /** Windows and expectations that differ within both stay different, whatever follows. */
  lemma Mismatch(window: seq<byte>, rest: seq<byte>, expected: seq<byte>, k: nat)
    requires k <= |window| && k <= |expected| && window[..k] != expected[..k]
    ensures !(expected <= window + rest) && !(window + rest <= expected)
  {
    var i :| 0 <= i < k && window[i] != expected[i];
    assert (window + rest)[i] == window[i];
  }

  lemma SliceOfSlice(s: seq<byte>, a: nat, b: nat, i: nat, j: nat)
    requires a <= b <= |s| && i <= j <= b - a
    ensures s[a..b][i..j] == s[a + i..a + j]
  {
    var x, y := s[a..b][i..j], s[a + i..a + j];
    assert |x| == |y| && forall k :: 0 <= k < |x| ==> x[k] == y[k];
  }

  lemma SliceOfPrefix(s: seq<byte>, t: seq<byte>, n: nat, i: nat, j: nat)
    requires n <= |s| && n <= |t| && s[..n] == t[..n] && i <= j <= n
    ensures s[i..j] == t[i..j]
  {
    assert s[i..j] == s[..n][i..j] && t[i..j] == t[..n][i..j];
  }

  lemma SameSoFar(a: seq<byte>, b: seq<byte>, from: nat, k: nat)
    requires from <= k <= |a| && k <= |b| && a[..from] == b[..from]
    ensures a[..k] == b[..k] <==> a[from..k] == b[from..k]
  {
    assert a[..k] == a[..from] + a[from..k] && b[..k] == b[..from] + b[from..k];
    assert a[from..k] == a[..k][from..] && b[from..k] == b[..k][from..];
  }

  predicate IsTail(t: seq<byte>, s: seq<byte>) {
    |t| <= |s| && t == s[|s| - |t|..]
  }

  lemma TailDrop(w: seq<byte>, r: seq<byte>, m: nat, s: seq<byte>)
    requires m <= |w| && IsTail(w + r, s)
    ensures IsTail(w[m..] + r, s)
  {
    assert (w + r)[m..] == w[m..] + r;
  }

  /** A positive number of whole strides. */
  predicate Skips(bytes: int, stride: nat) {
    0 < stride && 0 < bytes && bytes % stride == 0
  }

  /** The number of bytes that discard skips: whole strides, or 2^32 less if the request and the stride pass 32 bits. */
  predicate Skipped(bytes: int, stride: nat, n: nat) {
    Skips(bytes, stride) || (n + stride > UINT32_MAX && Skips(bytes + 0x1_0000_0000, stride))
  }

  /** One more stride. */
  lemma SkipsMore(bytes: int, stride: nat)
    requires stride > 0
    ensures Skips(stride, stride) && (Skips(bytes, stride) ==> Skips(bytes + stride, stride))
  {
    DivUnique(stride, stride, 1, 0);
    if Skips(bytes, stride) {
      var q := bytes / stride;
      assert stride * (q + 1) == stride * q + stride;
      DivUnique(bytes + stride, stride, q + 1, 0);
    }
  }

  lemma Rejoin(c: seq<byte>, s: seq<byte>, k: nat)
    requires k <= |s|
    ensures c + s == c + s[..k] + s[k..] && (s[k..] == [] ==> s[..k] == s)
  {
    assert s == s[..k] + s[k..];
  }

  // ---- growth of the buffer

  function CheckedDouble(v: uint32): uint32 {
    if v >= 0x8000_0000 then UINT32_MAX else v * 2
  }

  /**
   The buffer size at which readLine gives up. A buffer of no bytes never grows, and it must not come to growing when
   the sum of the limit and 2 wraps.
   */
  function Capacity(len: uint32, maxLength: uint32): (c: uint32)
    ensures c >= len && (0 < len && maxLength + 2 <= UINT32_MAX ==> c >= maxLength)
    decreases maxLength - len
  {
    if len >= maxLength || len == 0 || maxLength + 2 > UINT32_MAX then len
    else Capacity(Min(CheckedDouble(len), maxLength + 2), maxLength)
  }

  /** The size is doubled, k times, until it reaches the limit, and is never made greater than the limit and 2. */
  lemma {:induction false} CapacityExact(len: uint32, maxLength: uint32) returns (k: nat)
    requires 0 < len < maxLength && maxLength + 2 <= UINT32_MAX
    ensures maxLength <= Capacity(len, maxLength) <= maxLength + 2
    ensures Capacity(len, maxLength) == maxLength + 2 || Capacity(len, maxLength) == len * Pow2(k)
    decreases maxLength - len
  {
    var next := Min(CheckedDouble(len), maxLength + 2);
    assert Capacity(len, maxLength) == Capacity(next, maxLength);
    if next >= maxLength {
      k := 1;
      assert Pow2(0) == 1 && Pow2(1) == 2;
    } else {
      k := CapacityExact(next, maxLength);
      TwiceAs(len, Pow2(k));
      k := k + 1;
    }
  }

  lemma TwiceAs(a: int, b: int)
    ensures 2 * a * b == a * (2 * b)
  {
  }

  /** No line ends within the greatest window that readLine builds. */
  predicate TooLong(s: seq<byte>, len: uint32, maxLength: uint32) {
    && (len == 0 ==> maxLength == 0)
    && |s| >= Capacity(len, maxLength) && LineEnd(s) >= Capacity(len, maxLength)
  }

  /**
   What readLine asks of its callers: a sum of the limit and 2 that wraps must not be needed as a buffer size, since the
   buffer would be copied into one of 0 or 1 bytes.
   */
  predicate CanGrow(s: seq<byte>, len: uint32, maxLength: uint32) {
    maxLength + 2 <= UINT32_MAX || len >= maxLength || !TooLong(s, len, maxLength)
  }

  lemma SameCapacity(s: seq<byte>, maxLength: uint32, len: uint32, len0: uint32)
    requires len >= len0 && Capacity(len, maxLength) == Capacity(len0, maxLength)
    ensures TooLong(s, len, maxLength) == TooLong(s, len0, maxLength) && (len == 0 <==> len0 == 0)
    ensures CanGrow(s, len0, maxLength) ==> CanGrow(s, len, maxLength)
  {
  }

  /** A line of at most maxLength - 2 bytes is never too long, unless the sum wraps and growth would be needed. */
  lemma ShortLineFits(s: seq<byte>, len: uint32, maxLength: uint32)
    requires |LineText(s)| + 2 <= maxLength
    ensures TooLong(s, len, maxLength) ==> maxLength + 2 > UINT32_MAX && 0 < len < maxLength
  {
  }

  class BufferedReader {
    const socket: StreamSource
    var buffer: array<byte>
    var bufferLen: uint32
    var startIndex: uint32
    var endIndex: uint32

    /** The whole stream, and what callers have taken from it so far. */
    ghost var origin: seq<byte>
    ghost var consumed: seq<byte>

    ghost predicate Valid()
      reads this, socket, buffer
    {
      && buffer.Length == bufferLen
      && startIndex <= endIndex <= bufferLen
      && origin == consumed + Stream()
    }

    ghost function Window(): seq<byte>
      reads this, buffer
      requires startIndex <= endIndex <= buffer.Length
    {
      buffer[startIndex..endIndex]
    }

    /** What is still to come: the window, then the unread source. */
    ghost function Stream(): seq<byte>
      reads this, socket, buffer
      requires startIndex <= endIndex <= buffer.Length
    {
      Window() + socket.remaining
    }

    /**
     The window starts with a line feed whose carriage return was consumed by a previous call and is still before it.
     */
    predicate Torn()
      reads this, buffer
    {
      0 < startIndex < endIndex <= buffer.Length && buffer[startIndex] == LF && buffer[startIndex - 1] == CR
    }

    constructor (socket: StreamSource, initialBufferSize: uint32)
      ensures Valid() && fresh(buffer) && this.socket == socket && bufferLen == initialBufferSize
      ensures origin == Stream() == socket.remaining && startIndex == endIndex == 0
    {
      this.socket := socket;
      bufferLen, startIndex, endIndex := initialBufferSize, 0, 0;
      buffer := new byte[initialBufferSize];
      origin, consumed := socket.remaining, [];
    }

    /** Takes bytes off the front of the window. */
    method Advance(n: nat)
      requires Valid() && n <= endIndex - startIndex
      modifies this
      ensures Valid() && buffer == old(buffer) && bufferLen == old(bufferLen) && origin == old(origin)
      ensures startIndex == old(startIndex) + n && endIndex == old(endIndex)
      ensures consumed == old(consumed) + old(Window())[..n] && Stream() == old(Window())[n..] + socket.remaining
    {
      ghost var w := Window();
      SplitStream(consumed, w, socket.remaining, n);
      consumed := consumed + w[..n];
      startIndex := startIndex + n;
      assert Window() == w[n..];
    }

    /** The bytes of the window that fit. */
    method ReadWindow(dest: array<byte>, off: nat, len: uint32) returns (n: uint32)
      requires Valid() && off + len <= dest.Length && dest != buffer && startIndex < endIndex
      modifies this, dest
      ensures Valid() && buffer == old(buffer) && bufferLen == old(bufferLen) && origin == old(origin)
      ensures n <= len && dest[..off] == old(dest[..off]) && dest[off + n..] == old(dest[off + n..])
      ensures consumed == old(consumed) + dest[off..off + n] && old(Stream()) == dest[off..off + n] + Stream()
      ensures n == Min(len, old(endIndex - startIndex)) && (len > 0 ==> n > 0)
      ensures startIndex == old(startIndex) + n && endIndex == old(endIndex)
    {
      hide Stream, Window;
      WindowIs();
      n := Min(endIndex - startIndex, len);
      Copy(dest, off, buffer, startIndex, n);
      SliceOfSlice(buffer[..], startIndex, endIndex, 0, n);
      assert Window()[..n] == dest[off..off + n];
      SplitStream([], Window(), socket.remaining, n);
      Advance(n);
    }

    /** A vectored read into the destination and the empty buffer. */
    method ReadSource(dest: array<byte>, off: nat, len: uint32) returns (n: uint32, err: HttpError)
      requires Valid() && off + len <= dest.Length && dest != buffer && startIndex == endIndex
      modifies this, socket, buffer, dest
      ensures Valid() && buffer == old(buffer) && bufferLen == old(bufferLen) && origin == old(origin)
      ensures n <= len && dest[..off] == old(dest[..off]) && dest[off + n..] == old(dest[off + n..])
      ensures consumed == old(consumed) + dest[off..off + n] && old(socket.remaining) == dest[off..off + n] + Stream()
      ensures if old(socket.remaining) == [] || len + bufferLen == 0 then err == Eof && n == 0
              else err == Ok && (len > 0 ==> n > 0)
    {
      hide Min, Stream, Window;
      EmptyWindow();
      ghost var taken, window;
      startIndex, endIndex := 0, 0;
      var bytesCopied;
      bytesCopied, err := socket.Readv(dest, off, len, buffer);
      n := Min(bytesCopied, len);
      endIndex := bytesCopied - n;
      taken, window := dest[off..off + n], buffer[..endIndex];
      Conserved(origin, consumed, taken, window, socket.remaining);
      consumed := consumed + taken;
      StreamIs(window);
    }

    lemma StreamIs(window: seq<byte>)
      requires startIndex <= endIndex <= buffer.Length && buffer[startIndex..endIndex] == window
      ensures Stream() == window + socket.remaining
    {
    }

    lemma EmptyWindow()
      requires Valid() && startIndex == endIndex
      ensures Stream() == socket.remaining && origin == consumed + socket.remaining
    {
      assert Window() == [];
      assert [] + socket.remaining == socket.remaining;
    }

    method Read(dest: array<byte>, off: nat, len: uint32) returns (n: uint32, err: HttpError)
      requires Valid() && off + len <= dest.Length && dest != buffer
      modifies this, socket, buffer, dest
      ensures Valid() && buffer == old(buffer) && bufferLen == old(bufferLen) && origin == old(origin)
      ensures n <= len && dest[..off] == old(dest[..off]) && dest[off + n..] == old(dest[off + n..])
      ensures consumed == old(consumed) + dest[off..off + n] && old(Stream()) == dest[off..off + n] + Stream()
      ensures if old(Stream()) == [] || len + bufferLen == 0 then err == Eof && n == 0
              else err == Ok && (len > 0 ==> n > 0)
      ensures old(startIndex) < old(endIndex) ==>
                && n == Min(len, old(endIndex - startIndex))
                && startIndex == old(startIndex) + n && endIndex == old(endIndex) && buffer[..] == old(buffer[..])
    {
      hide Stream, Window;
      WindowIs();
      if endIndex - startIndex != 0 {
        n := ReadWindow(dest, off, len);
        return n, Ok;
      }
      EmptyWindow();
      n, err := ReadSource(dest, off, len);
    }

    /**
     Moves the window to the front of the buffer, or grows a full buffer; reports when the limit does not allow that.
     */
    method MakeRoom(maxLength: uint32) returns (ok: bool)
      requires Valid()
      requires maxLength + 2 <= UINT32_MAX || bufferLen == 0 || bufferLen >= maxLength
            || endIndex - startIndex < bufferLen
      modifies this, buffer
      ensures Valid() && (buffer == old(buffer) || fresh(buffer)) && origin == old(origin) && consumed == old(consumed)
      ensures bufferLen >= old(bufferLen) && Capacity(bufferLen, maxLength) == Capacity(old(bufferLen), maxLength)
      ensures startIndex == 0 && Stream() == old(Stream()) && !Torn()
      ensures buffer[startIndex..endIndex] == old(buffer[startIndex..endIndex])
      ensures if ok then endIndex < bufferLen || bufferLen == 0 < maxLength else endIndex == bufferLen >= maxLength
    {
      hide Stream, Window, Capacity;
      WindowIs();
      if startIndex != 0 {
        Compact();
      } else if endIndex == bufferLen {
        if bufferLen >= maxLength {
          return false;
        }
        Grow(maxLength);
      }
      WindowIs();
      return true;
    }

    /** Moves the window to the front of the buffer. */
    method Compact()
      requires Valid()
      modifies this, buffer
      ensures Valid() && buffer == old(buffer) && bufferLen == old(bufferLen) && origin == old(origin)
      ensures consumed == old(consumed) && startIndex == 0 && endIndex == old(endIndex - startIndex)
      ensures Stream() == old(Stream()) && Window() == old(Window())
    {
      var available := endIndex - startIndex;
      MoveToFront(buffer, startIndex, available);
      startIndex, endIndex := 0, available;
      assert Window() == old(Window());
    }

    /** A greater buffer for a full one. */
    method Grow(maxLength: uint32)
      requires Valid() && startIndex == 0 && endIndex == bufferLen < maxLength
      requires maxLength + 2 <= UINT32_MAX || bufferLen == 0
      modifies this
      ensures Valid() && fresh(buffer) && origin == old(origin) && consumed == old(consumed)
      ensures bufferLen >= old(bufferLen) && Capacity(bufferLen, maxLength) == Capacity(old(bufferLen), maxLength)
      ensures startIndex == 0 && endIndex == old(endIndex) && (endIndex < bufferLen || bufferLen == 0)
      ensures Stream() == old(Stream()) && Window() == old(Window())
    {
      Uint32Value(maxLength + 2);
      var newBufferLen := Min(CheckedDouble(bufferLen), Uint32(maxLength + 2));
      var newPtr := new byte[newBufferLen];
      Copy(newPtr, 0, buffer, 0, bufferLen);
      buffer, bufferLen := newPtr, newBufferLen;
      assert Window() == old(Window());
    }

    /** Appends some bytes of the source to the window, unless the source is at its end. */
    method Refill() returns (err: HttpError)
      requires Valid() && (endIndex < bufferLen || bufferLen == 0)
      modifies this, socket, buffer
      ensures Valid() && buffer == old(buffer) && bufferLen == old(bufferLen) && origin == old(origin)
      ensures consumed == old(consumed) && startIndex == old(startIndex) && Stream() == old(Stream())
      ensures buffer[startIndex..old(endIndex)] == old(buffer[startIndex..endIndex])
      ensures startIndex == 0 ==> !Torn()
      ensures if old(socket.remaining) == [] || bufferLen == 0
              then err == Eof && socket.remaining == old(socket.remaining) && endIndex == old(endIndex)
              else err == Ok && |socket.remaining| < |old(socket.remaining)| && endIndex > old(endIndex)
    {
      var bytesRead, e := socket.Read(buffer, endIndex, bufferLen - endIndex);
      ghost var got := buffer[endIndex..endIndex + bytesRead];
      assert buffer[startIndex..endIndex] == buffer[..endIndex][startIndex..] == old(Window());
      endIndex := endIndex + bytesRead;
      assert Window() == old(Window()) + got;
      assert old(Window()) + got + socket.remaining == old(Window()) + (got + socket.remaining);
      return e;
    }

    /** The line that ends at i, as the stream has it. */
    lemma LineFound(i: nat)
      requires Valid() && startIndex <= i < endIndex && buffer[i] == LF && LF !in buffer[startIndex..i]
      ensures Stream() != [] && LineEnd(Stream()) < bufferLen && LineBytes(Stream()) == Window()[..i + 1 - startIndex]
      ensures Stream() == LineBytes(Stream()) + (Window()[i + 1 - startIndex..] + socket.remaining)
      ensures LineText(Stream()) == buffer[startIndex..if i > startIndex && buffer[i - 1] == CR then i - 1 else i]
    {
      var j := i - startIndex;
      assert Window()[..j] == buffer[startIndex..i];
      FoundAt(Window(), socket.remaining, j);
      assert i > startIndex ==> Window()[j - 1] == buffer[i - 1];
    }

    /** A line feed in the window means that the line is not too long. */
    lemma LineHere(i: nat, maxLength: uint32)
      requires Valid() && startIndex <= i < endIndex && buffer[i] == LF && LF !in buffer[startIndex..i]
      ensures Stream() != [] && bufferLen > 0 && !TooLong(Stream(), bufferLen, maxLength)
    {
      hide LineEnd, LineBytes, LineText, Capacity;
      LineFound(i);
    }

    /** Takes the line that the line feed at i ends. */
    method TakeLine(i: nat) returns (lineStart: uint32, lineLen: uint32)
      requires Valid() && startIndex <= i < endIndex && buffer[i] == LF && LF !in buffer[startIndex..i]
      modifies this
      ensures Valid() && buffer == old(buffer) && bufferLen == old(bufferLen) && origin == old(origin) && !Torn()
      ensures consumed == old(consumed) + LineBytes(old(Stream()))
      ensures old(Stream()) == LineBytes(old(Stream())) + Stream()
      ensures if old(Torn()) then lineLen == UINT32_MAX
              else lineStart + lineLen <= bufferLen && buffer[lineStart..lineStart + lineLen] == LineText(old(Stream()))
    {
      hide Uint32, LineText, LineBytes, LineEnd, Stream, Window;
      WindowIs();
      var lineEndIndex := if i != 0 && buffer[i - 1] == CR then i - 1 else i;
      assert Torn() ==> i == startIndex && lineEndIndex - startIndex == -1;
      assert !Torn() ==> lineEndIndex >= startIndex;
      Uint32Value(lineEndIndex - startIndex);
      LineFound(i);
      lineStart, lineLen := startIndex, Uint32(lineEndIndex - startIndex);
      Advance(i + 1 - startIndex);
    }

    /** Takes the whole window, which the end of the stream ends. */
    method TakeRest() returns (lineStart: uint32, lineLen: uint32)
      requires Valid() && socket.remaining == [] && LineBytes(Stream()) == LineText(Stream()) == Stream()
      modifies this
      ensures Valid() && buffer == old(buffer) && bufferLen == old(bufferLen) && origin == old(origin) && !Torn()
      ensures consumed == old(consumed) + LineBytes(old(Stream()))
      ensures old(Stream()) == LineBytes(old(Stream())) + Stream()
      ensures lineStart + lineLen <= bufferLen && buffer[lineStart..lineStart + lineLen] == LineText(old(Stream()))
    {
      hide LineText, LineBytes;
      lineStart, lineLen := startIndex, endIndex - startIndex;
      assert Window()[..lineLen] == Window() == Stream();
      Advance(lineLen);
      startIndex, endIndex := 0, 0;
    }

    /** Looks for a line feed in the window, from where the last search ended. */
    method Search(searchIndex: uint32) returns (i: uint32)
      requires Valid() && startIndex <= searchIndex <= endIndex && LF !in buffer[startIndex..searchIndex]
      ensures searchIndex <= i <= endIndex && LF !in buffer[startIndex..i] && (i < endIndex ==> buffer[i] == LF)
    {
      i := searchIndex;
      while i < endIndex && buffer[i] != LF
        invariant searchIndex <= i <= endIndex && LF !in buffer[startIndex..i]
      {
        i := i + 1;
      }
    }

    /** Makes room behind a window without line feed and appends some bytes to it; next is where the search goes on. */
    method ReadMore(maxLength: uint32) returns (next: uint32, err: HttpError)
      requires Valid() && LF !in buffer[startIndex..endIndex] && CanGrow(Stream(), bufferLen, maxLength)
      modifies this, socket, buffer
      ensures Valid() && (buffer == old(buffer) || fresh(buffer)) && origin == old(origin) && consumed == old(consumed)
      ensures bufferLen >= old(bufferLen) && Capacity(bufferLen, maxLength) == Capacity(old(bufferLen), maxLength)
      ensures Stream() == old(Stream()) && !old(Torn()) && !Torn()
      ensures startIndex <= next <= endIndex && LF !in buffer[startIndex..next]
      ensures err == Ok ==> |socket.remaining| < |old(socket.remaining)|
      ensures err == LineTooLong ==> TooLong(Stream(), bufferLen, maxLength)
      ensures err == Eof ==>
                && !TooLong(Stream(), bufferLen, maxLength)
                && (Stream() == [] || bufferLen == 0 <==> startIndex == endIndex)
                && (startIndex < endIndex ==>
                      socket.remaining == [] && LineBytes(Stream()) == LineText(Stream()) == Stream())
      ensures err in {Ok, LineTooLong, Eof}
    {
      hide LineText, LineBytes, LineEnd, Capacity, TooLong, Stream, Window, Torn;
      NotTorn();
      NoLineYet(maxLength);
      var ok := MakeRoom(maxLength);
      next := endIndex;
      NoLineYet(maxLength);
      if !ok {
        return next, LineTooLong;
      }
      err := Refill();
    }

    /** What readLine promises for the stream s, of which c was taken before, with a buffer of len bytes. */
    ghost predicate LineRead(
        s: seq<byte>, c: seq<byte>, len: uint32, maxLength: uint32, torn: bool, lineStart: uint32, lineLen: uint32,
        err: HttpError)
      reads this, socket, buffer
    {
      && Valid()
      && err != ClientError
      && (err == LineTooLong <==> TooLong(s, len, maxLength))
      && (err == Eof <==> err != LineTooLong && (s == [] || len == 0))
      && (err != Ok ==> consumed == c && Stream() == s)
      && (err == Ok ==> consumed == c + LineBytes(s) && s == LineBytes(s) + Stream() && !Torn())
      && (err == Ok && !torn ==>
            lineStart + lineLen <= bufferLen && buffer[lineStart..lineStart + lineLen] == LineText(s))
      && (torn ==> err == Ok && lineLen == UINT32_MAX)
    }

    /** Returns the line as an offset and a length into the buffer, as the source's StringRef does. */
    method ReadLine(maxLength: uint32) returns (lineStart: uint32, lineLen: uint32, err: HttpError)
      requires Valid() && CanGrow(Stream(), bufferLen, maxLength)
      modifies this, socket, buffer
      ensures Valid() && (buffer == old(buffer) || fresh(buffer)) && origin == old(origin)
      ensures bufferLen >= old(bufferLen) && Capacity(bufferLen, maxLength) == Capacity(old(bufferLen), maxLength)
      ensures err != ClientError
      ensures err == LineTooLong <==> TooLong(old(Stream()), old(bufferLen), maxLength)
      ensures err == Eof <==> err != LineTooLong && (old(Stream()) == [] || old(bufferLen) == 0)
      ensures err != Ok ==> consumed == old(consumed) && Stream() == old(Stream())
      ensures err == Ok ==> consumed == old(consumed) + LineBytes(old(Stream()))
      ensures err == Ok ==> old(Stream()) == LineBytes(old(Stream())) + Stream() && !Torn()
      ensures err == Ok && !old(Torn()) ==>
                lineStart + lineLen <= bufferLen && buffer[lineStart..lineStart + lineLen] == LineText(old(Stream()))
      ensures old(Torn()) ==> err == Ok && lineLen == UINT32_MAX
    {
      hide LineText, LineBytes, LineEnd, Capacity, TooLong, Stream, Window, Torn, CanGrow;
      ghost var s, torn := Stream(), Torn();
      lineStart, lineLen, err := FindLine(maxLength, s, consumed, torn);
    }

    /** The loop of readLine. */
    method FindLine(maxLength: uint32, ghost s: seq<byte>, ghost c: seq<byte>, ghost torn: bool)
      returns (lineStart: uint32, lineLen: uint32, err: HttpError)
      requires Valid() && s == Stream() && c == consumed && torn == Torn() && CanGrow(s, bufferLen, maxLength)
      modifies this, socket, buffer
      ensures (buffer == old(buffer) || fresh(buffer)) && origin == old(origin)
      ensures bufferLen >= old(bufferLen) && Capacity(bufferLen, maxLength) == Capacity(old(bufferLen), maxLength)
      ensures LineRead(s, c, old(bufferLen), maxLength, torn, lineStart, lineLen, err)
    {
      Bounds();
      hide *;
      ghost var first := true;
      var searchIndex := startIndex;
      while true
        invariant buffer == old(buffer) || fresh(buffer)
        invariant origin == old(origin) && bufferLen >= old(bufferLen)
        invariant Capacity(bufferLen, maxLength) == Capacity(old(bufferLen), maxLength)
        invariant Searching(s, c, torn, first, searchIndex) && CanGrow(s, bufferLen, maxLength)
        decreases |socket.remaining|
      {
        var done;
        done, searchIndex, lineStart, lineLen, err := LineRound(maxLength, searchIndex, s, c, torn, first);
        if done {
          SameLine(s, c, maxLength, torn, lineStart, lineLen, err, old(bufferLen));
          return;
        }
        first := false;
      }
    }

    ghost predicate Searching(s: seq<byte>, c: seq<byte>, torn: bool, first: bool, searchIndex: uint32)
      reads this, socket, buffer
    {
      && Valid() && Stream() == s && consumed == c
      && startIndex <= searchIndex <= endIndex && LF !in buffer[startIndex..searchIndex]
      && if first then startIndex == searchIndex && Torn() == torn else !Torn() && !torn
    }

    lemma SameLine(
        s: seq<byte>, c: seq<byte>, maxLength: uint32, torn: bool, lineStart: uint32, lineLen: uint32, err: HttpError,
        len: uint32)
      requires bufferLen >= len && Capacity(bufferLen, maxLength) == Capacity(len, maxLength)
      requires LineRead(s, c, bufferLen, maxLength, torn, lineStart, lineLen, err)
      ensures LineRead(s, c, len, maxLength, torn, lineStart, lineLen, err)
    {
      hide LineText, LineBytes, LineEnd, Capacity, TooLong, Stream, Window, Torn, Valid;
      SameCapacity(s, maxLength, bufferLen, len);
    }

    /** One round: looks for the line feed in the window, and if it is not there makes room and reads on. */
    method LineRound(
        maxLength: uint32, searchIndex: uint32, ghost s: seq<byte>, ghost c: seq<byte>, ghost torn: bool,
        ghost first: bool)
      returns (done: bool, next: uint32, lineStart: uint32, lineLen: uint32, err: HttpError)
      requires Searching(s, c, torn, first, searchIndex) && CanGrow(s, bufferLen, maxLength)
      modifies this, socket, buffer
      ensures (buffer == old(buffer) || fresh(buffer)) && origin == old(origin)
      ensures bufferLen >= old(bufferLen) && Capacity(bufferLen, maxLength) == Capacity(old(bufferLen), maxLength)
      ensures done ==> LineRead(s, c, bufferLen, maxLength, torn, lineStart, lineLen, err)
      ensures !done ==>
                && Searching(s, c, torn, false, next) && CanGrow(s, bufferLen, maxLength)
                && |socket.remaining| < |old(socket.remaining)|
    {
      hide LineText, LineBytes, LineEnd, Capacity, TooLong, Stream, Window, Torn, Min, CheckedDouble, CanGrow;
      var i := Search(searchIndex);
      if i < endIndex {
        LineHere(i, maxLength);
        lineStart, lineLen := TakeLine(i);
        return true, 0, lineStart, lineLen, Ok;
      }
      ghost var len := bufferLen;
      next, err := ReadMore(maxLength);
      SameCapacity(s, maxLength, bufferLen, len);
      if err == Eof && startIndex < endIndex {
        lineStart, lineLen := TakeRest();
        return true, 0, lineStart, lineLen, Ok;
      }
      return err != Ok, next, 0, 0, err;
    }

    lemma NotTorn()
      requires Valid() && LF !in buffer[startIndex..endIndex]
      ensures !Torn()
    {
      assert startIndex < endIndex ==> buffer[startIndex..endIndex][0] == buffer[startIndex];
    }

    /**
     A window without line feed that fills a buffer beyond the limit is too long; one that ends the stream is the line.
     */
    lemma NoLineYet(maxLength: uint32)
      requires Valid() && LF !in buffer[startIndex..endIndex]
      ensures endIndex - startIndex == bufferLen >= maxLength ==> TooLong(Stream(), bufferLen, maxLength)
      ensures endIndex - startIndex == bufferLen > 0 && maxLength + 2 > UINT32_MAX ==>
                TooLong(Stream(), bufferLen, maxLength)
      ensures socket.remaining == [] && endIndex - startIndex < bufferLen ==> !TooLong(Stream(), bufferLen, maxLength)
      ensures bufferLen == 0 < maxLength ==> !TooLong(Stream(), bufferLen, maxLength)
      ensures socket.remaining == [] ==> LineBytes(Stream()) == LineText(Stream()) == Stream()
      ensures Stream() == [] <==> startIndex == endIndex && socket.remaining == []
    {
      NotFound(Window(), socket.remaining);
      assert |Window()| == endIndex - startIndex;
    }

    /** The first done bytes of s have been taken, after c, and are in dest[off..]. */
    ghost predicate Taken(dest: array<byte>, off: nat, done: nat, s: seq<byte>, c: seq<byte>)
      reads this, socket, buffer, dest
    {
      && Valid() && done <= |s| && Stream() == s[done..] && consumed == c + s[..done]
      && off + done <= dest.Length && dest[off..off + done] == s[..done]
    }

    /** One read behind the first done bytes of dest[off..off + len]. */
    method ReadPart(dest: array<byte>, off: nat, len: uint32, done: nat, ghost s: seq<byte>, ghost c: seq<byte>)
      returns (n: uint32, err: HttpError)
      requires off + len <= dest.Length && dest != buffer && done < len && Taken(dest, off, done, s, c)
      modifies this, socket, buffer, dest
      ensures buffer == old(buffer) && bufferLen == old(bufferLen) && origin == old(origin)
      ensures dest[..off] == old(dest[..off]) && dest[off + len..] == old(dest[off + len..])
      ensures err == (if done == |s| then Eof else Ok) && (err == Ok ==> n > 0) && (err == Eof ==> n == 0)
      ensures done + n <= len && Taken(dest, off, done + n, s, c)
    {
      hide Stream, Window;
      ghost var before := dest[..];
      n, err := Read(dest, off + done, len - done);
      FixedStep(s, c, done, dest[off + done..off + done + n], Stream());
      Grown(before, dest[..], off, done, n);
      FrameStep(before, dest[..], off, done, n, len);
    }

    /** The loop of readFixedLength. */
    method ReadFully(dest: array<byte>, off: nat, len: uint32, ghost s: seq<byte>, ghost c: seq<byte>)
      returns (err: HttpError, ghost done: nat)
      requires off + len <= dest.Length && dest != buffer && Taken(dest, off, 0, s, c)
      modifies this, socket, buffer, dest
      ensures buffer == old(buffer) && bufferLen == old(bufferLen) && origin == old(origin)
      ensures dest[..off] == old(dest[..off]) && dest[off + len..] == old(dest[off + len..])
      ensures Taken(dest, off, done, s, c)
      ensures (err == Ok && done == len) || (err == Eof && done == |s| < len)
    {
      hide Taken;
      var read: nat := 0;
      while read < len
        invariant buffer == old(buffer) && bufferLen == old(bufferLen) && origin == old(origin)
        invariant dest[..off] == old(dest[..off]) && dest[off + len..] == old(dest[off + len..])
        invariant read <= len && Taken(dest, off, read, s, c)
      {
        var bytesRead, e := ReadPart(dest, off, len, read, s, c);
        if e != Ok {
          return e, read;
        }
        if bytesRead == 0 {
          return Eof, read;
        }
        read := read + bytesRead;
      }
      return Ok, read;
    }

    /** Fills dest[off..off + len], or reads to the end of the stream. */
    method ReadFixedLength(dest: array<byte>, off: nat, len: uint32) returns (err: HttpError)
      requires Valid() && off + len <= dest.Length && dest != buffer
      modifies this, socket, buffer, dest
      ensures Valid() && buffer == old(buffer) && bufferLen == old(bufferLen) && origin == old(origin)
      ensures dest[..off] == old(dest[..off]) && dest[off + len..] == old(dest[off + len..])
      ensures err == if |old(Stream())| >= len then Ok else Eof
      ensures err == Ok ==>
                dest[off..off + len] == old(Stream())[..len] && consumed == old(consumed) + old(Stream())[..len]
      ensures err == Ok ==> Stream() == old(Stream())[len..]
      ensures err == Eof ==> consumed == old(consumed) + old(Stream()) && Stream() == []
    {
      hide Stream, Window;
      ghost var s, c := Stream(), consumed;
      Rejoin(c, s, 0);
      ghost var done;
      err, done := ReadFully(dest, off, len, s, c);
      assert err == Eof ==> s[..done] == s && s[done..] == [];
    }

    lemma Bounds()
      requires Valid()
      ensures startIndex <= endIndex <= buffer.Length
    {
    }

    /** Makes the buffer at least n bytes long. */
    method Enlarge(n: uint32)
      requires Valid()
      modifies this
      ensures Valid() && (buffer == old(buffer) || fresh(buffer)) && origin == old(origin) && consumed == old(consumed)
      ensures n <= bufferLen && Stream() == old(Stream()) && Window() == old(Window())
      ensures startIndex == old(startIndex) && endIndex == old(endIndex)
      ensures if n <= old(bufferLen) then bufferLen == old(bufferLen) else bufferLen == CheckedDouble(n)
    {
      if n > bufferLen {
        var newBufferLen := CheckedDouble(n);
        var newPtr := new byte[newBufferLen];
        Copy(newPtr, 0, buffer, 0, bufferLen);
        SliceOfPrefix(newPtr[..], buffer[..], bufferLen, startIndex, endIndex);
        assert newPtr[startIndex..endIndex] == newPtr[..][startIndex..endIndex] == Window();
        buffer, bufferLen := newPtr, newBufferLen;
      }
    }

    /** Makes the buffer and the room behind the start of the window at least n bytes long. */
    method Prepare(n: uint32)
      requires Valid()
      modifies this, buffer
      ensures Valid() && (buffer == old(buffer) || fresh(buffer)) && origin == old(origin) && consumed == old(consumed)
      ensures startIndex + n <= bufferLen && Stream() == old(Stream()) && Window() == old(Window())
      ensures startIndex == old(startIndex) || startIndex == 0
      ensures old(startIndex) + n <= old(bufferLen) ==> startIndex == old(startIndex)
      ensures n <= old(bufferLen) ==> bufferLen == old(bufferLen)
    {
      hide CheckedDouble, Stream, Window;
      Enlarge(n);
      if bufferLen - startIndex < n {
        Compact();
      }
    }

    /** The window and the expected bytes agree as far as both go. */
    ghost predicate Agrees(expected: seq<byte>)
      reads this, buffer
    {
      && startIndex <= endIndex <= buffer.Length
      && var k := Min(endIndex - startIndex, |expected|); Window()[..k] == expected[..k]
    }

    /** What agreement means for the stream, once there is enough of it or no more of it. */
    lemma AgreesWithStream(expected: seq<byte>)
      requires Valid()
      ensures endIndex - startIndex < |expected| ==> (Agrees(expected) <==> Window() <= expected)
      ensures endIndex - startIndex >= |expected| && Agrees(expected) ==> expected <= Stream()
      ensures endIndex - startIndex < |expected| && socket.remaining == [] && Agrees(expected) ==>
                Stream() <= expected && |Stream()| < |expected|
      ensures startIndex <= |expected| <= endIndex && Agrees(expected) ==>
                expected[..|expected| - startIndex] <= Stream()
    {
      assert expected[..|expected|] == expected;
      assert Window()[..endIndex - startIndex] == Window();
    }

    /** Compares what the window holds beyond the bytes already compared. */
    method Compare(expected: seq<byte>, from: nat) returns (same: bool)
      requires Valid() && from <= Min(endIndex - startIndex, |expected|)
      requires buffer[startIndex..startIndex + from] == expected[..from]
      ensures same <==> Agrees(expected)
      ensures !same ==> !(expected <= Stream()) && !(Stream() <= expected)
    {
      var k := Min(endIndex - startIndex, |expected|);
      same := buffer[startIndex + from..startIndex + k] == expected[from..k];
      ghost var w := Window();
      SliceOfSlice(buffer[..], startIndex, endIndex, from, k);
      SliceOfSlice(buffer[..], startIndex, endIndex, 0, from);
      SameSoFar(w, expected, from, k);
      if !same {
        Mismatch(w, socket.remaining, expected, k);
      }
    }

    /** One more read, and a look at what it brought. */
    method PeekMore(expected: seq<byte>, checkIndex: nat) returns (same: bool, err: HttpError)
      requires Valid() && endIndex < |expected| <= bufferLen && checkIndex == endIndex - startIndex && Agrees(expected)
      modifies this, socket, buffer
      ensures Valid() && buffer == old(buffer) && bufferLen == old(bufferLen) && origin == old(origin)
      ensures consumed == old(consumed) && startIndex == old(startIndex) && Stream() == old(Stream())
      ensures err == Ok || err == Eof
      ensures err == Eof ==> !same && Stream() <= expected && startIndex + |Stream()| < |expected|
      ensures err == Ok ==> |socket.remaining| < |old(socket.remaining)| && (same <==> Agrees(expected))
      ensures err == Ok && !same ==> !(expected <= Stream()) && !(Stream() <= expected)
    {
      hide Stream, Window;
      AgreesWithStream(expected);
      ghost var w := buffer[startIndex..endIndex];
      WindowIs();
      err := Refill();
      WindowIs();
      AgreesWithStream(expected);
      if err != Ok {
        return false, err;
      }
      assert buffer[startIndex..startIndex + checkIndex] == w == expected[..checkIndex];
      same := Compare(expected, checkIndex);
    }

    /** The loop that compares as it reads, up to an index that is counted from the start of the buffer. */
    method PeekOn(expected: seq<byte>) returns (same: bool, err: HttpError)
      requires Valid() && startIndex + |expected| <= bufferLen
      modifies this, socket, buffer
      ensures Valid() && buffer == old(buffer) && bufferLen == old(bufferLen) && origin == old(origin)
      ensures consumed == old(consumed) && startIndex == old(startIndex) && Stream() == old(Stream())
      ensures err == Ok || (err == Eof && !same)
      ensures err == Eof <==> Stream() <= expected && startIndex + |Stream()| < |expected|
      ensures err == Ok ==> (same <==> Agrees(expected)) && (same ==> endIndex >= |expected|)
      ensures err == Ok && !same ==> !(expected <= Stream()) && !(Stream() <= expected)
      ensures old(endIndex) >= |expected| ==> Window() == old(Window())
    {
      hide Stream, Window, Agrees;
      WindowIs();
      same := Compare(expected, 0);
      if !same {
        return false, Ok;
      }
      while endIndex < |expected|
        invariant Valid() && buffer == old(buffer) && bufferLen == old(bufferLen) && origin == old(origin)
        invariant consumed == old(consumed) && startIndex == old(startIndex) && Stream() == old(Stream())
        invariant Agrees(expected)
        invariant old(endIndex) >= |expected| ==> Window() == old(Window()) && endIndex == old(endIndex)
        decreases |socket.remaining|
      {
        same, err := PeekMore(expected, endIndex - startIndex);
        if err != Ok || !same {
          return;
        }
      }
      WindowIs();
      return true, Ok;
    }

    /**
     Looks ahead for some expected bytes without taking them. The loop counts from the start of the buffer, not of the
     window: with the window at the front, or long enough already, the answer is exact; otherwise a window that reaches
     far enough into the buffer passes for a match on the strength of the bytes it holds.
     */
    method PeekMatch(expected: seq<byte>) returns (same: bool, err: HttpError)
      requires Valid() && |expected| <= UINT32_MAX
      modifies this, socket, buffer
      ensures Valid() && (buffer == old(buffer) || fresh(buffer)) && origin == old(origin) && consumed == old(consumed)
      ensures Stream() == old(Stream())
      ensures startIndex == old(startIndex) || startIndex == 0
      ensures old(startIndex) + |expected| <= old(bufferLen) ==> startIndex == old(startIndex)
      ensures |expected| <= old(bufferLen) ==> bufferLen == old(bufferLen)
      ensures err == Ok || (err == Eof && !same)
      ensures err == Eof <==> Stream() <= expected && startIndex + |Stream()| < |expected|
      ensures err == Ok ==> (same <==> Agrees(expected)) && (same ==> endIndex >= |expected|)
      ensures err == Ok && !same ==> !(expected <= Stream()) && !(Stream() <= expected)
      ensures startIndex == 0 || |old(Window())| >= |expected| ==> (same <==> expected <= Stream())
      ensures same && startIndex <= |expected| ==> expected[..|expected| - startIndex] <= Stream()
      ensures startIndex > 0 && |old(Window())| < |expected| <= startIndex + |old(Window())| ==>
                err == Ok && (same <==> old(Window()) <= expected)
    {
      hide Stream, Window, Agrees;
      WindowIs();
      Prepare(|expected|);
      WindowIs();
      same, err := PeekOn(expected);
      WindowIs();
      AgreesWithStream(expected);
    }

    lemma WindowIs()
      requires Valid()
      ensures Stream() == Window() + socket.remaining && |Window()| == endIndex - startIndex
      ensures buffer[startIndex..endIndex] == Window()
    {
    }

    /** The window is empty but not at the front of the buffer, as after a read that took all of it. */
    predicate Stale()
      reads this
    {
      0 < startIndex == endIndex
    }

    /** How many bytes are left by the indices, which discard can leave crossed. */
    ghost function Left(): int
      reads this, socket
    {
      endIndex - startIndex + |socket.remaining|
    }

    ghost predicate Shape()
      reads this, buffer
    {
      buffer.Length == bufferLen && startIndex <= bufferLen && endIndex <= bufferLen
    }

    /** The window, or with crossed indices all that stands before its end, and then the source: a tail of s. */
    ghost predicate TailOf(s: seq<byte>)
      reads this, socket, buffer
    {
      endIndex <= buffer.Length && IsTail(FromFront() + socket.remaining, s)
    }

    /**
     After k bytes of s have been dropped, and skew bytes have been skipped: none when exact, where the window is not
     stale unless the source is at its end.
     */
    ghost predicate Progress(exact: bool, s: seq<byte>, c: seq<byte>, k: nat, skew: int)
      reads this, socket, buffer
    {
      && TailOf(s) && Left() == |s| - skew - k
      && (exact ==>
            && Valid() && skew == 0 && k <= |s| && consumed == c + s[..k] && origin == c + s
            && (Stale() ==> socket.remaining == []))
    }

    /** How many bytes have been skipped between two rounds, by a discard of n that started stale at start. */
    ghost predicate Skewed(skew: int, start: nat, n: nat)
      reads this
    {
      && start > 0 && (startIndex == 0 || startIndex == start)
      && (|| (skew == 0 && startIndex == endIndex == start)
          || Skips(skew, start)
          || (startIndex == 0 && Skipped(skew, start, n)))
    }

    /**
     Drops n bytes. Ok means that more than n bytes were left, since a further read is tried even when nothing is
     missing. A stale window is not reset before the buffer is refilled; then some bytes are skipped, all of them if the
     result is Eof, and the indices can end up crossed. A buffer of no bytes cannot be refilled.
     */
    method Discard(n: uint32) returns (err: HttpError)
      requires Valid()
      modifies this, socket, buffer
      ensures buffer == old(buffer) && bufferLen == old(bufferLen) && err in {Ok, Eof}
      ensures !old(Stale()) || old(Stream()) == [] ==> Valid() && origin == old(origin)
      ensures (!old(Stale()) || old(Stream()) == []) && bufferLen > 0 ==>
                && err == (if |old(Stream())| > n then Ok else Eof)
                && consumed == old(consumed) + (if err == Ok then old(Stream())[..n] else old(Stream()))
                && Stream() == (if err == Ok then old(Stream())[n..] else [])
      ensures bufferLen == 0 ==> err == Eof && consumed == old(consumed) && Stream() == old(Stream())
      ensures bufferLen > 0 && err == Eof ==> Left() == 0 && startIndex == endIndex
      ensures old(Stale()) && old(Stream()) != [] && err == Ok ==>
                Skipped(|old(Stream())| - n - Left(), old(startIndex), n)
      ensures startIndex <= endIndex <= buffer.Length ==> IsTail(Stream(), old(Stream()))
      ensures startIndex > endIndex ==> old(Stale()) && old(Stream()) != [] && err == Ok
    {
      ghost var s, c, exact, start := Stream(), consumed, !Stale() || Stream() == [], startIndex;
      Begin(exact, s, n);
      hide *;
      ghost var k, skew;
      err, k, skew := DiscardRounds(n, exact, s, c, start);
      Finish(err, exact, s, c, k, skew, start, n);
    }

    /** The loop of discard. */
    method DiscardRounds(n: uint32, ghost exact: bool, ghost s: seq<byte>, ghost c: seq<byte>, ghost start: nat)
      returns (err: HttpError, ghost k: nat, ghost skew: int)
      requires Shape() && Progress(exact, s, c, 0, 0) && (exact || Skewed(0, start, n))
      modifies this, socket, buffer
      ensures buffer == old(buffer) && bufferLen == old(bufferLen) && origin == old(origin)
      ensures err in {Ok, Eof} && k <= n && Progress(exact, s, c, k, skew)
      ensures err == Ok ==> k == n && startIndex != endIndex && (exact || Skipped(skew, start, n))
      ensures err == Eof ==> startIndex == endIndex && (bufferLen > 0 ==> socket.remaining == [])
      ensures bufferLen == 0 ==> err == Eof && k == 0
    {
      hide Progress, Skewed, Skipped, Shape;
      var discardBytes := n;
      k, skew := 0, 0;
      while true
        invariant Shape() && buffer == old(buffer) && bufferLen == old(bufferLen) && origin == old(origin)
        invariant 0 <= discardBytes <= n && k == n - discardBytes
        invariant Progress(exact, s, c, k, skew) && (exact || Skewed(skew, start, n))
        invariant bufferLen == 0 ==> discardBytes == n
        decreases |socket.remaining|
      {
        var done;
        done, err, discardBytes, skew := DiscardRound(discardBytes, exact, s, c, k, skew, start, n);
        k := n - discardBytes;
        if done {
          return;
        }
      }
    }

    lemma Begin(exact: bool, s: seq<byte>, n: nat)
      requires Valid() && s == Stream() && exact == (!Stale() || s == [])
      ensures Shape() && Progress(exact, s, consumed, 0, 0) && (exact || Skewed(0, startIndex, n))
      ensures bufferLen == 0 ==> exact
    {
      if Stale() { EmptyWindow(); }
      assert consumed + s[..0] == consumed;
    }

    /** What the last round says about the whole. */
    lemma Finish(err: HttpError, exact: bool, s: seq<byte>, c: seq<byte>, k: nat, skew: int, start: nat, n: nat)
      requires err in {Ok, Eof} && Progress(exact, s, c, k, skew) && k <= n
      requires err == Ok ==> k == n && startIndex != endIndex && (exact || Skipped(skew, start, n))
      requires err == Eof ==> startIndex == endIndex && (bufferLen > 0 ==> socket.remaining == [])
      requires bufferLen == 0 ==> err == Eof && k == 0 && exact
      ensures exact ==> Valid() && origin == c + s
      ensures exact && bufferLen > 0 ==>
                && err == (if |s| > n then Ok else Eof)
                && consumed == c + (if err == Ok then s[..n] else s)
                && Stream() == (if err == Ok then s[n..] else [])
      ensures bufferLen == 0 ==> consumed == c && Stream() == s
      ensures bufferLen > 0 && err == Eof ==> Left() == 0
      ensures !exact && err == Ok ==> Skipped(|s| - n - Left(), start, n)
      ensures startIndex <= endIndex <= buffer.Length ==> IsTail(Stream(), s)
      ensures startIndex > endIndex ==> !exact && err == Ok
    {
      if exact {
        Rejoin(c, s, k);
        WindowIs();
      }
    }

    /** One round: drops what the window has, and refills the buffer unless that was enough. */
    method DiscardRound(
        d: uint32, ghost exact: bool, ghost s: seq<byte>, ghost c: seq<byte>, ghost k: nat, ghost skew: int,
        ghost start: nat, ghost n: nat)
      returns (done: bool, err: HttpError, left: uint32, ghost skew1: int)
      requires Shape() && Progress(exact, s, c, k, skew) && (exact || Skewed(skew, start, n)) && d <= n
      modifies this, socket, buffer
      ensures buffer == old(buffer) && bufferLen == old(bufferLen) && origin == old(origin) && left <= d
      ensures err in {Ok, Eof} && (err == Eof ==> done)
      ensures Progress(exact, s, c, k + (d - left), skew1)
      ensures done && err == Ok ==> left == 0 && startIndex != endIndex && (exact || Skipped(skew1, start, n))
      ensures !done ==> Shape() && |socket.remaining| < |old(socket.remaining)| && (exact || Skewed(skew1, start, n))
      ensures err == Eof ==> startIndex == endIndex && (bufferLen > 0 ==> socket.remaining == [])
      ensures bufferLen == 0 ==> err == Eof && left == d
    {
      hide Progress, Skips, Left, TailOf;
      done, left, skew1 := DropWindow(d, exact, s, c, k, skew);
      if done {
        return true, Ok, 0, skew1;
      }
      ghost var skew0 := skew1;
      err, skew1 := Load(exact, s, c, k + (d - left), skew1);
      done := err != Ok;
      if !exact && err == Ok { SkipsMore(skew0, start); }
    }

    /** Drops up to d bytes of the window; a window dropped entirely is reset to the front of the buffer. */
    method DropWindow(
        d: uint32, ghost exact: bool, ghost s: seq<byte>, ghost c: seq<byte>, ghost k: nat, ghost skew: int)
      returns (done: bool, left: uint32, ghost skew1: int)
      requires Shape() && Progress(exact, s, c, k, skew)
      modifies this
      ensures buffer == old(buffer) && bufferLen == old(bufferLen) && origin == old(origin) && left <= d
      ensures done ==> left == 0 && startIndex != endIndex
      ensures Progress(exact, s, c, k + (d - left), skew1)
      ensures !done ==> Shape() && startIndex == endIndex && (startIndex == 0 || startIndex == old(startIndex))
      ensures !done && startIndex != 0 ==> old(endIndex) == startIndex
      ensures skew1 == skew
           || (skew1 == skew - 0x1_0000_0000 && old(startIndex) + d > UINT32_MAX && (done || startIndex == 0))
      ensures old(startIndex == endIndex) ==> !done && startIndex == old(startIndex) && skew1 == skew
      ensures bufferLen == 0 ==> !done && left == d
    {
      hide Progress, Uint32;
      var available := Available();
      if available > d {
        skew1 := DropPart(d, exact, s, c, k, skew);
        return true, 0, skew1;
      }
      if available > 0 {
        skew1 := DropAll(exact, s, c, k, skew);
        return false, d - available, skew1;
      }
      return false, d, skew;
    }

    /** The difference of the indices as the source takes it. */
    function Available(): (n: uint32)
      reads this
      ensures n == endIndex - startIndex + if startIndex <= endIndex then 0 else 0x1_0000_0000
    {
      Uint32Range(endIndex - startIndex);
      Uint32(endIndex - startIndex)
    }

    method DropPart(d: uint32, ghost exact: bool, ghost s: seq<byte>, ghost c: seq<byte>, ghost k: nat, ghost skew: int)
      returns (ghost skew1: int)
      requires Shape() && Progress(exact, s, c, k, skew) && Available() > d
      modifies this
      ensures buffer == old(buffer) && bufferLen == old(bufferLen) && origin == old(origin)
      ensures startIndex != endIndex && Progress(exact, s, c, k + d, skew1)
      ensures skew1 == skew || (skew1 == skew - 0x1_0000_0000 && old(startIndex) + d > UINT32_MAX)
    {
      hide Uint32, Progress, Stream, Valid, IsTail;
      ghost var start, w := startIndex, FromFront();
      Uint32Range(start + d);
      Uint32Wrap(start + d);
      Opened(exact, s, c, k, skew);
      startIndex := Uint32(startIndex + d);
      skew1 := if startIndex < start then skew - 0x1_0000_0000 else skew;
      if start <= endIndex {
        if exact { consumed := consumed + w[..d]; }
        MovedOn(exact, w, s, c, k, d, skew1);
      } else {
        MovedCrossed(w, s, c, k, d, skew1);
      }
    }

    method DropAll(ghost exact: bool, ghost s: seq<byte>, ghost c: seq<byte>, ghost k: nat, ghost skew: int)
      returns (ghost skew1: int)
      requires Shape() && Progress(exact, s, c, k, skew) && startIndex != endIndex
      modifies this
      ensures buffer == old(buffer) && bufferLen == old(bufferLen) && origin == old(origin) && Shape()
      ensures startIndex == endIndex == 0 && Progress(exact, s, c, k + old(Available()), skew1)
      ensures skew1 == skew - if old(startIndex <= endIndex) then 0 else 0x1_0000_0000
    {
      hide Uint32, Progress, Stream, Valid, IsTail;
      ghost var w, available := FromFront(), Available();
      Opened(exact, s, c, k, skew);
      skew1 := if startIndex > endIndex then skew - 0x1_0000_0000 else skew;
      startIndex, endIndex := 0, 0;
      if exact { consumed := consumed + w; }
      MovedAll(exact, w, s, c, k, available, skew1);
    }

    /** The window, or with crossed indices all that stands before its end. */
    ghost function FromFront(): (w: seq<byte>)
      reads this, buffer
      requires endIndex <= buffer.Length
      ensures |w| == if startIndex <= endIndex then endIndex - startIndex else endIndex
    {
      buffer[if startIndex <= endIndex then startIndex else 0..endIndex]
    }

    lemma Opened(exact: bool, s: seq<byte>, c: seq<byte>, k: nat, skew: int)
      requires Progress(exact, s, c, k, skew)
      ensures endIndex <= buffer.Length && IsTail(FromFront() + socket.remaining, s) && Left() == |s| - skew - k
      ensures exact ==>
                && Shape() && startIndex <= endIndex && skew == 0 && k <= |s|
                && s[k..] == FromFront() + socket.remaining && consumed == c + s[..k] && origin == c + s
                && (Stale() ==> socket.remaining == [])
    {
    }

    /** Progress after d more bytes, for which the first m bytes of w have been dropped. */
    lemma Moved(exact: bool, w: seq<byte>, m: nat, s: seq<byte>, c: seq<byte>, k: nat, d: nat, skew: int)
      requires endIndex <= buffer.Length && m <= |w| && FromFront() == w[m..] && IsTail(w + socket.remaining, s)
      requires Left() == |s| - skew - (k + d)
      requires exact ==>
                 && Shape() && startIndex <= endIndex && skew == 0 && m == d && k <= |s|
                 && s[k..] == w + socket.remaining && consumed == c + s[..k] + w[..m] && origin == c + s
                 && (Stale() ==> socket.remaining == [])
      ensures Progress(exact, s, c, k + d, skew)
    {
      TailDrop(w, socket.remaining, m, s);
      if exact { TakeStep(s, c, k, w, socket.remaining, m); }
    }

    /** The same for the first d bytes of the window w. */
    lemma MovedOn(exact: bool, w: seq<byte>, s: seq<byte>, c: seq<byte>, k: nat, d: nat, skew: int)
      requires d <= startIndex < endIndex <= buffer.Length && w == buffer[startIndex - d..endIndex]
      requires IsTail(w + socket.remaining, s) && Left() == |s| - skew - (k + d)
      requires exact ==>
                 && Shape() && skew == 0 && k <= |s| && s[k..] == w + socket.remaining
                 && consumed == c + s[..k] + w[..d] && origin == c + s
      ensures Progress(exact, s, c, k + d, skew)
    {
      hide Progress, IsTail, Left;
      SliceOfSlice(buffer[..], startIndex - d, endIndex, d, |w|);
      Moved(exact, w, d, s, c, k, d, skew);
    }

    /** The same behind crossed indices, which may or may not have been uncrossed. */
    lemma MovedCrossed(w: seq<byte>, s: seq<byte>, c: seq<byte>, k: nat, d: nat, skew: int)
      requires endIndex <= buffer.Length && w == buffer[0..endIndex]
      requires IsTail(w + socket.remaining, s) && Left() == |s| - skew - (k + d)
      ensures Progress(false, s, c, k + d, skew)
    {
      hide Progress, IsTail, Left;
      var m := if startIndex <= endIndex then startIndex else 0;
      SliceOfSlice(buffer[..], 0, endIndex, m, |w|);
      Moved(false, w, m, s, c, k, d, skew);
    }

    /** The same for all of w, and a window that has been reset to the front. */
    lemma MovedAll(exact: bool, w: seq<byte>, s: seq<byte>, c: seq<byte>, k: nat, d: nat, skew: int)
      requires startIndex == endIndex == 0 && IsTail(w + socket.remaining, s)
      requires Left() == |s| - skew - (k + d)
      requires exact ==>
                 && Shape() && skew == 0 && |w| == d && k <= |s|
                 && s[k..] == w + socket.remaining && consumed == c + s[..k] + w && origin == c + s
      ensures Progress(exact, s, c, k + d, skew)
    {
      hide Progress, IsTail, Left;
      assert w[..|w|] == w && w[|w|..] == [] == FromFront();
      Moved(exact, w, |w|, s, c, k, d, skew);
    }

    /** Fills the buffer from its front; the window then starts where it stood before. */
    method Load(ghost exact: bool, ghost s: seq<byte>, ghost c: seq<byte>, ghost k: nat, ghost skew: int)
      returns (err: HttpError, ghost skew1: int)
      requires Shape() && startIndex == endIndex && Progress(exact, s, c, k, skew)
      modifies this`endIndex, socket, buffer
      ensures Shape() && err in {Ok, Eof} && Progress(exact, s, c, k, skew1)
      ensures skew1 == if err == Ok then skew + startIndex else skew
      ensures bufferLen == 0 ==> err == Eof
      ensures err == Ok ==> |socket.remaining| < |old(socket.remaining)|
      ensures err == Eof ==> startIndex == endIndex && (bufferLen > 0 ==> socket.remaining == [])
    {
      var bytesRead;
      bytesRead, err := socket.Read(buffer, 0, bufferLen);
      if err == Ok {
        endIndex := bytesRead;
      }
      skew1 := if err == Ok then skew + startIndex else skew;
    }
  }
}
