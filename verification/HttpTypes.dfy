/** Error codes and the source of bytes below the HTTP readers. */
module HttpTypes {
  import opened Bits

  datatype HttpError = Ok | ClientError | LineTooLong | Eof

  const LF: byte := 10
  const CR: byte := 13

  /** memcpy between two arrays. */
  method Copy(dest: array<byte>, to: nat, src: array<byte>, from: nat, n: nat)
    requires to + n <= dest.Length && from + n <= src.Length && dest != src
    modifies dest
    ensures dest[to..to + n] == src[from..from + n]
    ensures dest[..to] == old(dest[..to]) && dest[to + n..] == old(dest[to + n..])
  {
    for i := 0 to n
      invariant dest[to..to + i] == src[from..from + i]
      invariant dest[..to] == old(dest[..to]) && dest[to + i..] == old(dest[to + i..])
    {
      dest[to + i] := src[from + i];
    }
  }

  /** memmove to the front of one array. */
  method MoveToFront(a: array<byte>, from: nat, n: nat)
    requires from + n <= a.Length
    modifies a
    ensures a[..n] == old(a[from..from + n])
  {
    for i := 0 to n
      invariant a[..i] == old(a[from..from + i])
      invariant forall k :: i <= k < a.Length ==> a[k] == old(a[k])
    {
      a[i] := a[from + i];
    }
  }

  /**
   A stream that hands out its bytes in fragments of whatever size it likes, at least one byte at a time until the end.
   */
  class StreamSource {
    var remaining: seq<byte>

    constructor (data: seq<byte>)
      ensures remaining == data
    {
      remaining := data;
    }

    /** Reads into buffer[off..off + len]. */
    method Read(buffer: array<byte>, off: nat, len: nat) returns (n: nat, err: HttpError)
      requires off + len <= buffer.Length
      modifies this, buffer
      ensures n <= len && n <= |old(remaining)|
      ensures if len > 0 && old(remaining) != [] then err == Ok && n > 0 else err == Eof && n == 0
      ensures old(remaining) == buffer[off..off + n] + remaining
      ensures buffer[..off] == old(buffer[..off]) && buffer[off + n..] == old(buffer[off + n..])
    {
      if len == 0 || remaining == [] {
        return 0, Eof;
      }
      n :| 1 <= n <= len && n <= |remaining|;
      for i := 0 to n
        invariant remaining == old(remaining)
        invariant buffer[..off] == old(buffer[..off]) && buffer[off..off + i] == remaining[..i]
        invariant buffer[off + i..] == old(buffer[off + i..])
      {
        buffer[off + i] := remaining[i];
      }
      remaining := remaining[n..];
      err := Ok;
    }

    /** Reads into dest[off..off + len] and, when that is full, on into buffer. */
    method Readv(dest: array<byte>, off: nat, len: nat, buffer: array<byte>) returns (n: nat, err: HttpError)
      requires off + len <= dest.Length && dest != buffer
      modifies this, dest, buffer
      ensures n <= len + buffer.Length && n <= |old(remaining)|
      ensures if len + buffer.Length > 0 && old(remaining) != [] then err == Ok && n > 0 else err == Eof && n == 0
      ensures old(remaining) == dest[off..off + Min(n, len)] + buffer[..n - Min(n, len)] + remaining
      ensures dest[..off] == old(dest[..off]) && dest[off + Min(n, len)..] == old(dest[off + Min(n, len)..])
    {
      if len == 0 {
        n, err := Read(buffer, 0, buffer.Length);
        return;
      }
      n, err := Read(dest, off, len);
      if n == len && buffer.Length > 0 && remaining != [] {
        var more: nat :| more <= buffer.Length && more <= |remaining|;
        var m, e := Read(buffer, 0, more);
        n := n + m;
      }
    }
  }
}
