/** The static table of RFC 7541 appendix A. */
module HpackStatic {
  import opened Bits

  const STATIC_TABLE_MAX: nat := 61

  /** A name or a value, as octets. */
  type Text = seq<byte>

  function Octets(s: string): Text {
    seq(|s|, i requires 0 <= i < |s| => if s[i] as int < 256 then s[i] as int else 0)
  }

  /** The names, eight to a row. */
  function Names(row: nat): seq<string> {
    match row
    case 0 => [":authority", ":method", ":method", ":path", ":path", ":scheme", ":scheme", ":status"]
    case 1 => [":status", ":status", ":status", ":status", ":status", ":status", "accept-charset", "accept-encoding"]
    case 2 => ["accept-language", "accept-ranges", "accept", "access-control-allow-origin", "age", "allow",
               "authorization", "cache-control"]
    case 3 => ["content-disposition", "content-encoding", "content-language", "content-length", "content-location",
               "content-range", "content-type", "cookie"]
    case 4 => ["date", "etag", "expect", "expires", "from", "host", "if-match", "if-modified-since"]
    case 5 => ["if-none-match", "if-range", "if-unmodified-since", "last-modified", "link", "location",
               "max-forwards", "proxy-authenticate"]
    case 6 => ["proxy-authorization", "range", "referer", "refresh", "retry-after", "server", "set-cookie",
               "strict-transport-security"]
    case _ => ["transfer-encoding", "user-agent", "vary", "via", "www-authenticate"]
  }

  /** The values of the first 16 entries; those of the others are empty. */
  function Values(row: nat): seq<string> {
    match row
    case 0 => ["", "GET", "POST", "/", "/index.html", "http", "https", "200"]
    case _ => ["204", "206", "304", "400", "404", "500", "", "gzip, deflate"]
  }

  lemma RowLengths(row: nat)
    ensures |Names(row)| == (if row < 7 then 8 else 5) && |Values(row)| == 8
  {
  }

  function StaticName(index: nat): Text
    requires 1 <= index <= STATIC_TABLE_MAX
  {
    RowLengths((index - 1) / 8);
    Octets(Names((index - 1) / 8)[(index - 1) % 8])
  }

  function StaticValue(index: nat): Text
    requires 1 <= index <= STATIC_TABLE_MAX
  {
    RowLengths((index - 1) / 8);
    if index <= 16 then Octets(Values((index - 1) / 8)[(index - 1) % 8]) else []
  }
}
