/** Python's `urllib.parse.quote(s)` with its default `safe='/'`: the string
    is encoded as UTF-8 and every byte that is not an unreserved character
    (section 2.3 of RFC 3986: letters, digits, `-`, `.`, `_`, `~`) or `/`
    becomes `%XX` with two upper-case hexadecimal digits (section 2.1 of
    RFC 3986). A decoder is defined beside it to show that no information
    is lost. */
module Quote {
  import opened Wrappers

  type Byte = b: int | 0 <= b < 256

  /** Characters `quote` leaves as they are. */
  predicate IsSafe(c: char)
  {
    ('A' <= c <= 'Z') || ('a' <= c <= 'z') || ('0' <= c <= '9')
    || c == '_' || c == '.' || c == '-' || c == '~' || c == '/'
  }

  predicate IsHexDigit(c: char)
  {
    ('0' <= c <= '9') || ('A' <= c <= 'F')
  }

  /** Code points Dafny's `char` can hold: Unicode scalar values. */
  predicate IsScalar(n: int)
  {
    (0 <= n < 0xD800) || (0xE000 <= n < 0x11_0000)
  }

  // ---------------------------------------------------------------- UTF-8

  /** The UTF-8 bytes of one character. */
  function Utf8Char(c: char): (bs: seq<Byte>)
    ensures 1 <= |bs| <= 4
    ensures (|bs| == 1) == (c as int < 0x80)
  {
    var n := c as int;
    if n < 0x80 then [n]
    else if n < 0x800 then [0xC0 + n / 64, 0x80 + n % 64]
    else if n < 0x1_0000 then [0xE0 + n / 4096, 0x80 + (n / 64) % 64, 0x80 + n % 64]
    else [0xF0 + n / 262144, 0x80 + (n / 4096) % 64, 0x80 + (n / 64) % 64, 0x80 + n % 64]
  }

  /** `s.encode('utf-8')`. */
  function Utf8Encode(s: string): seq<Byte>
  {
    if s == [] then [] else Utf8Char(s[0]) + Utf8Encode(s[1..])
  }

  predicate IsCont(b: Byte)
  {
    0x80 <= b < 0xC0
  }

  /** The character whose encoding starts `bs`, and the number of bytes
      it takes, if `bs` starts with a well-formed sequence. */
  function Utf8DecodeOne(bs: seq<Byte>): (r: Option<(char, nat)>)
    ensures r.Some? ==> 1 <= r.value.1 <= |bs|
  {
    if |bs| == 0 then None
    else if bs[0] < 0x80 then Some((bs[0] as char, 1))
    else if 0xC0 <= bs[0] < 0xE0 && |bs| >= 2 && IsCont(bs[1]) then
      var n := (bs[0] as int - 0xC0) * 64 + (bs[1] as int - 0x80);
      if IsScalar(n) then Some((n as char, 2)) else None
    else if 0xE0 <= bs[0] < 0xF0 && |bs| >= 3 && IsCont(bs[1]) && IsCont(bs[2]) then
      var n := (bs[0] as int - 0xE0) * 4096 + (bs[1] as int - 0x80) * 64 + (bs[2] as int - 0x80);
      if IsScalar(n) then Some((n as char, 3)) else None
    else if 0xF0 <= bs[0] < 0xF8 && |bs| >= 4 && IsCont(bs[1]) && IsCont(bs[2]) && IsCont(bs[3]) then
      var n := (bs[0] as int - 0xF0) * 262144 + (bs[1] as int - 0x80) * 4096 + (bs[2] as int - 0x80) * 64 + (bs[3] as int - 0x80);
      if IsScalar(n) then Some((n as char, 4)) else None
    else None
  }

  /** `bs.decode('utf-8')`, as a partial function. */
  function Utf8Decode(bs: seq<Byte>): Option<string>
    decreases |bs|
  {
    if bs == [] then Some([])
    else match Utf8DecodeOne(bs)
      case None => None
      case Some((c, k)) =>
        match Utf8Decode(bs[k..])
        case None => None
        case Some(rest) => Some([c] + rest)
  }

  lemma Utf8CharDecodes(c: char, tail: seq<Byte>)
    ensures Utf8DecodeOne(Utf8Char(c) + tail) == Some((c, |Utf8Char(c)|))
  {
    var n := c as int;
    var bs := Utf8Char(c) + tail;
    if n < 0x80 {
    } else if n < 0x800 {
      assert (n / 64) * 64 + n % 64 == n;
    } else if n < 0x1_0000 {
      assert n / 4096 == (n / 64) / 64;
      assert ((n / 64) / 64) * 64 + (n / 64) % 64 == n / 64;
      assert (n / 4096) * 4096 + ((n / 64) % 64) * 64 + n % 64 == n;
    } else {
      assert n / 4096 == (n / 64) / 64;
      assert n / 262144 == (n / 4096) / 64;
      assert ((n / 4096) / 64) * 64 + (n / 4096) % 64 == n / 4096;
      assert ((n / 64) / 64) * 64 + (n / 64) % 64 == n / 64;
      assert (n / 262144) * 262144 + ((n / 4096) % 64) * 4096 + ((n / 64) % 64) * 64 + n % 64 == n;
    }
  }

  /** Decoding the UTF-8 encoding gives the string back. */
  lemma {:induction false} Utf8RoundTrip(s: string)
    ensures Utf8Decode(Utf8Encode(s)) == Some(s)
  {
    if s != [] {
      var bs := Utf8Encode(s);
      var k := |Utf8Char(s[0])|;
      Utf8CharDecodes(s[0], Utf8Encode(s[1..]));
      assert bs[k..] == Utf8Encode(s[1..]);
      Utf8RoundTrip(s[1..]);
      assert s == [s[0]] + s[1..];
    }
  }

  // ------------------------------------------------------ percent-encoding

  function HexDigit(n: int): (c: char)
    requires 0 <= n < 16
    ensures IsHexDigit(c)
  {
    if n < 10 then (48 + n) as char else (55 + n) as char
  }

  function HexValue(c: char): (r: Option<int>)
    ensures r.Some? <==> IsHexDigit(c)
    ensures r.Some? ==> 0 <= r.value < 16
  {
    if '0' <= c <= '9' then Some(c as int - 48)
    else if 'A' <= c <= 'F' then Some(c as int - 55)
    else None
  }

  /** One byte as `quote` writes it. */
  function QuoteByte(b: Byte): (r: string)
    ensures (b < 0x80 && IsSafe(b as char)) ==> r == [b as char]
    ensures !(b < 0x80 && IsSafe(b as char)) ==>
      |r| == 3 && r[0] == '%' && HexValue(r[1]) == Some(b / 16) && HexValue(r[2]) == Some(b % 16)
  {
    if b < 0x80 && IsSafe(b as char) then [b as char]
    else ['%', HexDigit(b / 16), HexDigit(b % 16)]
  }

  /** `quote_from_bytes(bs, safe='/')`. */
  function QuoteBytes(bs: seq<Byte>): string
  {
    if bs == [] then "" else QuoteByte(bs[0]) + QuoteBytes(bs[1..])
  }

  /** `urllib.parse.quote(s)`. */
  function Quote(s: string): string
  {
    QuoteBytes(Utf8Encode(s))
  }

  /** `unquote_to_bytes`, restricted to text `quote` can produce: every
      `%` starts a two-digit escape and every other character is ASCII. */
  function UnquoteBytes(t: string): Option<seq<Byte>>
    decreases |t|
  {
    if t == [] then Some([])
    else if t[0] == '%' then
      if |t| >= 3 && HexValue(t[1]).Some? && HexValue(t[2]).Some? then
        match UnquoteBytes(t[3..])
        case None => None
        case Some(rest) => Some([HexValue(t[1]).value * 16 + HexValue(t[2]).value] + rest)
      else None
    else if t[0] as int < 0x80 then
      match UnquoteBytes(t[1..])
      case None => None
      case Some(rest) => Some([t[0] as int] + rest)
    else None
  }

  /** `urllib.parse.unquote(t)` on text `quote` can produce. */
  function Unquote(t: string): Option<string>
  {
    match UnquoteBytes(t)
    case None => None
    case Some(bs) => Utf8Decode(bs)
  }

  /** Decoding the quotation of one byte gives the byte back and leaves
      the rest of the text to decode. */
  lemma UnquoteQuoteByte(b: Byte, rest: string)
    ensures UnquoteBytes(QuoteByte(b) + rest) ==
      match UnquoteBytes(rest)
      case None => None
      case Some(tail) => Some([b] + tail)
  {
    var t := QuoteByte(b) + rest;
    if b < 0x80 && IsSafe(b as char) {
      assert t[0] == b as char && t[0] != '%';
      assert t[1..] == rest;
    } else {
      assert t[0] == '%' && t[1] == QuoteByte(b)[1] && t[2] == QuoteByte(b)[2];
      assert t[3..] == rest;
      assert (b / 16) * 16 + b % 16 == b;
    }
  }

  lemma {:induction false} UnquoteBytesRoundTrip(bs: seq<Byte>)
    ensures UnquoteBytes(QuoteBytes(bs)) == Some(bs)
  {
    if bs != [] {
      UnquoteBytesRoundTrip(bs[1..]);
      UnquoteQuoteByte(bs[0], QuoteBytes(bs[1..]));
      assert bs == [bs[0]] + bs[1..];
    }
  }

  /** `unquote(quote(s)) == s`. */
  lemma QuoteRoundTrip(s: string)
    ensures Unquote(Quote(s)) == Some(s)
  {
    UnquoteBytesRoundTrip(Utf8Encode(s));
    Utf8RoundTrip(s);
  }

  /** Different strings are quoted differently. */
  lemma QuoteInjective(s: string, t: string)
    requires Quote(s) == Quote(t)
    ensures s == t
  {
    QuoteRoundTrip(s);
    QuoteRoundTrip(t);
  }

  /** Every character of the quoted text is safe, a `%`, or a hex digit. */
  lemma {:induction false} QuoteBytesAlphabet(bs: seq<Byte>)
    ensures forall i :: 0 <= i < |QuoteBytes(bs)| ==>
      IsSafe(QuoteBytes(bs)[i]) || QuoteBytes(bs)[i] == '%' || IsHexDigit(QuoteBytes(bs)[i])
  {
    if bs != [] {
      QuoteBytesAlphabet(bs[1..]);
    }
  }

  lemma {:induction false} Utf8EncodeAppend(a: string, b: string)
    ensures Utf8Encode(a + b) == Utf8Encode(a) + Utf8Encode(b)
  {
    if a == [] {
      assert a + b == b;
    } else {
      assert (a + b)[1..] == a[1..] + b;
      Utf8EncodeAppend(a[1..], b);
    }
  }

  lemma {:induction false} QuoteBytesAppend(a: seq<Byte>, b: seq<Byte>)
    ensures QuoteBytes(a + b) == QuoteBytes(a) + QuoteBytes(b)
  {
    if a == [] {
      assert a + b == b;
    } else {
      assert (a + b)[1..] == a[1..] + b;
      QuoteBytesAppend(a[1..], b);
    }
  }

  /** Quoting works character by character: `quote(a + b)` is
      `quote(a) + quote(b)`. */
  lemma QuoteAppend(a: string, b: string)
    ensures Quote(a + b) == Quote(a) + Quote(b)
  {
    Utf8EncodeAppend(a, b);
    QuoteBytesAppend(Utf8Encode(a), Utf8Encode(b));
  }

  /** A space becomes `%20`. */
  lemma QuoteSpace()
    ensures Quote(" ") == "%20"
  {
    assert Utf8Encode(" ") == [32];
    assert QuoteBytes([32]) == QuoteByte(32) + QuoteBytes([]);
  }

  /** A string of safe characters is its own quotation. */
  lemma {:induction false} QuoteSafeIdentity(s: string)
    requires forall i :: 0 <= i < |s| ==> IsSafe(s[i])
    ensures Quote(s) == s
  {
    if s != [] {
      QuoteSafeIdentity(s[1..]);
      assert Utf8Encode(s) == [s[0] as int] + Utf8Encode(s[1..]);
      assert s == [s[0]] + s[1..];
    }
  }
}
