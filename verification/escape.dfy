/** `quote(u, safe='/:')` from `urllib.parse`, used by the handler before it
    forwards a URL: the text is encoded as UTF-8 and every byte outside the
    unreserved set and the two safe characters becomes `%XY` with two
    upper-case hexadecimal digits, as section 2.1 of RFC 3986 describes. */
module Escape {
  import opened Wrappers

  type byte = b: int | 0 <= b < 256

  /** The UTF-8 encoding of one Unicode scalar value (section 3 of RFC 3629). */
  function Utf8Char(c: char): (bs: seq<byte>)
    ensures 1 <= |bs| <= 4
    ensures (c as int < 0x80) <==> |bs| == 1
    ensures |bs| == 1 ==> bs[0] == c as int
  {
    var n := c as int;
    if n < 0x80 then [n]
    else if n < 0x800 then [0xC0 + n / 0x40, 0x80 + n % 0x40]
    else if n < 0x10000 then [0xE0 + n / 0x1000, 0x80 + (n / 0x40) % 0x40, 0x80 + n % 0x40]
    else [0xF0 + n / 0x40000, 0x80 + (n / 0x1000) % 0x40, 0x80 + (n / 0x40) % 0x40, 0x80 + n % 0x40]
  }

  /** `s.encode('utf-8')`. */
  function Utf8(s: string): seq<byte>
    decreases |s|
  {
    if |s| == 0 then [] else Utf8Char(s[0]) + Utf8(s[1..])
  }

  /** A Unicode scalar value: a code point outside the surrogate range. */
  predicate IsScalar(n: int) {
    (0 <= n < 0xD800) || (0xE000 <= n < 0x11_0000)
  }

  /** How many bytes the UTF-8 sequence led by `b` has; 0 when `b` cannot
      lead one. */
  function LeadWidth(b: byte): nat {
    if b < 0x80 then 1
    else if 0xC0 <= b < 0xE0 then 2
    else if 0xE0 <= b < 0xF0 then 3
    else if 0xF0 <= b < 0xF8 then 4
    else 0
  }

  /** Continuation bytes carry the pattern `10xxxxxx`. */
  predicate Continuations(cs: seq<byte>) {
    forall k :: 0 <= k < |cs| ==> 0x80 <= cs[k] < 0xC0
  }

  /** The code point a UTF-8 sequence of `|bs|` bytes spells: the payload
      bits of the lead byte, then six bits from each continuation byte. */
  function Payload(bs: seq<byte>): int
    requires 1 <= |bs| <= 4
  {
    var b: seq<int> := bs;
    if |b| == 1 then b[0]
    else if |b| == 2 then (b[0] - 0xC0) * 0x40 + (b[1] - 0x80)
    else if |b| == 3 then (b[0] - 0xE0) * 0x1000 + (b[1] - 0x80) * 0x40 + (b[2] - 0x80)
    else (b[0] - 0xF0) * 0x4_0000 + (b[1] - 0x80) * 0x1000 + (b[2] - 0x80) * 0x40 + (b[3] - 0x80)
  }

  /** `bs.decode('utf-8')`, as far as inverting the encoder needs: a lead
      byte, its continuation bytes, a scalar value, and so on to the end. */
  function Utf8Decode(bs: seq<byte>): Option<string>
    decreases |bs|
  {
    if |bs| == 0 then Some([])
    else
      var w := LeadWidth(bs[0]);
      if w == 0 || |bs| < w || !Continuations(bs[1..w]) || !IsScalar(Payload(bs[..w])) then None
      else
        match Utf8Decode(bs[w..])
        case None => None
        case Some(rest) => Some([Payload(bs[..w]) as char] + rest)
  }

  /** The encoding of one character is led by a byte announcing its width,
      followed by continuation bytes, and spells the character's code point. */
  lemma Utf8CharDecodes(c: char)
    ensures var bs := Utf8Char(c);
            && LeadWidth(bs[0]) == |bs| && Continuations(bs[1..]) && Payload(bs) == c as int
            && IsScalar(c as int)
  {
    var n := c as int;
    if n < 0x80 {
    } else if n < 0x800 {
      TwoBytes(n);
    } else if n < 0x1_0000 {
      ThreeBytes(n);
    } else {
      FourBytes(n);
    }
  }

  /** The two-byte form spells its code point. */
  lemma TwoBytes(n: int)
    requires 0x80 <= n < 0x800
    ensures var bs: seq<byte> := [0xC0 + n / 0x40, 0x80 + n % 0x40];
            LeadWidth(bs[0]) == 2 && Continuations(bs[1..]) && Payload(bs) == n
  {
  }

  /** The three-byte form spells its code point. */
  lemma ThreeBytes(n: int)
    requires 0x800 <= n < 0x1_0000
    ensures var bs: seq<byte> := [0xE0 + n / 0x1000, 0x80 + (n / 0x40) % 0x40, 0x80 + n % 0x40];
            LeadWidth(bs[0]) == 3 && Continuations(bs[1..]) && Payload(bs) == n
  {
  }

  /** The four-byte form spells its code point. */
  lemma FourBytes(n: int)
    requires 0x1_0000 <= n < 0x11_0000
    ensures var bs: seq<byte> := [0xF0 + n / 0x4_0000, 0x80 + (n / 0x1000) % 0x40, 0x80 + (n / 0x40) % 0x40, 0x80 + n % 0x40];
            LeadWidth(bs[0]) == 4 && Continuations(bs[1..]) && Payload(bs) == n
  {
    var a := n / 0x40;
    var b := a / 0x40;
    assert b == n / 0x1000;
    assert b / 0x40 == n / 0x4_0000;
    assert n == ((b / 0x40) * 0x40 + b % 0x40) * 0x1000 + (a % 0x40) * 0x40 + n % 0x40;
  }

  /** Decoding the encoding gives the text back. */
  lemma {:induction false} Utf8RoundTrip(s: string)
    ensures Utf8Decode(Utf8(s)) == Some(s)
    decreases |s|
  {
    if |s| > 0 {
      var head := Utf8Char(s[0]);
      var bs := Utf8(s);
      Utf8CharDecodes(s[0]);
      assert bs == head + Utf8(s[1..]);
      assert bs[..|head|] == head && bs[|head|..] == Utf8(s[1..]);
      assert bs[1..|head|] == head[1..];
      Utf8RoundTrip(s[1..]);
      assert [s[0]] + s[1..] == s;
    }
  }

  /** Different texts have different encodings. */
  lemma Utf8Injective(s: string, t: string)
    ensures Utf8(s) == Utf8(t) ==> s == t
  {
    Utf8RoundTrip(s);
    Utf8RoundTrip(t);
  }

  predicate IsAsciiAlnum(b: int) {
    ('A' as int <= b <= 'Z' as int) || ('a' as int <= b <= 'z' as int) || ('0' as int <= b <= '9' as int)
  }

  /** Bytes `quote` leaves as they are: `_ALWAYS_SAFE` and the safe set `/:`. */
  predicate Unescaped(b: int) {
    IsAsciiAlnum(b) || b == '_' as int || b == '.' as int || b == '-' as int || b == '~' as int
    || b == '/' as int || b == ':' as int
  }

  const HexDigits: string := "0123456789ABCDEF"

  /** One byte as `quote` writes it. */
  function EscapeByte(b: byte): (t: string)
    ensures |t| == 1 || |t| == 3
  {
    if Unescaped(b) then [b as char] else ['%', HexDigits[b / 16], HexDigits[b % 16]]
  }

  /** `quote_from_bytes(bs, safe='/:')`. */
  function QuoteBytes(bs: seq<byte>): string
    decreases |bs|
  {
    if |bs| == 0 then "" else EscapeByte(bs[0]) + QuoteBytes(bs[1..])
  }

  /** `quote(s, safe='/:')`. */
  function Quote(s: string): string {
    QuoteBytes(Utf8(s))
  }

  /** Characters that may appear in a percent-encoded URL as `quote` writes it. */
  predicate QuotedChar(c: char) {
    Unescaped(c as int) || c == '%' || (c in HexDigits)
  }

  function HexValue(c: char): Option<nat> {
    if '0' <= c <= '9' then Some(c as int - '0' as int)
    else if 'A' <= c <= 'F' then Some(c as int - 'A' as int + 10)
    else if 'a' <= c <= 'f' then Some(c as int - 'a' as int + 10)
    else None
  }

  /** The decoding direction of section 2.1 of RFC 3986, down to bytes: `%XY`
      is the byte `0xXY`, any other character below 256 stands for itself. */
  function Unquote(t: string): Option<seq<byte>>
    decreases |t|
  {
    if |t| == 0 then Some([])
    else if t[0] == '%' then
      if |t| >= 3 && HexValue(t[1]).Some? && HexValue(t[2]).Some? then
        match Unquote(t[3..])
        case Some(rest) => Some([HexValue(t[1]).value * 16 + HexValue(t[2]).value] + rest)
        case None => None
      else None
    else if t[0] as int < 256 then
      match Unquote(t[1..])
      case Some(rest) => Some([t[0] as int] + rest)
      case None => None
    else None
  }

  lemma HexDigitValue(d: nat)
    requires d < 16
    ensures HexValue(HexDigits[d]) == Some(d)
  {
  }

  /** A character below 256 other than `%` decodes to its own code. */
  lemma UnquoteLiteral(c: char, rest: string, bs: seq<byte>)
    requires c != '%' && c as int < 256 && Unquote(rest) == Some(bs)
    ensures Unquote([c] + rest) == Some([c as int] + bs)
  {
    assert ([c] + rest)[1..] == rest;
  }

  /** `%XY` written with upper-case digits decodes to the byte `0xXY`. */
  lemma UnquoteEscape(hi: nat, lo: nat, rest: string, bs: seq<byte>)
    requires hi < 16 && lo < 16 && Unquote(rest) == Some(bs)
    ensures Unquote(['%', HexDigits[hi], HexDigits[lo]] + rest) == Some([hi * 16 + lo] + bs)
  {
    HexDigitValue(hi);
    HexDigitValue(lo);
    assert (['%', HexDigits[hi], HexDigits[lo]] + rest)[3..] == rest;
  }

  /** Decoding what `quote_from_bytes` wrote gives back the bytes. */
  lemma {:induction false} UnquoteQuoteBytes(bs: seq<byte>)
    ensures Unquote(QuoteBytes(bs)) == Some(bs)
    decreases |bs|
  {
    if |bs| > 0 {
      UnquoteQuoteBytes(bs[1..]);
      UnquoteEscapeByte(bs[0], QuoteBytes(bs[1..]), bs[1..]);
      assert bs == [bs[0]] + bs[1..];
    }
  }

  /** One byte as `quote` writes it decodes to that byte. */
  lemma UnquoteEscapeByte(b: byte, rest: string, bs: seq<byte>)
    requires Unquote(rest) == Some(bs)
    ensures Unquote(EscapeByte(b) + rest) == Some([b] + bs)
  {
    if Unescaped(b) {
      UnquoteLiteral(b as char, rest, bs);
    } else {
      UnquoteEscape(b / 16, b % 16, rest, bs);
    }
  }

  /** `quote` loses nothing: its output decodes to the UTF-8 bytes of its input. */
  lemma QuoteRoundTrip(s: string)
    ensures Unquote(Quote(s)) == Some(Utf8(s))
    ensures Utf8Decode(Unquote(Quote(s)).value) == Some(s)
  {
    UnquoteQuoteBytes(Utf8(s));
    Utf8RoundTrip(s);
  }

  /** `quote` never sends two texts to the same escaped form. */
  lemma QuoteInjective(s: string, t: string)
    ensures Quote(s) == Quote(t) ==> s == t
  {
    QuoteRoundTrip(s);
    QuoteRoundTrip(t);
  }

  /** Every character `quote_from_bytes` writes is unreserved, safe, `%` or a hex digit. */
  lemma {:induction false} QuoteBytesAlphabet(bs: seq<byte>)
    ensures forall k :: 0 <= k < |QuoteBytes(bs)| ==> QuotedChar(QuoteBytes(bs)[k])
    decreases |bs|
  {
    if |bs| > 0 {
      QuoteBytesAlphabet(bs[1..]);
      var b := bs[0];
      var head := EscapeByte(b);
      assert QuoteBytes(bs) == head + QuoteBytes(bs[1..]);
      if !Unescaped(b) {
        assert head[1] in HexDigits && head[2] in HexDigits;
      }
      forall k | 0 <= k < |QuoteBytes(bs)| ensures QuotedChar(QuoteBytes(bs)[k]) {
        if k >= |head| {
          assert QuoteBytes(bs)[k] == QuoteBytes(bs[1..])[k - |head|];
        }
      }
    }
  }

  /** The escaped URL holds no character outside the percent-encoding alphabet. */
  lemma QuoteAlphabet(s: string)
    ensures forall k :: 0 <= k < |Quote(s)| ==> QuotedChar(Quote(s)[k])
  {
    QuoteBytesAlphabet(Utf8(s));
  }

  /** A text made only of unreserved and safe ASCII characters is left as it is. */
  lemma {:induction false} QuoteKeepsSafeText(s: string)
    requires forall k :: 0 <= k < |s| ==> Unescaped(s[k] as int)
    ensures Quote(s) == s
    decreases |s|
  {
    if |s| > 0 {
      QuoteKeepsSafeText(s[1..]);
      assert Utf8(s) == [s[0] as int] + Utf8(s[1..]);
      assert Utf8(s)[1..] == Utf8(s[1..]);
      assert s == [s[0]] + s[1..];
    }
  }
}
