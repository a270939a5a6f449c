/** URL construction: the absolute-URL step of `AlistClient.request` and the
    download link of `AlistClient.get_url`, with the percent-encoding of
    section 2.1 of RFC 3986 that `urllib.parse.quote` performs. */
module Urls {
  import opened Prelude
  import opened Text

  // ---------------------------------------------------------------------
  // Absolute request URLs

  predicate IsAbsolute(url: string) {
    StartsWith(url, "http://") || StartsWith(url, "https://")
  }

  /** The URL `request` sends to: an http(s) URL as given, anything else
      as a path below `origin`, with a leading slash supplied if missing. */
  function RequestUrl(origin: string, url: string): (r: string)
    ensures IsAbsolute(url) ==> r == url
    ensures !IsAbsolute(url) ==> StartsWith(r, origin) && StartsWith(r[|origin|..], "/")
    ensures !IsAbsolute(url) && StartsWith(url, "/") ==> r[|origin|..] == url
    ensures !IsAbsolute(url) && !StartsWith(url, "/") ==> r[|origin|..] == "/" + url
  {
    if IsAbsolute(url) then url
    else if StartsWith(url, "/") then origin + url
    else origin + ("/" + url)
  }

  /** Normalising twice is normalising once, for an http(s) origin. */
  lemma RequestUrlIdempotent(origin: string, url: string)
    requires IsAbsolute(origin)
    ensures RequestUrl(origin, RequestUrl(origin, url)) == RequestUrl(origin, url)
  {
    var r := RequestUrl(origin, url);
    if !IsAbsolute(url) {
      if StartsWith(origin, "http://") {
        StartsWithTransitive(r, origin, "http://");
      } else {
        StartsWithTransitive(r, origin, "https://");
      }
    }
  }

  // ---------------------------------------------------------------------
  // Character classes of RFC 3986

  /** `unreserved` of section 2.3: ALPHA / DIGIT / "-" / "." / "_" / "~";
      also Python's always-safe set for `quote`. */
  predicate Unreserved(c: char) {
    ('A' <= c <= 'Z') || ('a' <= c <= 'z') || ('0' <= c <= '9') || c == '-' || c == '.' || c == '_' || c == '~'
  }

  /** `reserved` of section 2.2: gen-delims followed by sub-delims. */
  const Reserved: string := ":/?#[]@" + "!$&'()*+,;="

  /** The `safe` argument `get_url` passes to `quote`. */
  const Safe: string := "@[]:/!$&'()*+,;="

  /** The safe set is exactly the reserved set without "?" and "#". */
  lemma SafeIsReservedWithoutQueryAndFragment()
    ensures forall c :: c in Safe <==> (c in Reserved && c != '?' && c != '#')
  {
  }

  /** Bytes `quote` copies as themselves. */
  predicate KeptLiteral(b: byte) {
    b < 0x80 && (Unreserved(b as char) || b as char in Safe)
  }

  // ---------------------------------------------------------------------
  // Percent-encoding (section 2.1 of RFC 3986)

  predicate IsHex(c: char) {
    ('0' <= c <= '9') || ('A' <= c <= 'F') || ('a' <= c <= 'f')
  }

  /** Upper-case hexadecimal digit, as `quote` writes it. */
  function HexDigit(d: nat): (c: char)
    requires d < 16
    ensures IsHex(c) && Unreserved(c)
  {
    if d < 10 then ('0' as int + d) as char else ('A' as int + d - 10) as char
  }

  function HexValue(c: char): (d: nat)
    requires IsHex(c)
    ensures d < 16
  {
    if '0' <= c <= '9' then c as int - '0' as int
    else if 'A' <= c <= 'F' then c as int - 'A' as int + 10
    else c as int - 'a' as int + 10
  }

  /** Characters `quote` may produce. */
  predicate UrlChar(c: char) {
    Unreserved(c) || c in Safe || c == '%'
  }

  function QuoteByte(b: byte): (s: string)
    ensures forall i :: 0 <= i < |s| ==> UrlChar(s[i])
    ensures KeptLiteral(b) ==> s == [b as char]
    ensures !KeptLiteral(b) ==> s == ['%', HexDigit(b / 16), HexDigit(b % 16)]
  {
    if KeptLiteral(b) then [b as char] else ['%', HexDigit(b / 16), HexDigit(b % 16)]
  }

  /** `quote` over the bytes of a path: every byte outside the kept set
      becomes `%XY`. */
  function Quote(bs: seq<byte>): (s: string)
    ensures forall i :: 0 <= i < |s| ==> UrlChar(s[i])
    ensures '#' !in s && '?' !in s
    ensures |s| >= |bs|
    ensures |bs| == 1 ==> s == QuoteByte(bs[0])
    ensures (forall i :: 0 <= i < |bs| ==> KeptLiteral(bs[i])) ==>
              |s| == |bs| && forall i :: 0 <= i < |bs| ==> s[i] == bs[i] as char
  {
    if |bs| == 0 then "" else QuoteByte(bs[0]) + Quote(bs[1..])
  }

  /** `quote` works byte by byte: quoting a concatenation quotes each part.
      With `QuoteByte` this fixes the output for every input, so a kept byte
      stays literal however many bytes around it are escaped. */
  lemma {:induction false} QuoteAppend(a: seq<byte>, b: seq<byte>)
    ensures Quote(a + b) == Quote(a) + Quote(b)
    decreases |a|
  {
    if |a| > 0 {
      assert (a + b)[1..] == a[1..] + b;
      QuoteAppend(a[1..], b);
    } else {
      assert a + b == b;
    }
  }

  /** Worked bytes: "/" stays, a space (0x20) and a non-ASCII byte (0xC3)
      are escaped. */
  lemma QuoteExample()
    ensures Quote([0x2F, 0x20, 0xC3]) == "/%20%C3"
  {
    var bs: seq<byte> := [0x2F, 0x20, 0xC3];
    assert KeptLiteral(0x2F) by { assert (0x2F as char) == '/'; }
    assert !KeptLiteral(0x20);
    assert QuoteByte(0x20) == "%20";
    assert QuoteByte(0xC3) == "%C3";
    assert bs[1..][1..] == [0xC3] && [0xC3][1..] == [];
    assert Quote([0xC3]) == "%C3";
    assert Quote(bs[1..]) == "%20%C3";
  }

  /** Percent-decoding: `%XY` is the byte XY, any other ASCII character is
      its own byte; `None` for a malformed escape or a non-ASCII character. */
  function PercentDecode(s: string): Option<seq<byte>>
    decreases |s|
  {
    if |s| == 0 then Some([])
    else if s[0] == '%' then
      if |s| >= 3 && IsHex(s[1]) && IsHex(s[2]) then
        match PercentDecode(s[3..])
        case None => None
        case Some(t) => Some([HexValue(s[1]) * 16 + HexValue(s[2])] + t)
      else None
    else if s[0] as int < 0x80 then
      match PercentDecode(s[1..])
      case None => None
      case Some(t) => Some([s[0] as int] + t)
    else None
  }

  lemma PercentDecodeQuoteByte(b: byte, t: string)
    ensures PercentDecode(QuoteByte(b) + t) ==
              match PercentDecode(t) case None => None case Some(u) => Some([b] + u)
  {
    var s := QuoteByte(b) + t;
    if KeptLiteral(b) {
      assert s[0] == b as char && s[1..] == t;
    } else {
      assert s[0] == '%' && s[3..] == t;
      assert HexValue(s[1]) * 16 + HexValue(s[2]) == b;
    }
  }

  /** Decoding what `quote` produced gives back the bytes. */
  lemma {:induction false} PercentDecodeQuote(bs: seq<byte>)
    ensures PercentDecode(Quote(bs)) == Some(bs)
    decreases |bs|
  {
    if |bs| > 0 {
      PercentDecodeQuote(bs[1..]);
      PercentDecodeQuoteByte(bs[0], Quote(bs[1..]));
      assert [bs[0]] + bs[1..] == bs;
    }
  }

  // ---------------------------------------------------------------------
  // The non-ASCII mode: `str.translate({0x23: "%23", 0x3F: "%3F"})`

  function EscapeChar(c: char): string {
    if c == '#' then "%23" else if c == '?' then "%3F" else [c]
  }

  /** Rewrites "#" to "%23" and "?" to "%3F", character by character. */
  function EscapeHashQuery(s: string): (r: string)
    ensures '#' !in r && '?' !in r
    ensures |r| >= |s|
  {
    if |s| == 0 then "" else EscapeChar(s[0]) + EscapeHashQuery(s[1..])
  }

  /** The inverse rewriting: "%23" back to "#" and "%3F" back to "?". */
  function UnescapeHashQuery(s: string): string
    decreases |s|
  {
    if |s| == 0 then ""
    else if StartsWith(s, "%23") then "#" + UnescapeHashQuery(s[3..])
    else if StartsWith(s, "%3F") then "?" + UnescapeHashQuery(s[3..])
    else [s[0]] + UnescapeHashQuery(s[1..])
  }

  /** Only "#" and "?" change: a string without them is left as it is. */
  lemma {:induction false} EscapeHashQueryIdentity(s: string)
    requires '#' !in s && '?' !in s
    ensures EscapeHashQuery(s) == s
    decreases |s|
  {
    if |s| > 0 {
      assert s[0] != '#' && s[0] != '?';
      assert forall c :: c in s[1..] ==> c in s;
      EscapeHashQueryIdentity(s[1..]);
      assert [s[0]] + s[1..] == s;
    }
  }

  /** The rewriting works character by character. */
  lemma {:induction false} EscapeHashQueryAppend(s: string, t: string)
    ensures EscapeHashQuery(s + t) == EscapeHashQuery(s) + EscapeHashQuery(t)
    decreases |s|
  {
    if |s| == 0 {
      assert s + t == t;
    } else {
      assert (s + t)[0] == s[0] && (s + t)[1..] == s[1..] + t;
      EscapeHashQueryAppend(s[1..], t);
    }
  }

  /** On text without "%", the rewriting loses nothing. */
  lemma {:induction false} UnescapeEscapeHashQuery(s: string)
    requires '%' !in s
    ensures UnescapeHashQuery(EscapeHashQuery(s)) == s
    decreases |s|
  {
    if |s| > 0 {
      var e := EscapeHashQuery(s);
      var rest := EscapeHashQuery(s[1..]);
      assert forall c :: c in s[1..] ==> c in s;
      UnescapeEscapeHashQuery(s[1..]);
      if s[0] == '#' {
        assert e == "%23" + rest && e[3..] == rest;
      } else if s[0] == '?' {
        assert e == "%3F" + rest && e[3..] == rest;
      } else {
        assert e == [s[0]] + rest && e[1..] == rest;
        assert !StartsWith(e, "%23") && !StartsWith(e, "%3F");
      }
      assert [s[0]] + s[1..] == s;
    }
  }

  // ---------------------------------------------------------------------
  // Download links

  /** The path `get_url` escapes: the account's base path in front, unless
      that base path is the root "/". */
  function JoinBase(basePath: string, path: string): (p: string)
    ensures basePath == "/" ==> p == path
    ensures basePath != "/" ==> StartsWith(p, basePath) && p[|basePath|..] == path
  {
    if basePath != "/" then basePath + path else path
  }

  /** `get_url`: origin, then "/d", then the joined path escaped by one of
      the two modes. */
  function DownloadUrl(origin: string, basePath: string, path: string, ensureAscii: bool): (u: string)
    ensures StartsWith(u, origin + "/d")
    ensures ensureAscii ==> u[|origin| + 2..] == Quote(Utf8Encode(JoinBase(basePath, path)))
    ensures !ensureAscii ==> u[|origin| + 2..] == EscapeHashQuery(JoinBase(basePath, path))
    ensures ensureAscii ==>
              PercentDecode(u[|origin| + 2..]) == Some(Utf8Encode(JoinBase(basePath, path)))
              && '#' !in u[|origin| + 2..] && '?' !in u[|origin| + 2..]
    ensures !ensureAscii ==> '#' !in u[|origin| + 2..] && '?' !in u[|origin| + 2..]
    ensures !ensureAscii && '%' !in JoinBase(basePath, path) ==>
              UnescapeHashQuery(u[|origin| + 2..]) == JoinBase(basePath, path)
  {
    var p := JoinBase(basePath, path);
    var tail := if ensureAscii then Quote(Utf8Encode(p)) else EscapeHashQuery(p);
    assert (origin + "/d" + tail)[|origin| + 2..] == tail;
    PercentDecodeQuote(Utf8Encode(p));
    assert '%' !in p ==> UnescapeHashQuery(EscapeHashQuery(p)) == p by {
      if '%' !in p { UnescapeEscapeHashQuery(p); }
    }
    origin + "/d" + tail
  }
}
