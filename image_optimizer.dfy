/**
 * The image URL rewriter (src/lib/imageOptimizer.js): remote images are routed through
 * the wsrv.nl resizing proxy, with the original address (query string dropped) passed
 * as a percent-encoded `url` parameter; local previews and relative paths are left alone.
 *
 * `encodeURIComponent` is modelled on Unicode scalar values: each character outside the
 * unreserved set becomes the `%XX` escapes of its UTF-8 bytes. A reference decoder is the
 * partner that shows nothing of the address is lost.
 */
module ImageOptimizer {
  import opened Wrappers
  import opened Strings

  // Percent-encoding

  /** The characters `encodeURIComponent` leaves as they are. */
  predicate IsUnreserved(c: char)
  {
    ('A' <= c <= 'Z') || ('a' <= c <= 'z') || ('0' <= c <= '9') ||
    c == '-' || c == '_' || c == '.' || c == '!' || c == '~' || c == '*' || c == '\'' || c == '(' || c == ')'
  }

  newtype Byte = x: int | 0 <= x < 256

  /** The UTF-8 encoding of a character. */
  function Utf8Bytes(c: char): (bs: seq<Byte>)
    ensures 1 <= |bs| <= 4
  {
    var n := c as int;
    if n < 0x80 then [n as Byte]
    else if n < 0x800 then [(0xC0 + n / 64) as Byte, (0x80 + n % 64) as Byte]
    else if n < 0x10000 then [(0xE0 + n / 4096) as Byte, (0x80 + (n / 64) % 64) as Byte, (0x80 + n % 64) as Byte]
    else [(0xF0 + n / 262144) as Byte, (0x80 + (n / 4096) % 64) as Byte, (0x80 + (n / 64) % 64) as Byte, (0x80 + n % 64) as Byte]
  }

  function HexDigit(d: nat): (c: char)
    requires d < 16
    ensures DigitValue(c) == d
  {
    "0123456789ABCDEF"[d]
  }

  /** `%XX` for each byte, with upper-case hexadecimal digits. */
  function PercentBytes(bs: seq<Byte>): (r: string)
    ensures |r| == 3 * |bs|
  {
    if bs == [] then ""
    else ['%', HexDigit(bs[0] as nat / 16), HexDigit(bs[0] as nat % 16)] + PercentBytes(bs[1..])
  }

  /** The characters an encoded text is made of: unreserved ones and the `%` of escapes. */
  predicate IsEncodedAlphabet(r: string)
  {
    forall i :: 0 <= i < |r| ==> r[i] == '%' || IsUnreserved(r[i])
  }

  lemma {:induction false} PercentBytesAlphabet(bs: seq<Byte>)
    ensures IsEncodedAlphabet(PercentBytes(bs))
  {
    if bs != [] {
      PercentBytesAlphabet(bs[1..]);
    }
  }

  function EncodeChar(c: char): (r: string)
    ensures r != []
    ensures IsEncodedAlphabet(r)
  {
    PercentBytesAlphabet(Utf8Bytes(c));
    if IsUnreserved(c) then [c] else PercentBytes(Utf8Bytes(c))
  }

  /**
   * `encodeURIComponent(s)`: the result is made of unreserved characters and escapes
   * only, so it holds none of the separators of a query string (`&`, `=`, `?`, `#`).
   */
  function EncodeUriComponent(s: string): (r: string)
    ensures IsEncodedAlphabet(r)
    ensures '&' !in r && '=' !in r && '?' !in r && '#' !in r
  {
    if s == [] then ""
    else
      var r := EncodeChar(s[0]) + EncodeUriComponent(s[1..]);
      AlphabetConcat(EncodeChar(s[0]), EncodeUriComponent(s[1..]));
      AlphabetHasNoSeparator(r);
      r
  }

  lemma AlphabetConcat(a: string, b: string)
    requires IsEncodedAlphabet(a) && IsEncodedAlphabet(b)
    ensures IsEncodedAlphabet(a + b)
  {
  }

  lemma AlphabetHasNoSeparator(r: string)
    requires IsEncodedAlphabet(r)
    ensures '&' !in r && '=' !in r && '?' !in r && '#' !in r
  {
  }

  /** Text made of unreserved characters passes through unchanged. */
  lemma {:induction false} EncodeUnreservedIsIdentity(s: string)
    requires forall i :: 0 <= i < |s| ==> IsUnreserved(s[i])
    ensures EncodeUriComponent(s) == s
  {
    if s != [] {
      EncodeUnreservedIsIdentity(s[1..]);
    }
  }

  // The reference decoder

  predicate IsHexDigit(c: char)
  {
    DigitValue(c) < 16
  }

  /** `n` escapes `%XY` at the front of `s`, as bytes. */
  function ReadBytes(s: string, n: nat): (r: Option<seq<Byte>>)
    ensures r.Some? ==> |r.value| == n && 3 * n <= |s|
  {
    if n == 0 then Some([])
    else if |s| >= 3 && s[0] == '%' && IsHexDigit(s[1]) && IsHexDigit(s[2]) then
      match ReadBytes(s[3..], n - 1)
      case Some(rest) => Some([(16 * DigitValue(s[1]) + DigitValue(s[2])) as Byte] + rest)
      case None => None
    else None
  }

  /** How many bytes a UTF-8 sequence starting with `b` has; 0 when `b` cannot start one. */
  function LeadLength(b: Byte): nat
  {
    if b < 0x80 then 1
    else if 0xC0 <= b < 0xE0 then 2
    else if 0xE0 <= b < 0xF0 then 3
    else if 0xF0 <= b < 0xF8 then 4
    else 0
  }

  predicate IsContinuation(b: Byte)
  {
    0x80 <= b < 0xC0
  }

  predicate IsScalar(n: int)
  {
    (0 <= n < 0xD800) || (0xE000 <= n < 0x11_0000)
  }

  /** The code point of a UTF-8 sequence, if it is one. */
  function Utf8Decode(bs: seq<Byte>): Option<char>
  {
    var n: int :=
      if |bs| == 1 && bs[0] < 0x80 then bs[0] as int
      else if |bs| == 2 && IsContinuation(bs[1]) then (bs[0] as int - 0xC0) * 64 + (bs[1] as int - 0x80)
      else if |bs| == 3 && IsContinuation(bs[1]) && IsContinuation(bs[2]) then
        (bs[0] as int - 0xE0) * 4096 + (bs[1] as int - 0x80) * 64 + (bs[2] as int - 0x80)
      else if |bs| == 4 && IsContinuation(bs[1]) && IsContinuation(bs[2]) && IsContinuation(bs[3]) then
        (bs[0] as int - 0xF0) * 262144 + (bs[1] as int - 0x80) * 4096 + (bs[2] as int - 0x80) * 64 + (bs[3] as int - 0x80)
      else -1;
    if IsScalar(n) then Some(n as char) else None
  }

  /** Undoes the percent-encoding; `None` for a malformed escape. */
  function PercentDecode(s: string): Option<string>
    decreases |s|
  {
    if s == [] then Some("")
    else if s[0] != '%' then
      match PercentDecode(s[1..])
      case Some(t) => Some([s[0]] + t)
      case None => None
    else if |s| >= 3 && IsHexDigit(s[1]) && IsHexDigit(s[2]) then
      var n := LeadLength((16 * DigitValue(s[1]) + DigitValue(s[2])) as Byte);
      if n == 0 then None
      else
        match ReadBytes(s, n)
        case None => None
        case Some(bs) =>
          match Utf8Decode(bs)
          case None => None
          case Some(c) =>
            match PercentDecode(s[3 * n..])
            case Some(t) => Some([c] + t)
            case None => None
    else None
  }

  lemma HexByte(b: nat)
    requires b < 256
    ensures 16 * DigitValue(HexDigit(b / 16)) + DigitValue(HexDigit(b % 16)) == b
  {
  }

  lemma ReadBytesStep(h1: char, h2: char, tail: string, m: nat, bs: seq<Byte>)
    requires IsHexDigit(h1) && IsHexDigit(h2)
    requires ReadBytes(tail, m) == Some(bs)
    ensures ReadBytes(['%', h1, h2] + tail, m + 1) == Some([(16 * DigitValue(h1) + DigitValue(h2)) as Byte] + bs)
  {
    assert (['%', h1, h2] + tail)[3..] == tail;
  }

  lemma PercentBytesCons(bs: seq<Byte>)
    requires bs != []
    ensures PercentBytes(bs) == ['%', HexDigit(bs[0] as nat / 16), HexDigit(bs[0] as nat % 16)] + PercentBytes(bs[1..])
  {
  }

  lemma {:induction false} ReadPercentBytes(bs: seq<Byte>, rest: string)
    ensures ReadBytes(PercentBytes(bs) + rest, |bs|) == Some(bs)
  {
    if bs != [] {
      var b, more := bs[0], bs[1..];
      var h1, h2 := HexDigit(b as nat / 16), HexDigit(b as nat % 16);
      var tail := PercentBytes(more) + rest;
      assert PercentBytes(bs) + rest == ['%', h1, h2] + tail by {
        PercentBytesCons(bs);
      }
      ReadPercentBytes(more, rest);
      HexByte(b as nat);
      ReadBytesStep(h1, h2, tail, |more|, more);
      assert [b] + more == bs;
    }
  }

  lemma Utf8TwoBytes(c: char)
    requires 0x80 <= c as int < 0x800
    ensures LeadLength(Utf8Bytes(c)[0]) == 2
    ensures Utf8Decode(Utf8Bytes(c)) == Some(c)
  {
    var n := c as int;
    assert (n / 64) * 64 + n % 64 == n;
  }

  lemma Utf8ThreeBytes(c: char)
    requires 0x800 <= c as int < 0x10000
    ensures LeadLength(Utf8Bytes(c)[0]) == 3
    ensures Utf8Decode(Utf8Bytes(c)) == Some(c)
  {
    var n := c as int;
    assert IsScalar(n);
    assert (n / 4096) * 4096 + ((n / 64) % 64) * 64 + n % 64 == n by {
      assert n / 4096 == (n / 64) / 64;
    }
  }

  lemma Utf8FourBytes(c: char)
    requires 0x10000 <= c as int
    ensures LeadLength(Utf8Bytes(c)[0]) == 4
    ensures Utf8Decode(Utf8Bytes(c)) == Some(c)
  {
    var n := c as int;
    assert IsScalar(n);
    assert (n / 262144) * 262144 + ((n / 4096) % 64) * 4096 + ((n / 64) % 64) * 64 + n % 64 == n by {
      assert n / 4096 == (n / 64) / 64;
      assert n / 262144 == (n / 4096) / 64;
    }
  }

  /** Decoding the UTF-8 bytes of a character gives the character back. */
  lemma Utf8RoundTrip(c: char)
    ensures LeadLength(Utf8Bytes(c)[0]) == |Utf8Bytes(c)|
    ensures Utf8Decode(Utf8Bytes(c)) == Some(c)
  {
    var n := c as int;
    if n < 0x80 {
    } else if n < 0x800 {
      Utf8TwoBytes(c);
    } else if n < 0x10000 {
      Utf8ThreeBytes(c);
    } else {
      Utf8FourBytes(c);
    }
  }

  /** One encoded character decodes back to itself in front of whatever follows. */
  lemma DecodeEncodedChar(c: char, rest: string)
    ensures PercentDecode(EncodeChar(c) + rest) ==
      match PercentDecode(rest)
      case Some(t) => Some([c] + t)
      case None => None
  {
    var s := EncodeChar(c) + rest;
    if IsUnreserved(c) {
      assert s[1..] == rest;
    } else {
      var bs := Utf8Bytes(c);
      Utf8RoundTrip(c);
      ReadPercentBytes(bs, rest);
      HexByte(bs[0] as nat);
      assert s[3 * |bs|..] == rest;
    }
  }

  /** Decoding undoes `encodeURIComponent`. */
  lemma {:induction false} DecodeEncode(s: string)
    ensures PercentDecode(EncodeUriComponent(s)) == Some(s)
  {
    if s != [] {
      DecodeEncode(s[1..]);
      DecodeEncodedChar(s[0], EncodeUriComponent(s[1..]));
      assert [s[0]] + s[1..] == s;
    }
  }

  // The rewriter

  const ProxyPrefix := "https://wsrv.nl/?url="

  /** The width used when the caller passes none. */
  const DefaultWidth := 800

  /** The address without its query string: `url.split('?')[0]`. */
  function CleanUrl(url: string): (clean: string)
    ensures '?' !in clean
  {
    SplitPiecesAreFree(url, '?');
    Split(url, '?')[0]
  }

  /** The query parameters after `url`: the width, then the fixed quality and format. */
  function ProxyParams(w: int): string
  {
    "w=" + IntToString(w) + "&q=80&output=webp"
  }

  /** The proxy address for a source address (already without its query string). */
  function ProxyUrl(clean: string, w: int): string
  {
    ProxyPrefix + (EncodeUriComponent(clean) + "&" + ProxyParams(w))
  }

  /**
   * `getOptimizedImageUrl(url, width)`. An absent `url` is `None`, an omitted `width`
   * is `None` and stands for 800.
   */
  function GetOptimizedImageUrl(url: Option<string>, width: Option<int>): (r: string)
    ensures url.None? || url.value == "" ==> r == ""
    ensures url.Some? && (StartsWith(url.value, "blob:") || StartsWith(url.value, "data:")) ==> r == url.value
    ensures url.Some? && !StartsWith(url.value, "http") ==> r == url.value
    ensures url.Some? && IsRemote(url.value) ==>
      r == ProxyUrl(CleanUrl(url.value), if width.Some? then width.value else DefaultWidth)
  {
    var u := if url.Some? then url.value else "";
    var w := if width.Some? then width.value else DefaultWidth;
    if u == "" then ""
    else if StartsWith(u, "blob:") || StartsWith(u, "data:") then u
    else if !StartsWith(u, "http") then u
    else ProxyUrl(CleanUrl(u), w)
  }

  /** A remote address, the case that is rewritten. */
  predicate IsRemote(u: string)
  {
    u != "" && !StartsWith(u, "blob:") && !StartsWith(u, "data:") && StartsWith(u, "http")
  }

  /** Omitting the width is the same as asking for 800 pixels. */
  lemma WidthDefaultsTo800(url: Option<string>)
    ensures GetOptimizedImageUrl(url, None) == GetOptimizedImageUrl(url, Some(800))
  {
  }

  /** Addresses that differ only in their query string give the same proxy address. */
  lemma QueryStringIgnored(u: string, v: string, width: Option<int>)
    requires IsRemote(u) && IsRemote(v)
    requires CleanUrl(u) == CleanUrl(v)
    ensures GetOptimizedImageUrl(Some(u), width) == GetOptimizedImageUrl(Some(v), width)
  {
  }

  /** The `url` parameter of a proxy address, decoded; `None` if there is none. */
  function SourceOf(proxied: string): Option<string>
  {
    if StartsWith(proxied, ProxyPrefix) then
      PercentDecode(Split(proxied[|ProxyPrefix|..], '&')[0])
    else None
  }

  /** The `w` parameter of a proxy address, read as `parseInt` reads it. */
  function WidthOf(proxied: string): Option<int>
  {
    if StartsWith(proxied, ProxyPrefix) then
      var params := Split(proxied[|ProxyPrefix|..], '&');
      if |params| >= 2 && StartsWith(params[1], "w=") then ParseInt(params[1][2..]) else None
    else None
  }

  lemma PrefixThen(p: string, t: string)
    ensures StartsWith(p + t, p) && (p + t)[|p|..] == t
  {
    assert (p + t)[..|p|] == p;
  }

  /** The parameters of a proxy address, as `split('&')` cuts them after the prefix. */
  lemma ProxyQuerySplit(clean: string, w: int)
    ensures StartsWith(ProxyUrl(clean, w), ProxyPrefix)
    ensures Split(ProxyUrl(clean, w)[|ProxyPrefix|..], '&') == [EncodeUriComponent(clean)] + Split(ProxyParams(w), '&')
  {
    var enc := EncodeUriComponent(clean);
    PrefixThen(ProxyPrefix, enc + "&" + ProxyParams(w));
    SplitAtFirstSeparator(enc, ProxyParams(w), '&');
  }

  /** A proxy address carries its source address in full: decoding `url` gives it back. */
  lemma ProxyKeepsSource(clean: string, w: int)
    ensures SourceOf(ProxyUrl(clean, w)) == Some(clean)
  {
    ProxyQuerySplit(clean, w);
    DecodeEncode(clean);
  }

  /**
   * A rewritten address carries the original one, without its query string, in full:
   * decoding its `url` parameter gives it back.
   */
  lemma RewriteKeepsSource(u: string, width: Option<int>)
    requires IsRemote(u)
    ensures SourceOf(GetOptimizedImageUrl(Some(u), width)) == Some(CleanUrl(u))
  {
    ProxyKeepsSource(CleanUrl(u), if width.Some? then width.value else DefaultWidth);
  }

  /** The width parameter is the first piece of the parameters. */
  lemma ParamsSplit(w: int)
    ensures Split(ProxyParams(w), '&')[0] == "w=" + IntToString(w)
  {
    var digits := IntToString(w);
    var p := "w=" + digits;
    assert '&' !in p by {
      assert '&' !in NatToString(if w < 0 then -w else w);
      assert '&' !in digits;
      assert '&' !in "w=";
    }
    assert ProxyParams(w) == p + "&" + "q=80&output=webp";
    SplitAtFirstSeparator(p, "q=80&output=webp", '&');
  }

  /** The width parameter reads back, as `parseInt` reads it, as the width. */
  lemma WidthParamReadsBack(w: int)
    ensures StartsWith("w=" + IntToString(w), "w=")
    ensures ParseInt(("w=" + IntToString(w))[2..]) == Some(w)
  {
    PrefixThen("w=", IntToString(w));
    ParseIntOfInt(w);
  }

  /** A proxy address asks for the width it was built with. */
  lemma ProxyKeepsWidth(clean: string, w: int)
    ensures WidthOf(ProxyUrl(clean, w)) == Some(w)
  {
    ProxyQuerySplit(clean, w);
    ParamsSplit(w);
    WidthParamReadsBack(w);
  }

  /** A rewritten address asks the proxy for the requested width. */
  lemma RewriteKeepsWidth(u: string, w: int)
    requires IsRemote(u)
    ensures WidthOf(GetOptimizedImageUrl(Some(u), Some(w))) == Some(w)
  {
    ProxyKeepsWidth(CleanUrl(u), w);
  }
}
