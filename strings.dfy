/**
 * The JavaScript string operations the components rely on: `trim`, `split`/`join`,
 * `startsWith`, number-to-text conversion in template literals, `parseInt` without a
 * radix, and `.length` (which counts UTF-16 code units, not characters).
 */
module Strings {
  import opened Wrappers

  /** JavaScript's WhiteSpace and LineTerminator characters, which `trim` and `parseInt` skip. */
  predicate IsWhitespace(c: char)
  {
    var n := c as int;
    (0x09 <= n <= 0x0D) || n == 0x20 || n == 0xA0 || n == 0x1680 || (0x2000 <= n <= 0x200A) ||
    n == 0x2028 || n == 0x2029 || n == 0x202F || n == 0x205F || n == 0x3000 || n == 0xFEFF
  }

  /** Neither starts nor ends with whitespace. */
  predicate IsTrimmed(s: string)
  {
    s == [] || (!IsWhitespace(s[0]) && !IsWhitespace(s[|s| - 1]))
  }

  /** `s.trimStart()`: drops the leading whitespace and nothing else. */
  function TrimStart(s: string): (r: string)
    ensures |r| <= |s|
    ensures r == [] || !IsWhitespace(r[0])
  {
    if s != [] && IsWhitespace(s[0]) then TrimStart(s[1..]) else s
  }

  /** `s.trimEnd()`: drops the trailing whitespace and nothing else. */
  function TrimEnd(s: string): (r: string)
    ensures |r| <= |s|
    ensures r == [] || (r[0] == s[0] && !IsWhitespace(r[|r| - 1]))
  {
    if s != [] && IsWhitespace(s[|s| - 1]) then TrimEnd(s[..|s| - 1]) else s
  }

  /** `s.trim()`. */
  function Trim(s: string): (r: string)
    ensures IsTrimmed(r)
  {
    TrimEnd(TrimStart(s))
  }

  /** `trimStart` keeps a suffix of its input and what it drops is whitespace. */
  lemma {:induction false} TrimStartIsSuffix(s: string)
    ensures TrimStart(s) == s[|s| - |TrimStart(s)|..]
    ensures forall k :: 0 <= k < |s| - |TrimStart(s)| ==> IsWhitespace(s[k])
  {
    if s != [] && IsWhitespace(s[0]) {
      TrimStartIsSuffix(s[1..]);
    }
  }

  /** `trimEnd` keeps a prefix of its input and what it drops is whitespace. */
  lemma {:induction false} TrimEndIsPrefix(s: string)
    ensures TrimEnd(s) == s[..|TrimEnd(s)|]
    ensures forall k :: |TrimEnd(s)| <= k < |s| ==> IsWhitespace(s[k])
  {
    if s != [] && IsWhitespace(s[|s| - 1]) {
      TrimEndIsPrefix(s[..|s| - 1]);
    }
  }

  /**
   * `trim` keeps a contiguous part of its input: only whitespace is dropped, and only
   * at the two ends.
   */
  lemma TrimIsSlice(s: string)
    ensures exists i, j :: (0 <= i <= j <= |s| && Trim(s) == s[i..j] &&
      (forall k :: 0 <= k < i ==> IsWhitespace(s[k])) &&
      (forall k :: j <= k < |s| ==> IsWhitespace(s[k])))
  {
    var t := TrimStart(s);
    TrimStartIsSuffix(s);
    TrimEndIsPrefix(t);
    var i := |s| - |t|;
    var j := i + |TrimEnd(t)|;
    assert Trim(s) == s[i..j];
  }

  /** A character absent from the input is absent from the trimmed text. */
  lemma TrimKeepsOut(s: string, c: char)
    requires c !in s
    ensures c !in Trim(s)
  {
    TrimIsSlice(s);
    var i, j :| 0 <= i <= j <= |s| && Trim(s) == s[i..j];
    assert forall k :: 0 <= k < j - i ==> Trim(s)[k] == s[i + k];
  }

  lemma TrimmedIsFixed(s: string)
    requires IsTrimmed(s)
    ensures Trim(s) == s
  {
  }

  /** Trimming removes a leading blank. */
  lemma TrimSkipsBlank(s: string)
    ensures Trim(" " + s) == Trim(s)
  {
    assert (" " + s)[1..] == s;
  }

  predicate StartsWith(s: string, prefix: string)
  {
    |prefix| <= |s| && s[..|prefix|] == prefix
  }

  /** `pieces.join(sep)`. */
  function Join(pieces: seq<string>, sep: string): string
  {
    if |pieces| == 0 then ""
    else if |pieces| == 1 then pieces[0]
    else pieces[0] + sep + Join(pieces[1..], sep)
  }

  /** `s.indexOf(d)` for a character that occurs in `s`. */
  function IndexOf(s: string, d: char): (i: nat)
    requires d in s
    ensures i < |s| && s[i] == d && d !in s[..i]
  {
    if s[0] == d then 0
    else
      var i := 1 + IndexOf(s[1..], d);
      assert s[..i] == [s[0]] + s[1..][..i - 1];
      i
  }

  /** The first occurrence is the one with no occurrence before it. */
  lemma IndexOfIsFirst(s: string, d: char, i: nat)
    requires i < |s| && s[i] == d && d !in s[..i]
    ensures IndexOf(s, d) == i
  {
  }

  /**
   * `s.split(d)` for a one-character separator: the text before the first separator,
   * then the pieces of the text after it; there is always at least one piece.
   */
  function Split(s: string, d: char): (r: seq<string>)
    ensures |r| >= 1
    decreases |s|
  {
    if d !in s then [s]
    else
      var i := IndexOf(s, d);
      [s[..i]] + Split(s[i + 1..], d)
  }

  /** No piece holds the separator. */
  lemma {:induction false} SplitPiecesAreFree(s: string, d: char)
    ensures forall i :: 0 <= i < |Split(s, d)| ==> d !in Split(s, d)[i]
    decreases |s|
  {
    if d in s {
      var i := IndexOf(s, d);
      SplitAtIndexOf(s, d);
      SplitPiecesAreFree(s[i + 1..], d);
    }
  }

  lemma SplitWithoutSeparator(s: string, d: char)
    requires d !in s
    ensures Split(s, d) == [s]
  {
  }

  /** A piece free of the separator, then the separator, splits off as the first piece. */
  lemma SplitAtFirstSeparator(a: string, b: string, d: char)
    requires d !in a
    ensures Split(a + [d] + b, d) == [a] + Split(b, d)
  {
    var s := a + [d] + b;
    assert s[|a|] == d && s[..|a|] == a;
    IndexOfIsFirst(s, d, |a|);
    assert s[|a| + 1..] == b;
  }

  /** Joining the pieces back with the separator gives the original text. */
  lemma {:induction false} SplitThenJoin(s: string, d: char)
    ensures Join(Split(s, d), [d]) == s
    decreases |s|
  {
    if d in s {
      var i := IndexOf(s, d);
      var rest := Split(s[i + 1..], d);
      calc {
        Join(Split(s, d), [d]);
        { SplitAtIndexOf(s, d); }
        Join([s[..i]] + rest, [d]);
        { JoinFront(s[..i], rest, [d]); }
        s[..i] + [d] + Join(rest, [d]);
        { SplitThenJoin(s[i + 1..], d); }
        s[..i] + [d] + s[i + 1..];
        { assert s == s[..i] + [d] + s[i + 1..]; }
        s;
      }
    }
  }

  lemma SplitAtIndexOf(s: string, d: char)
    requires d in s
    ensures Split(s, d) == [s[..IndexOf(s, d)]] + Split(s[IndexOf(s, d) + 1..], d)
  {
  }

  lemma JoinFront(first: string, rest: seq<string>, sep: string)
    requires rest != []
    ensures Join([first] + rest, sep) == first + sep + Join(rest, sep)
  {
    assert ([first] + rest)[1..] == rest;
  }

  predicate IsDigit(c: char)
  {
    '0' <= c <= '9'
  }

  function DigitChar(d: nat): (c: char)
    requires d < 10
    ensures IsDigit(c) && DigitValue(c) == d
  {
    "0123456789"[d]
  }

  /** The value of a digit character in bases up to 16 (the radixes `parseInt` can pick). */
  function DigitValue(c: char): nat
  {
    if '0' <= c <= '9' then c as nat - '0' as nat
    else if 'a' <= c <= 'f' then c as nat - 'a' as nat + 10
    else if 'A' <= c <= 'F' then c as nat - 'A' as nat + 10
    else 16
  }

  predicate IsRadixDigit(c: char, radix: nat)
  {
    DigitValue(c) < radix
  }

  /** The number that a string of digits denotes in the given radix. */
  function DigitsValue(s: string, radix: nat): nat
  {
    if s == [] then 0
    else DigitsValue(s[..|s| - 1], radix) * radix + DigitValue(s[|s| - 1])
  }

  /** The decimal form of `n`, as a template literal writes it. */
  function NatToString(n: nat): (r: string)
    ensures |r| >= 1 && (r[0] == '0' ==> n == 0)
    ensures forall i :: 0 <= i < |r| ==> IsDigit(r[i])
  {
    if n < 10 then [DigitChar(n)] else NatToString(n / 10) + [DigitChar(n % 10)]
  }

  /** The decimal form denotes the number. */
  lemma {:induction false} NatToStringValue(n: nat)
    ensures DigitsValue(NatToString(n), 10) == n
  {
    if n >= 10 {
      var p := NatToString(n / 10);
      var r := p + [DigitChar(n % 10)];
      assert r[..|r| - 1] == p;
      calc {
        DigitsValue(NatToString(n), 10);
        DigitsValue(r, 10);
        DigitsValue(p, 10) * 10 + n % 10;
        { NatToStringValue(n / 10); }
        n / 10 * 10 + n % 10;
      }
    }
  }

  function IntToString(n: int): (r: string)
    ensures r != []
  {
    if n < 0 then "-" + NatToString(-n) else NatToString(n)
  }

  /** The longest prefix of `s` made of digits of the radix. */
  function DigitPrefix(s: string, radix: nat): (r: string)
    ensures |r| <= |s| && r == s[..|r|]
    ensures forall i :: 0 <= i < |r| ==> IsRadixDigit(r[i], radix)
    ensures |r| == |s| || !IsRadixDigit(s[|r|], radix)
  {
    if s != [] && IsRadixDigit(s[0], radix) then [s[0]] + DigitPrefix(s[1..], radix) else ""
  }

  lemma {:induction false} DigitPrefixOfDigits(digits: string, rest: string, radix: nat)
    requires forall i :: 0 <= i < |digits| ==> IsRadixDigit(digits[i], radix)
    requires rest == [] || !IsRadixDigit(rest[0], radix)
    ensures DigitPrefix(digits + rest, radix) == digits
  {
    if digits != [] {
      DigitPrefixOfDigits(digits[1..], rest, radix);
      assert (digits + rest)[1..] == digits[1..] + rest;
    }
  }

  /**
   * `parseInt(s)` without a radix: leading whitespace skipped, an optional sign, a
   * `0x`/`0X` prefix selecting base 16, then the longest run of digits; `None` stands
   * for `NaN` (no digit at all).
   */
  function ParseInt(s: string): Option<int>
  {
    var (digits, radix, negative) := ParseIntBody(s);
    var z := DigitPrefix(digits, radix);
    var v: int := DigitsValue(z, radix);
    if z == [] then None
    else Some(if negative then -v else v)
  }

  /** What follows the whitespace, the sign and the radix prefix; the radix; the sign. */
  function ParseIntBody(s: string): (string, nat, bool)
  {
    var t := TrimStart(s);
    var negative := t != [] && t[0] == '-';
    var u := if t != [] && (t[0] == '-' || t[0] == '+') then t[1..] else t;
    if |u| >= 2 && u[0] == '0' && (u[1] == 'x' || u[1] == 'X') then (u[2..], 16, negative)
    else (u, 10, negative)
  }

  /**
   * `parseInt` reads back the number written by a template literal, even when text
   * follows it (as in "3 villes sélectionnées").
   */
  lemma ParseIntOfDecimal(n: nat, rest: string)
    requires rest == [] || (!IsDigit(rest[0]) && rest[0] != 'x' && rest[0] != 'X')
    ensures ParseInt(NatToString(n) + rest) == Some(n)
  {
    var w := NatToString(n);
    var s := w + rest;
    assert s[0] == w[0];
    assert TrimStart(s) == s;
    assert !(|s| >= 2 && s[0] == '0' && (s[1] == 'x' || s[1] == 'X')) by {
      if |w| >= 2 { assert s[1] == w[1]; } else if |s| >= 2 { assert s[1] == rest[0]; }
    }
    assert ParseIntBody(s) == (s, 10, false);
    assert forall i :: 0 <= i < |w| ==> IsRadixDigit(w[i], 10);
    DigitPrefixOfDigits(w, rest, 10);
    NatToStringValue(n);
  }

  /** `parseInt` reads the sign of a negative number written by a template literal. */
  lemma ParseIntOfNegative(m: nat)
    ensures ParseInt("-" + NatToString(m)) == Some(-(m as int))
  {
    var w := NatToString(m);
    var s := "-" + w;
    assert TrimStart(s) == s;
    assert s[1..] == w;
    assert |w| < 2 || IsDigit(w[1]);
    assert ParseIntBody(s) == (w, 10, true);
    assert forall i :: 0 <= i < |w| ==> IsRadixDigit(w[i], 10);
    DigitPrefixOfDigits(w, "", 10);
    assert w + "" == w;
    NatToStringValue(m);
  }

  /** `parseInt` reads back any integer written by a template literal, its sign included. */
  lemma ParseIntOfInt(n: int)
    ensures ParseInt(IntToString(n)) == Some(n)
  {
    if n >= 0 {
      ParseIntOfDecimal(n, "");
      assert NatToString(n) + "" == NatToString(n);
    } else {
      ParseIntOfNegative(-n);
    }
  }

  /** The number of UTF-16 code units of `s`: JavaScript's `s.length`. */
  function Utf16Length(s: string): (n: nat)
    ensures |s| <= n <= 2 * |s|
  {
    if s == [] then 0
    else Utf16Length(s[..|s| - 1]) + (if s[|s| - 1] as int > 0xFFFF then 2 else 1)
  }
}
