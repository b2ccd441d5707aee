/**
 * Percent-decoding as `urllib.parse.unquote` does it (section 2.1 of
 * RFC 3986): a `%` followed by two hexadecimal digits stands for the octet
 * they spell; any other `%` is kept as it is. A decoded octet becomes the
 * character with that code point.
 */
module Percent {
  import opened Text

  predicate IsHexDigit(c: char) {
    ('0' <= c <= '9') || ('a' <= c <= 'f') || ('A' <= c <= 'F')
  }

  function HexValue(c: char): (v: nat)
    requires IsHexDigit(c)
    ensures v < 16
  {
    if '0' <= c <= '9' then c as int - '0' as int
    else if 'a' <= c <= 'f' then c as int - 'a' as int + 10
    else c as int - 'A' as int + 10
  }

  /** True when `s` starts with a well-formed `%HH` escape. */
  predicate StartsWithEscape(s: string) {
    |s| >= 3 && s[0] == '%' && IsHexDigit(s[1]) && IsHexDigit(s[2])
  }

  /** `unquote(s)`, scanning left to right. */
  function Unquote(s: string): (r: string)
    ensures |r| <= |s|
    ensures '%' !in s ==> r == s
    decreases |s|
  {
    if |s| == 0 then ""
    else if StartsWithEscape(s) then
      [(HexValue(s[1]) * 16 + HexValue(s[2])) as char] + Unquote(s[3..])
    else
      [s[0]] + Unquote(s[1..])
  }

  /** A `%` that does not start a well-formed escape is kept, and decoding resumes after it. */
  lemma UnquoteKeepsStrayPercent(s: string)
    requires !StartsWithEscape("%" + s)
    ensures Unquote("%" + s) == "%" + Unquote(s)
  {
    assert ("%" + s)[1..] == s;
  }

  /** Any character other than `%` is copied as it is. */
  lemma UnquoteKeepsPlain(c: char, s: string)
    requires c != '%'
    ensures Unquote([c] + s) == [c] + Unquote(s)
  {
    assert ([c] + s)[1..] == s;
  }

  /**
   * Decoding splits at any point not followed by a hex digit: no escape can
   * straddle such a point, so a delimiter like `?`, `#` or `%` separates the
   * two halves' decodings.
   */
  lemma {:induction false} UnquoteConcat(a: string, b: string)
    requires b == [] || !IsHexDigit(b[0])
    ensures Unquote(a + b) == Unquote(a) + Unquote(b)
    decreases |a|
  {
    var ab := a + b;
    if |a| == 0 {
      assert ab == b;
    } else if StartsWithEscape(a) {
      var c := (HexValue(a[1]) * 16 + HexValue(a[2])) as char;
      assert ab[..3] == a[..3];
      assert ab[3..] == a[3..] + b;
      assert Unquote(ab) == [c] + Unquote(a[3..] + b);
      UnquoteConcat(a[3..], b);
      Associate([c], Unquote(a[3..]), Unquote(b));
    } else {
      assert !StartsWithEscape(ab) by {
        if |a| >= 3 {
          assert ab[..3] == a[..3];
        } else if |b| > 0 {
          assert ab[|a|] == b[0];
        }
      }
      assert ab[0] == a[0];
      assert ab[1..] == a[1..] + b;
      assert Unquote(ab) == [a[0]] + Unquote(a[1..] + b);
      UnquoteConcat(a[1..], b);
      Associate([a[0]], Unquote(a[1..]), Unquote(b));
    }
  }

  /**
   * Any `%HH` escape at the front, in either case of hex digit, decodes to
   * the character whose code the digits spell, and decoding resumes after it.
   */
  lemma UnquoteLeadingHex(escape: string, tail: string)
    requires |escape| == 3 && StartsWithEscape(escape)
    ensures Unquote(escape + tail) == [(HexValue(escape[1]) * 16 + HexValue(escape[2])) as char] + Unquote(tail)
  {
    var s := escape + tail;
    assert s[..3] == escape;
    assert s[3..] == tail;
  }

  /** An escape of `?` or `#` at the front decodes to that character. */
  lemma UnquoteLeadingEscape(escape: string, tail: string, c: char)
    requires escape == "%3F" || escape == "%3f" || escape == "%23"
    requires c == if escape == "%23" then '#' else '?'
    ensures Unquote(escape + tail) == [c] + Unquote(tail)
  {
    UnquoteLeadingHex(escape, tail);
  }

  function HexChar(n: nat): (c: char)
    requires n < 16
    ensures IsHexDigit(c) && HexValue(c) == n
  {
    if n < 10 then ('0' as int + n) as char else ('A' as int + n - 10) as char
  }

  predicate IsOctetString(s: string) {
    forall k :: 0 <= k < |s| ==> s[k] as int < 256
  }

  /** Escapes every character as `%HH` (upper-case hex), as `quote(s, safe='')` does for octets. */
  function Escape(s: string): (r: string)
    requires IsOctetString(s)
    ensures |r| == 3 * |s|
  {
    if |s| == 0 then ""
    else
      var n := s[0] as int;
      ['%', HexChar(n / 16), HexChar(n % 16)] + Escape(s[1..])
  }

  /** Decoding undoes full escaping: every octet string survives the round trip. */
  lemma {:induction false} UnquoteEscape(s: string)
    requires IsOctetString(s)
    ensures Unquote(Escape(s)) == s
    decreases |s|
  {
    if |s| > 0 {
      var n := s[0] as int;
      assert IsOctetString(s[1..]) by {
        assert forall k :: 0 <= k < |s| - 1 ==> s[1..][k] == s[k + 1];
      }
      UnquoteEscape(s[1..]);
      UnquoteOneEscape(n, Escape(s[1..]));
      assert s == [s[0]] + s[1..];
    }
  }

  /** One `%HH` escape at the front decodes to the octet it spells. */
  lemma UnquoteOneEscape(n: nat, rest: string)
    requires n < 256
    ensures Unquote(['%', HexChar(n / 16), HexChar(n % 16)] + rest) == [n as char] + Unquote(rest)
  {
    UnquoteLeadingHex(['%', HexChar(n / 16), HexChar(n % 16)], rest);
  }
}
