/**
 * `extract_original_link` (rs.py:96-98): `re.search(r'url=(https?://[^&]+)', url)`
 * pulls the absolute URL a redirector carries in a `url=` parameter; without
 * a match the link is returned unchanged.
 */
module Redirect {
  import opened Results
  import opened Text

  const Key := "url="

  /** Length of the `https://` or `http://` that starts `s`, or 0 when neither does. */
  function SchemePrefixLength(s: string): nat {
    if "https://" <= s then 8 else if "http://" <= s then 7 else 0
  }

  predicate IsHttpUrl(s: string) {
    "http://" <= s || "https://" <= s
  }

  /**
   * The pattern matches at `i`: `url=`, then `http://` or `https://`
   * (the optional `s` leaves no other way to match), then at least one
   * character other than `&`.
   */
  predicate MatchAt(s: string, i: int) {
    && KeyAt(s, i)
    && var n := SchemePrefixLength(s[i + 4..]);
       n > 0 && i + 4 + n < |s| && s[i + 4 + n] != '&'
  }

  predicate KeyAt(s: string, i: int) {
    0 <= i && i + 4 <= |s| && s[i..i + 4] == Key
  }

  predicate IsLeftmostMatch(s: string, i: int) {
    MatchAt(s, i) && forall k :: 0 <= k < i ==> !MatchAt(s, k)
  }

  /** The leftmost match at or after `from`, as `re.search` scans. */
  function FirstMatch(s: string, from: nat): (r: Option<nat>)
    requires from <= |s|
    ensures r.Some? ==> from <= r.value < |s| && MatchAt(s, r.value)
    ensures r.Some? ==> forall k :: from <= k < r.value ==> !MatchAt(s, k)
    ensures r.None? ==> forall k :: from <= k <= |s| ==> !MatchAt(s, k)
    decreases |s| - from
  {
    if MatchAt(s, from) then Some(from)
    else if from == |s| then None
    else FirstMatch(s, from + 1)
  }

  /**
   * The link is unchanged exactly when the pattern matches nowhere;
   * otherwise the result is the group of the leftmost match: a piece of
   * the input that starts with the scheme, runs up to the next `&` or the
   * end, and holds no `&`.
   */
  function ExtractOriginalLink(url: string): (r: string)
    ensures r == url <==> forall i :: 0 <= i <= |url| ==> !MatchAt(url, i)
    ensures r != url ==> Extracted(url, r)
  {
    match FirstMatch(url, 0)
    case None => url
    case Some(i) =>
      LeftmostGroup(url, i);
      GroupAt(url, i)
  }

  /** `r` is the group of the leftmost match of the pattern in `url`. */
  ghost predicate Extracted(url: string, r: string) {
    && IsHttpUrl(r) && |r| > SchemePrefixLength(r) && '&' !in r
    && exists i :: IsLeftmostMatch(url, i) && i + 4 + |r| <= |url| && r == url[i + 4..i + 4 + |r|]
                   && (i + 4 + |r| == |url| || url[i + 4 + |r|] == '&')
  }

  lemma LeftmostGroup(url: string, i: nat)
    requires MatchAt(url, i) && forall k :: 0 <= k < i ==> !MatchAt(url, k)
    ensures var r := GroupAt(url, i);
      && r != url && Extracted(url, r)
      && !(forall j :: 0 <= j <= |url| ==> !MatchAt(url, j))
  {
    var r := GroupAt(url, i);
    assert IsLeftmostMatch(url, i);
    assert |r| < |url|;
  }

  /** The captured group of a match at `i`: from the scheme to the next `&` or the end. */
  function GroupAt(url: string, i: nat): (r: string)
    requires MatchAt(url, i)
    ensures IsHttpUrl(r) && |r| > SchemePrefixLength(r) && '&' !in r
    ensures i + 4 + |r| <= |url| && r == url[i + 4..i + 4 + |r|]
    ensures i + 4 + |r| == |url| || url[i + 4 + |r|] == '&'
  {
    var len := IndexOf(url[i + 4..], '&');
    GroupFacts(url, i, len);
    url[i + 4..][..len]
  }

  lemma GroupFacts(url: string, i: nat, len: nat)
    requires MatchAt(url, i) && len == IndexOf(url[i + 4..], '&')
    ensures var r := url[i + 4..][..len];
      && IsHttpUrl(r) && |r| > SchemePrefixLength(r) && '&' !in r
      && i + 4 + |r| <= |url| && r == url[i + 4..i + 4 + |r|]
      && (i + 4 + |r| == |url| || url[i + 4 + |r|] == '&')
  {
    var tail := url[i + 4..];
    SuffixIndex(url, i + 4, SchemePrefixLength(tail));
    GroupOfText(tail, len);
    SuffixIndex(url, i + 4, len);
  }

  /** Indexing and cutting a suffix, in terms of the whole text. */
  lemma SuffixIndex<T>(s: seq<T>, a: nat, k: nat)
    requires a + k <= |s|
    ensures s[a..][..k] == s[a..a + k]
    ensures a + k < |s| ==> s[a..][k] == s[a + k]
  {
  }

  /** The text up to the first `&` of a scheme-led text is an `&`-free URL with a host part. */
  lemma GroupOfText(s: string, len: nat)
    requires 0 < SchemePrefixLength(s) < |s| && s[SchemePrefixLength(s)] != '&'
    requires len == IndexOf(s, '&')
    ensures var r := s[..len];
      && IsHttpUrl(r) && |r| > SchemePrefixLength(r) && '&' !in r
      && (len == |s| || s[len] == '&')
  {
    var r := s[..len];
    assert '&' !in r by {
      forall k | 0 <= k < len
        ensures r[k] != '&'
      {
        assert r[k] == s[k];
      }
    }
    AmpersandAfterScheme(s);
    PrefixKeepsScheme(s, len);
  }

  /** The first `&` of a text that starts with a scheme and a non-`&` comes after both. */
  lemma AmpersandAfterScheme(s: string)
    requires SchemePrefixLength(s) < |s| && s[SchemePrefixLength(s)] != '&'
    ensures IndexOf(s, '&') > SchemePrefixLength(s)
  {
    var n, i := SchemePrefixLength(s), IndexOf(s, '&');
    SchemeHasNoAmpersand(s);
    if i < |s| {
      assert s[i] == '&';
      assert i != n && !(i < n);
    }
  }

  lemma SchemeHasNoAmpersand(s: string)
    ensures forall k :: 0 <= k < SchemePrefixLength(s) ==> s[k] != '&'
  {
    if SchemePrefixLength(s) == 8 {
      assert s[..8] == "https://";
    } else if SchemePrefixLength(s) == 7 {
      assert s[..7] == "http://";
    }
  }

  /** Cutting after the scheme keeps the scheme. */
  lemma PrefixKeepsScheme(s: string, len: nat)
    requires SchemePrefixLength(s) < len <= |s|
    ensures SchemePrefixLength(s[..len]) == SchemePrefixLength(s)
  {
    var n := SchemePrefixLength(s);
    assert s[..len][..n] == s[..n];
    if n == 7 {
      assert s[..len][..8] == s[..8];
    }
  }

  ghost predicate HasNoKey(s: string) {
    forall i :: !KeyAt(s, i)
  }

  /**
   * Unwrapping undoes wrapping: a redirector link whose own text holds no
   * `url=` and that carries `target` as a `url=` value (ended by `&` or by
   * the end of the link) yields `target`.
   */
  lemma UnwrapRedirect(base: string, target: string, tail: string)
    requires HasNoKey(base)
    requires IsHttpUrl(target) && |target| > SchemePrefixLength(target) && '&' !in target
    requires tail == [] || tail[0] == '&'
    ensures ExtractOriginalLink(base + Key + target + tail) == target
  {
    var s := base + Key + target + tail;
    assert s == base + Key + (target + tail) by {
      Associate(base + Key, target, tail);
    }
    NoMatchInBase(base, target + tail);
    MatchAfterBase(base, target, tail);
    assert FirstMatch(s, 0) == Some(|base|);
    assert s[|base| + 4..] == target + tail;
    GroupOfTarget(s, |base|, target, tail);
  }

  /** The group of a match whose text is `target` then `&` or the end is `target`. */
  lemma GroupOfTarget(s: string, i: nat, target: string, tail: string)
    requires MatchAt(s, i)
    requires s[i + 4..] == target + tail
    requires '&' !in target && (tail == [] || tail[0] == '&')
    ensures GroupAt(s, i) == target
  {
    assert IndexOf(target + tail, '&') == |target| by {
      IndexOfConcat(target, tail, '&');
    }
    assert (target + tail)[..|target|] == target;
  }

  /** A base holding no `url=` offers no match before the one appended to it. */
  lemma NoMatchInBase(base: string, rest: string)
    requires HasNoKey(base)
    ensures forall k :: 0 <= k < |base| ==> !MatchAt(base + Key + rest, k)
  {
    var s := base + Key + rest;
    forall k | 0 <= k < |base|
      ensures !KeyAt(s, k)
    {
      if k + 4 <= |base| {
        assert s[k..k + 4] == base[k..k + 4];
        assert !KeyAt(base, k);
      } else if k + 4 <= |s| {
        assert s[k..k + 4][|base| - k] == 'u';
        assert Key[|base| - k] != 'u';
      }
    }
  }

  lemma MatchAfterBase(base: string, target: string, tail: string)
    requires IsHttpUrl(target) && |target| > SchemePrefixLength(target) && '&' !in target
    ensures MatchAt(base + Key + target + tail, |base|)
  {
    var s := base + Key + target + tail;
    var start := |base| + 4;
    assert s[|base|..start] == Key;
    assert s[start..] == target + tail;
    var n := SchemePrefixLength(target);
    if n == 8 {
      assert s[start..][..8] == target[..8];
    } else {
      assert s[start..][..7] == target[..7];
      assert s[start..][..8] == target[..8];
    }
    assert s[start + n] == target[n];
  }
}
