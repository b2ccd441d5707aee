/**
 * `trim_url` (rs.py:91-94): percent-decode the link, split it with
 * `urlparse`, and put back only scheme, netloc and path. Decoding comes
 * first, so an encoded `%3F` or `%23` ends the path like a literal `?`/`#`.
 */
module Trim {
  import opened Results
  import opened Text
  import opened Percent
  import opened UrlParse

  /**
   * The trimmed link carries no query and no fragment, and fails exactly
   * when the decoded link does not parse: for a `scheme://netloc` link,
   * when its netloc has an unbalanced `[`/`]` (`TrimRejectsUnbalanced`).
   */
  function TrimUrl(url: string): (r: Result<string>)
    ensures r.Failure? <==> Urlparse(Unquote(url)).Failure?
    ensures r.Failure? ==> r.error == InvalidIpv6Url
    ensures r.Success? ==> '?' !in r.value && '#' !in r.value
  {
    var p :- Urlparse(Unquote(url));
    ReassemblyHasNoDelimiters(p);
    Success(Urlunparse(Parts(p.scheme, p.netloc, p.path, "", "", "")))
  }

  lemma ReassemblyHasNoDelimiters(p: Parts)
    requires WellSplit(p)
    ensures var r := Urlunparse(Parts(p.scheme, p.netloc, p.path, "", "", ""));
      '?' !in r && '#' !in r
  {
    var r := Urlunparse(Parts(p.scheme, p.netloc, p.path, "", "", ""));
    assert r == Urlunsplit(p.scheme, p.netloc, p.path, "", "");
  }

  /**
   * What follows the first literal `?` or `#` never shows in the trimmed
   * link: query and fragment are discarded, whatever they hold.
   */
  lemma TrimDropsQueryAndFragment(url: string, c: char, tail: string)
    requires c == '?' || c == '#'
    ensures TrimUrl(url + [c] + tail) == TrimUrl(url)
  {
    assert Unquote(url + [c] + tail) == Unquote(url) + [c] + Unquote(tail) by {
      Associate(url, [c], tail);
      UnquoteConcat(url, [c] + tail);
      assert Unquote([c] + tail) == [c] + Unquote(tail) by {
        assert ([c] + tail)[1..] == tail;
      }
      Associate(Unquote(url), [c], Unquote(tail));
    }
    UrlparseIgnoresTail(Unquote(url), c, Unquote(tail));
  }

  /**
   * An encoded `?` or `#` (`%3F`, `%3f`, `%23`) is decoded before the split,
   * so it cuts the link just as the literal character does.
   */
  lemma TrimDecodesBeforeSplitting(url: string, escape: string, tail: string)
    requires escape == "%3F" || escape == "%3f" || escape == "%23"
    ensures TrimUrl(url + escape + tail) == TrimUrl(url)
  {
    var c := if escape == "%23" then '#' else '?';
    assert Unquote(url + escape + tail) == Unquote(url) + [c] + Unquote(tail) by {
      Associate(url, escape, tail);
      UnquoteConcat(url, escape + tail);
      UnquoteLeadingEscape(escape, tail, c);
      Associate(Unquote(url), [c], Unquote(tail));
    }
    UrlparseIgnoresTail(Unquote(url), c, Unquote(tail));
  }

  /**
   * A link that is already just `scheme://netloc/path` comes back unchanged:
   * lower-case scheme, a netloc with no delimiter or bracket, and nothing
   * that percent-decoding, the params split or `urlsplit`'s stripping of
   * tabs and line breaks would alter.
   */
  lemma TrimKeepsLocation(scheme: string, netloc: string, path: string)
    requires scheme != [] && IsAsciiAlpha(scheme[0]) && IsSchemeName(scheme) && Lower(scheme) == scheme
    requires netloc != [] && (forall k :: 0 <= k < |netloc| ==> netloc[k] !in NetlocEnd)
    requires '[' !in netloc && ']' !in netloc && '%' !in netloc && IsSafe(netloc)
    requires (path == [] || path[0] == '/') && '?' !in path && '#' !in path
    requires '%' !in path && IsSafe(path)
    requires scheme in UsesParams ==> NoParamsIn(path)
    ensures TrimUrl(scheme + "://" + netloc + path) == Success(scheme + "://" + netloc + path)
  {
    var url := scheme + "://" + netloc + path;
    var p := Parts(scheme, netloc, path, "", "", "");
    assert Urlunparse(p) == url by {
      UrlunsplitLocation(scheme, netloc, path);
    }
    assert Unquote(url) == url by {
      assert '%' !in url by {
        SchemeLacks(scheme, '%');
      }
    }
    assert Urlparse(url) == Success(p) by {
      UrlparseOfUnparse(p);
    }
  }

  /**
   * For a scheme that uses params, `;params` after the last path segment is
   * dropped with the query and fragment.
   */
  lemma TrimDropsParams(scheme: string, netloc: string, path: string, params: string)
    requires scheme != [] && IsAsciiAlpha(scheme[0]) && IsSchemeName(scheme) && Lower(scheme) == scheme
    requires scheme in UsesParams
    requires netloc != [] && (forall k :: 0 <= k < |netloc| ==> netloc[k] !in NetlocEnd)
    requires '[' !in netloc && ']' !in netloc && '%' !in netloc && IsSafe(netloc)
    requires path != [] && path[0] == '/' && '?' !in path && '#' !in path
    requires '%' !in path && IsSafe(path) && NoParamsIn(path)
    requires '/' !in params && '?' !in params && '#' !in params && '%' !in params && IsSafe(params)
    ensures TrimUrl(scheme + "://" + netloc + path + ";" + params) == Success(scheme + "://" + netloc + path)
    ensures TrimUrl(scheme + "://" + netloc + path + ";" + params) == TrimUrl(scheme + "://" + netloc + path)
  {
    var base := scheme + "://" + netloc + path;
    var url := base + ";" + params;
    assert Urlparse(Unquote(url)) == Success(Parts(scheme, netloc, path, params, "", "")) by {
      ParsedWithParams(scheme, netloc, path, params);
    }
    assert Urlunparse(Parts(scheme, netloc, path, "", "", "")) == base by {
      UrlunsplitLocation(scheme, netloc, path);
    }
    TrimKeepsLocation(scheme, netloc, path);
  }

  lemma ParsedWithParams(scheme: string, netloc: string, path: string, params: string)
    requires scheme != [] && IsAsciiAlpha(scheme[0]) && IsSchemeName(scheme) && Lower(scheme) == scheme
    requires scheme in UsesParams
    requires netloc != [] && (forall k :: 0 <= k < |netloc| ==> netloc[k] !in NetlocEnd)
    requires '[' !in netloc && ']' !in netloc && '%' !in netloc && IsSafe(netloc)
    requires path != [] && path[0] == '/' && '?' !in path && '#' !in path
    requires '%' !in path && IsSafe(path) && NoParamsIn(path)
    requires '/' !in params && '?' !in params && '#' !in params && '%' !in params && IsSafe(params)
    ensures var url := scheme + "://" + netloc + path + ";" + params;
      Urlparse(Unquote(url)) == Success(Parts(scheme, netloc, path, params, "", ""))
  {
    var url := scheme + "://" + netloc + path + ";" + params;
    assert Unquote(url) == url by {
      assert '%' !in url by {
        SchemeLacks(scheme, '%');
      }
    }
    assert Urlparse(url) == Success(Parts(scheme, netloc, path, params, "", "")) by {
      UrlparseSplitsParams(scheme, netloc, path, params);
    }
  }

  /**
   * A `scheme://netloc` link with no `%` fails to trim exactly when its
   * netloc holds one of `[` and `]` without the other.
   */
  lemma TrimRejectsUnbalanced(scheme: string, netloc: string, tail: string)
    requires scheme != [] && IsAsciiAlpha(scheme[0]) && IsSchemeName(scheme)
    requires forall k :: 0 <= k < |netloc| ==> netloc[k] !in NetlocEnd
    requires tail == [] || tail[0] in NetlocEnd
    requires IsSafe(netloc) && IsSafe(tail) && '%' !in netloc && '%' !in tail
    ensures TrimUrl(scheme + "://" + netloc + tail).Failure? <==> ('[' in netloc) != (']' in netloc)
  {
    var url := scheme + "://" + netloc + tail;
    assert Unquote(url) == url by {
      assert '%' !in url by {
        SchemeLacks(scheme, '%');
      }
    }
    UrlparseFailsWithSplit(url);
    UrlsplitRejectsUnbalanced(scheme, netloc, tail);
  }

  lemma SchemeLacks(scheme: string, c: char)
    requires IsSchemeName(scheme) && !IsSchemeChar(c)
    ensures c !in scheme
  {
    assert forall k :: 0 <= k < |scheme| ==> IsSchemeChar(scheme[k]);
  }
}
