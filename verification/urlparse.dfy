/**
 * The part of `urllib.parse` (CPython 3.12) that rs.py reaches through
 * `urlparse`, `urlunparse` and the `hostname` property: the six-part split
 * of a URL and its reassembly.
 */
module UrlParse {
  import opened Results
  import opened Text

  /** `ParseResult`: scheme://netloc/path;params?query#fragment */
  datatype Parts = Parts(
    scheme: string, netloc: string, path: string,
    params: string, query: string, fragment: string)

  const UsesParams: set<string> := {
    "", "ftp", "hdl", "prospero", "http", "imap", "https", "shttp",
    "rtsp", "rtsps", "rtspu", "sip", "sips", "mms", "sftp", "tel"}

  const UsesNetloc: set<string> := {
    "", "ftp", "http", "gopher", "nntp", "telnet", "imap", "wais", "file",
    "mms", "https", "shttp", "snews", "prospero", "rtsp", "rtsps", "rtspu",
    "rsync", "svn", "svn+ssh", "sftp", "nfs", "git", "git+ssh", "ws", "wss",
    "itms-services"}

  /** Characters that end the netloc. */
  const NetlocEnd: set<char> := {'/', '?', '#'}

  predicate IsAsciiAlpha(c: char) {
    ('a' <= c <= 'z') || ('A' <= c <= 'Z')
  }

  predicate IsSchemeChar(c: char) {
    IsAsciiAlpha(c) || ('0' <= c <= '9') || c == '+' || c == '-' || c == '.'
  }

  predicate IsSchemeName(s: string) {
    forall k :: 0 <= k < |s| ==> IsSchemeChar(s[k])
  }

  /** `url.lstrip(_WHATWG_C0_CONTROL_OR_SPACE)`: drops leading U+0000..U+0020. */
  function LStripControl(s: string): (r: string)
    ensures |r| <= |s| && r == s[|s| - |r|..]
    ensures r == [] || r[0] > ' '
  {
    if |s| > 0 && s[0] <= ' ' then LStripControl(s[1..]) else s
  }

  predicate IsUnsafe(c: char) {
    c == '\t' || c == '\r' || c == '\n'
  }

  /** Removes every tab, carriage return and line feed. */
  function RemoveUnsafe(s: string): (r: string)
    ensures |r| <= |s|
    ensures forall k :: 0 <= k < |r| ==> !IsUnsafe(r[k])
  {
    if |s| == 0 then ""
    else if IsUnsafe(s[0]) then RemoveUnsafe(s[1..])
    else [s[0]] + RemoveUnsafe(s[1..])
  }

  /** What `urlsplit` does to its input before splitting. */
  function Sanitize(url: string): string {
    RemoveUnsafe(LStripControl(url))
  }

  /**
   * The scheme is everything before the first `:` when that is non-empty,
   * starts with an ASCII letter and holds scheme characters only; it is
   * lower-cased. Otherwise there is no scheme.
   */
  function SplitScheme(url: string): (r: (string, string))
    ensures IsSchemeName(r.0)
    ensures r.0 == [] ==> r.1 == url
    ensures r.0 != [] ==>
      var i := |r.0|;
      && i < |url| && url[i] == ':' && ':' !in url[..i]
      && IsAsciiAlpha(url[0]) && IsSchemeName(url[..i])
      && r.0 == Lower(url[..i]) && r.1 == url[i + 1..]
  {
    var i := IndexOf(url, ':');
    if 0 < i < |url| && IsAsciiAlpha(url[0]) && IsSchemeName(url[..i]) then
      (Lower(url[..i]), url[i + 1..])
    else
      ("", url)
  }

  /** `_splitnetloc(url, 2)` when `url` starts with `//`. */
  function SplitNetloc(url: string): (r: (string, string))
    ensures forall k :: 0 <= k < |r.0| ==> r.0[k] !in NetlocEnd
    ensures "//" <= url ==> url == "//" + r.0 + r.1 && (r.1 == [] || r.1[0] in NetlocEnd)
    ensures !("//" <= url) ==> r == ("", url)
  {
    if "//" <= url then
      var d := 2 + IndexOfAny(url[2..], NetlocEnd);
      (url[2..d], url[d..])
    else
      ("", url)
  }

  /** Python's `a, b = s.split(c, 1)` guarded by `if c in s`. */
  function CutAt(s: string, c: char): (r: (string, string))
    ensures c !in r.0
    ensures c in s ==> s == r.0 + [c] + r.1
    ensures c !in s ==> r == (s, "")
  {
    var i := IndexOf(s, c);
    if i < |s| then (s[..i], s[i + 1..]) else (s, "")
  }

  /** `urlsplit(url)`: scheme, netloc, path, query and fragment (no params). */
  function Urlsplit(url: string): (r: Result<Parts>)
    ensures r.Failure? ==> r.error == InvalidIpv6Url
    ensures r.Success? ==> WellSplit(r.value)
  {
    var u := Sanitize(url);
    var (scheme, rest) := SplitScheme(u);
    var (netloc, rest2) := SplitNetloc(rest);
    if ('[' in netloc) != (']' in netloc) then
      Failure(InvalidIpv6Url)
    else
      var (beforeFragment, fragment) := CutAt(rest2, '#');
      var (path, query) := CutAt(beforeFragment, '?');
      Success(Parts(scheme, netloc, path, "", query, fragment))
  }

  /** What any split URL satisfies: the delimiters cannot leak into earlier parts. */
  predicate WellSplit(p: Parts) {
    && IsSchemeName(p.scheme)
    && (forall k :: 0 <= k < |p.netloc| ==> p.netloc[k] !in NetlocEnd)
    && '?' !in p.path && '#' !in p.path
    && '#' !in p.query
  }

  /**
   * `_splitparams(path)`: `;params` starts at the first `;` after the last
   * `/`, or at the first `;` when there is no `/`. So the params hold no
   * `/`, and every `;` left in the path has a `/` after it.
   */
  function SplitParams(path: string): (r: (string, string))
    ensures |r.0| <= |path| && r.0 == path[..|r.0|] && NoParamsIn(r.0)
    ensures |r.0| < |path| ==> path == r.0 + ";" + r.1 && '/' !in r.1
    ensures |r.0| >= |path| ==> r == (path, "")
  {
    var i := ParamsCut(path);
    ParamsCutFacts(path);
    if i < |path| then
      SplitAround(path, i);
      (path[..i], path[i + 1..])
    else
      assert path[..|path|] == path;
      (path, "")
  }

  /** Every `;` has a `/` somewhere after it: the last segment holds no params. */
  predicate NoParamsIn(s: string) {
    forall k :: 0 <= k < |s| && s[k] == ';' ==> '/' in s[k + 1..]
  }

  /** Where the search for `;` begins: the last `/`, or the start. */
  function ParamsStart(path: string): (start: nat)
    ensures start <= |path|
    ensures '/' in path ==> start < |path| && path[start] == '/' && '/' !in path[start + 1..]
    ensures '/' !in path ==> start == 0
  {
    if '/' in path then LastIndexOf(path, '/') else 0
  }

  /** Position of the first `;` from `ParamsStart`, or the length. */
  function ParamsCut(path: string): (i: nat)
    ensures ParamsStart(path) <= i <= |path|
    ensures forall k :: ParamsStart(path) <= k < i ==> path[k] != ';'
    ensures i < |path| ==> path[i] == ';'
  {
    var start := ParamsStart(path);
    var j := IndexOf(path[start..], ';');
    assert forall k :: start <= k < start + j ==> path[k] == path[start..][k - start];
    start + j
  }

  lemma ParamsCutFacts(path: string)
    ensures NoParamsIn(path[..ParamsCut(path)])
    ensures ParamsCut(path) < |path| ==> '/' !in path[ParamsCut(path) + 1..]
  {
    var start, i := ParamsStart(path), ParamsCut(path);
    var a := path[..i];
    forall k | 0 <= k < |a| && a[k] == ';'
      ensures '/' in a[k + 1..]
    {
      assert a[k + 1..][start - k - 1] == '/';
    }
  }

  /** The converse of `SplitParams`: a `;` after the last `/`, none before it in that segment. */
  lemma SplitParamsOf(a: string, b: string)
    requires NoParamsIn(a) && '/' !in b
    ensures SplitParams(a + ";" + b) == (a, b)
  {
    var path := a + ";" + b;
    assert ParamsCut(path) == |a| by {
      ParamsCutOf(a, b);
    }
    assert path[..|a|] == a;
    assert path[|a| + 1..] == b;
  }

  lemma ParamsCutOf(a: string, b: string)
    requires NoParamsIn(a) && '/' !in b
    ensures ParamsCut(a + ";" + b) == |a|
  {
    var path := a + ";" + b;
    var start, i := ParamsStart(path), ParamsCut(path);
    assert path[|a|] == ';';
    assert path[|a| + 1..] == b;
    assert start <= |a|;
    assert path[..|a|] == a;
  }

  /** `urlparse(url)`: `urlsplit` plus `;params` for the schemes that use them. */
  function Urlparse(url: string): (r: Result<Parts>)
    ensures r.Failure? ==> r.error == InvalidIpv6Url
    ensures r.Success? ==> WellSplit(r.value)
  {
    var p :- Urlsplit(url);
    if p.scheme in UsesParams && ';' in p.path then
      var (path, params) := SplitParams(p.path);
      Success(p.(path := path, params := params))
    else
      Success(p)
  }

  /** `urlunsplit`: reassembly of the five `urlsplit` parts. */
  function Urlunsplit(scheme: string, netloc: string, path: string, query: string, fragment: string): (r: string)
    ensures query == [] && fragment == [] ==>
      forall ch :: ch in r ==> ch in scheme || ch in netloc || ch in path || ch == ':' || ch == '/'
  {
    var url :=
      if netloc != [] then
        "//" + netloc + (if path != [] && path[0] != '/' then "/" + path else path)
      else if "//" <= path then
        "//" + path
      else if scheme != [] && scheme in UsesNetloc && (path == [] || path[0] == '/') then
        "//" + path
      else
        path;
    var url := if scheme != [] then scheme + ":" + url else url;
    var url := if query != [] then url + "?" + query else url;
    if fragment != [] then url + "#" + fragment else url
  }

  /** `urlunparse`: params are re-attached to the path with `;`. */
  function Urlunparse(p: Parts): string {
    var path := if p.params != [] then p.path + ";" + p.params else p.path;
    Urlunsplit(p.scheme, p.netloc, path, p.query, p.fragment)
  }

  /**
   * The `hostname` property: the netloc after its last `@`, inside `[...]`
   * when bracketed, otherwise before the first `:`; lower-cased up to an
   * IPv6 zone `%`; absent when empty.
   */
  function Hostname(netloc: string): (r: Option<string>)
    ensures r.Some? ==> r.value != []
  {
    var hostinfo := if '@' in netloc then netloc[LastIndexOf(netloc, '@') + 1..] else netloc;
    var host :=
      if '[' in hostinfo then
        var bracketed := hostinfo[IndexOf(hostinfo, '[') + 1..];
        bracketed[..IndexOf(bracketed, ']')]
      else
        hostinfo[..IndexOf(hostinfo, ':')];
    if host == [] then None
    else
      var z := IndexOf(host, '%');
      Some(Lower(host[..z]) + host[z..])
  }

  /** A delimiter followed by its part, or nothing for an empty part. */
  function Delimited(c: char, part: string): string {
    if part == [] then [] else [c] + part
  }

  lemma NotInDelimited(x: char, c: char, part: string)
    requires x != c && x !in part
    ensures x !in Delimited(c, part)
  {
  }

  /**
   * The layout `urlunsplit` produces for a URL with a scheme and a netloc:
   * `scheme://netloc/path?query#fragment`, each delimiter present exactly
   * when its part is non-empty.
   */
  lemma UrlunsplitLayout(scheme: string, netloc: string, path: string, query: string, fragment: string)
    requires scheme != [] && netloc != [] && (path == [] || path[0] == '/')
    ensures Urlunsplit(scheme, netloc, path, query, fragment)
      == scheme + "://" + netloc + path + Delimited('?', query) + Delimited('#', fragment)
  {
    var base := scheme + ":" + ("//" + netloc + path);
    assert base == scheme + "://" + netloc + path by {
      Associate(scheme, ":", "//");
      Associate(scheme + ":", "//", netloc);
      Associate(scheme + ":", "//" + netloc, path);
    }
    AppendDelimited(base, '?', query);
    AppendDelimited(base + Delimited('?', query), '#', fragment);
  }

  /** Without query and fragment, `urlunsplit` gives `scheme://netloc/path`. */
  lemma UrlunsplitLocation(scheme: string, netloc: string, path: string)
    requires scheme != [] && netloc != [] && (path == [] || path[0] == '/')
    ensures Urlunsplit(scheme, netloc, path, "", "") == scheme + "://" + netloc + path
  {
    UrlunsplitLayout(scheme, netloc, path, "", "");
    var url := scheme + "://" + netloc + path;
    assert Delimited('?', "") == [] && Delimited('#', "") == [];
    assert url + [] + [] == url;
  }

  lemma AppendDelimited(u: string, c: char, part: string)
    ensures (if part != [] then u + [c] + part else u) == u + Delimited(c, part)
  {
    if part == [] {
      assert u + [] == u;
    }
  }

  /** No tab, carriage return or line feed: what `urlsplit` would strip. */
  predicate IsSafe(s: string) {
    '\t' !in s && '\r' !in s && '\n' !in s
  }

  lemma {:induction false} RemoveUnsafeOfSafe(s: string)
    requires IsSafe(s)
    ensures RemoveUnsafe(s) == s
    decreases |s|
  {
    if |s| > 0 {
      assert s[0] in s;
      assert forall c :: c in s[1..] ==> c in s;
      RemoveUnsafeOfSafe(s[1..]);
      assert s == [s[0]] + s[1..];
    }
  }

  lemma SanitizeOfSafe(s: string)
    requires IsSafe(s) && (s == [] || s[0] > ' ')
    ensures Sanitize(s) == s
  {
    RemoveUnsafeOfSafe(s);
  }

  /** A scheme name before the first `:` is split off and lower-cased. */
  lemma SplitSchemeOf(scheme: string, rest: string)
    requires scheme != [] && IsAsciiAlpha(scheme[0]) && IsSchemeName(scheme)
    ensures SplitScheme(scheme + ":" + rest) == (Lower(scheme), rest)
  {
    var url := scheme + ":" + rest;
    assert ':' !in scheme by {
      assert forall k :: 0 <= k < |scheme| ==> IsSchemeChar(scheme[k]);
    }
    assert IndexOf(url, ':') == |scheme| by {
      Associate(scheme, ":", rest);
      IndexOfConcat(scheme, ":" + rest, ':');
    }
    assert url[..|scheme|] == scheme;
    assert url[|scheme| + 1..] == rest;
  }

  /** After `//` the netloc runs up to the first `/`, `?` or `#`. */
  lemma SplitNetlocOf(netloc: string, rest: string)
    requires forall k :: 0 <= k < |netloc| ==> netloc[k] !in NetlocEnd
    requires rest == [] || rest[0] in NetlocEnd
    ensures SplitNetloc("//" + netloc + rest) == (netloc, rest)
  {
    var url := "//" + netloc + rest;
    assert url[..2] == "//";
    assert url[2..] == netloc + rest;
    assert IndexOfAny(netloc + rest, NetlocEnd) == |netloc| by {
      IndexOfAnyConcat(netloc, rest, NetlocEnd);
    }
    assert url[2..2 + |netloc|] == netloc;
    assert url[2 + |netloc|..] == rest;
  }

  /** Cutting at a delimited part gives back what precedes it and the part. */
  lemma CutDelimited(a: string, c: char, part: string)
    requires c !in a
    ensures CutAt(a + Delimited(c, part), c) == (a, part)
  {
    if part == [] {
      assert a + Delimited(c, part) == a;
    } else {
      var s := a + ([c] + part);
      assert IndexOf(s, c) == |a| by {
        IndexOfConcat(a, [c] + part, c);
      }
      assert s[..|a|] == a;
      assert s[|a| + 1..] == part;
    }
  }

  /** The pieces of `urlunsplit` that follow the netloc start with a netloc delimiter. */
  lemma TailAfterNetloc(path: string, query: string, fragment: string)
    requires path == [] || path[0] == '/'
    ensures var t := path + Delimited('?', query) + Delimited('#', fragment);
      t == [] || t[0] in NetlocEnd
  {
  }

  /**
   * `urlsplit` undoes `urlunsplit` for a URL with a scheme and a netloc,
   * when no part holds a delimiter that would end it early and nothing
   * holds a character `urlsplit` strips. Only the scheme's case is lost.
   */
  lemma UrlsplitOfUnsplit(scheme: string, netloc: string, path: string, query: string, fragment: string)
    requires scheme != [] && IsAsciiAlpha(scheme[0]) && IsSchemeName(scheme)
    requires netloc != [] && (forall k :: 0 <= k < |netloc| ==> netloc[k] !in NetlocEnd)
    requires '[' !in netloc && ']' !in netloc
    requires (path == [] || path[0] == '/') && '?' !in path && '#' !in path
    requires '#' !in query
    requires IsSafe(netloc) && IsSafe(path) && IsSafe(query) && IsSafe(fragment)
    ensures Urlsplit(Urlunsplit(scheme, netloc, path, query, fragment))
      == Success(Parts(Lower(scheme), netloc, path, "", query, fragment))
  {
    var beforeFragment := path + Delimited('?', query);
    var tail := beforeFragment + Delimited('#', fragment);
    var rest := "//" + netloc + tail;
    var url := Urlunsplit(scheme, netloc, path, query, fragment);
    assert url == scheme + ":" + rest by {
      UrlunsplitLayout(scheme, netloc, path, query, fragment);
      UnsplitReassociate(scheme, netloc, path, Delimited('?', query), Delimited('#', fragment));
    }
    assert Sanitize(url) == url by {
      SafeDelimited(path, '?', query);
      SafeDelimited(beforeFragment, '#', fragment);
      SafeLayout(scheme, netloc, tail);
      SanitizeOfSafe(url);
    }
    assert SplitScheme(url) == (Lower(scheme), rest) by {
      SplitSchemeOf(scheme, rest);
    }
    assert SplitNetloc(rest) == (netloc, tail) by {
      TailAfterNetloc(path, query, fragment);
      SplitNetlocOf(netloc, tail);
    }
    assert CutAt(tail, '#') == (beforeFragment, fragment) by {
      NotInDelimited('#', '?', query);
      CutDelimited(beforeFragment, '#', fragment);
    }
    assert CutAt(beforeFragment, '?') == (path, query) by {
      CutDelimited(path, '?', query);
    }
  }

  lemma SafeDelimited(a: string, c: char, part: string)
    requires IsSafe(a) && IsSafe(part) && !IsUnsafe(c)
    ensures IsSafe(a + Delimited(c, part))
  {
  }

  lemma SafeLayout(scheme: string, netloc: string, tail: string)
    requires scheme != [] && IsAsciiAlpha(scheme[0]) && IsSchemeName(scheme)
    requires IsSafe(netloc) && IsSafe(tail)
    ensures var url := scheme + ":" + ("//" + netloc + tail); IsSafe(url) && url[0] > ' '
  {
    assert IsSafe(scheme) by {
      assert forall k :: 0 <= k < |scheme| ==> IsSchemeChar(scheme[k]);
    }
  }

  lemma UnsplitReassociate(scheme: string, netloc: string, path: string, q: string, f: string)
    ensures scheme + "://" + netloc + path + q + f == scheme + ":" + ("//" + netloc + (path + q + f))
  {
  }

  /**
   * `urlsplit` raises exactly when the netloc holds one of `[` and `]`
   * without the other; balanced or absent brackets split.
   */
  lemma UrlsplitRejectsUnbalanced(scheme: string, netloc: string, tail: string)
    requires scheme != [] && IsAsciiAlpha(scheme[0]) && IsSchemeName(scheme)
    requires forall k :: 0 <= k < |netloc| ==> netloc[k] !in NetlocEnd
    requires tail == [] || tail[0] in NetlocEnd
    requires IsSafe(netloc) && IsSafe(tail)
    ensures Urlsplit(scheme + "://" + netloc + tail).Failure? <==> ('[' in netloc) != (']' in netloc)
  {
    SplitsAtNetloc(scheme, netloc, tail);
    UrlsplitFailsOnNetloc(scheme + "://" + netloc + tail, "//" + netloc + tail, netloc, tail);
  }

  /** A safe `scheme://netloc` URL reaches the netloc split with `//netloc` and the tail. */
  lemma SplitsAtNetloc(scheme: string, netloc: string, tail: string)
    requires scheme != [] && IsAsciiAlpha(scheme[0]) && IsSchemeName(scheme)
    requires forall k :: 0 <= k < |netloc| ==> netloc[k] !in NetlocEnd
    requires tail == [] || tail[0] in NetlocEnd
    requires IsSafe(netloc) && IsSafe(tail)
    ensures SplitScheme(Sanitize(scheme + "://" + netloc + tail)).1 == "//" + netloc + tail
    ensures SplitNetloc("//" + netloc + tail) == (netloc, tail)
  {
    SanitizeLayout(scheme, netloc, tail);
    SplitSchemeOf(scheme, "//" + netloc + tail);
    SplitNetlocOf(netloc, tail);
  }

  /** Such a URL is left alone by the sanitizing step. */
  lemma SanitizeLayout(scheme: string, netloc: string, tail: string)
    requires scheme != [] && IsAsciiAlpha(scheme[0]) && IsSchemeName(scheme)
    requires IsSafe(netloc) && IsSafe(tail)
    ensures Sanitize(scheme + "://" + netloc + tail) == scheme + ":" + ("//" + netloc + tail)
  {
    var url := scheme + ":" + ("//" + netloc + tail);
    SchemeLayout(scheme, netloc, tail);
    assert Sanitize(url) == url by {
      SafeLayout(scheme, netloc, tail);
      SanitizeOfSafe(url);
    }
  }

  lemma SchemeLayout(scheme: string, netloc: string, tail: string)
    ensures scheme + "://" + netloc + tail == scheme + ":" + ("//" + netloc + tail)
  {
  }

  /** `urlparse` fails exactly when `urlsplit` does; the params cut cannot fail. */
  lemma UrlparseFailsWithSplit(url: string)
    ensures Urlparse(url).Failure? <==> Urlsplit(url).Failure?
  {
  }

  lemma UrlsplitFailsOnNetloc(url: string, rest: string, netloc: string, tail: string)
    requires SplitScheme(Sanitize(url)).1 == rest && SplitNetloc(rest) == (netloc, tail)
    ensures Urlsplit(url).Failure? <==> ('[' in netloc) != (']' in netloc)
  {
  }

  /**
   * `urlparse` undoes `urlunparse` likewise; params come back when the scheme
   * uses them, and the path then holds no `;` the params split would take.
   */
  lemma UrlparseOfUnparse(p: Parts)
    requires p.scheme != [] && IsAsciiAlpha(p.scheme[0]) && IsSchemeName(p.scheme)
    requires p.netloc != [] && (forall k :: 0 <= k < |p.netloc| ==> p.netloc[k] !in NetlocEnd)
    requires '[' !in p.netloc && ']' !in p.netloc
    requires (p.path == [] || p.path[0] == '/') && '?' !in p.path && '#' !in p.path
    requires '#' !in p.query
    requires IsSafe(p.netloc) && IsSafe(p.path) && IsSafe(p.query) && IsSafe(p.fragment)
    requires Lower(p.scheme) in UsesParams ==> NoParamsIn(p.path)
    requires p.params != [] ==>
      && Lower(p.scheme) in UsesParams && p.path != []
      && IsSafe(p.params) && '/' !in p.params && '?' !in p.params && '#' !in p.params
    ensures Urlparse(Urlunparse(p)) == Success(p.(scheme := Lower(p.scheme)))
  {
    var path := if p.params != [] then p.path + ";" + p.params else p.path;
    UrlsplitOfUnsplit(p.scheme, p.netloc, path, p.query, p.fragment);
    if p.params != [] {
      SplitParamsOf(p.path, p.params);
    } else if Lower(p.scheme) in UsesParams {
      SplitParamsNone(p.path);
    }
  }

  /**
   * For a scheme that uses params, `;params` after a last path segment
   * without `;` comes back as the params, even when empty.
   */
  lemma UrlparseSplitsParams(scheme: string, netloc: string, path: string, params: string)
    requires scheme != [] && IsAsciiAlpha(scheme[0]) && IsSchemeName(scheme) && Lower(scheme) in UsesParams
    requires netloc != [] && (forall k :: 0 <= k < |netloc| ==> netloc[k] !in NetlocEnd)
    requires '[' !in netloc && ']' !in netloc && IsSafe(netloc)
    requires path != [] && path[0] == '/' && '?' !in path && '#' !in path && IsSafe(path) && NoParamsIn(path)
    requires '/' !in params && '?' !in params && '#' !in params && IsSafe(params)
    ensures Urlparse(scheme + "://" + netloc + path + ";" + params)
      == Success(Parts(Lower(scheme), netloc, path, params, "", ""))
  {
    var url := scheme + "://" + netloc + path + ";" + params;
    var full := path + ";" + params;
    assert Urlsplit(url) == Success(Parts(Lower(scheme), netloc, full, "", "", "")) by {
      assert Urlunsplit(scheme, netloc, full, "", "") == url by {
        UrlunsplitLocation(scheme, netloc, full);
        assert scheme + "://" + netloc + full == url;
      }
      UrlsplitOfUnsplit(scheme, netloc, full, "", "");
    }
    SplitParamsOf(path, params);
  }

  /** A path whose every `;` has a `/` after it keeps them all: no params. */
  lemma SplitParamsNone(path: string)
    requires NoParamsIn(path)
    ensures SplitParams(path) == (path, "")
  {
    ParamsCutFacts(path);
  }

  /** A plain host name: the `hostname` is the whole netloc, lower-cased. */
  lemma HostnameOfHost(host: string)
    requires host != []
    requires '@' !in host && ':' !in host && '[' !in host && ']' !in host && '%' !in host
    ensures Hostname(host) == Some(Lower(host))
  {
    assert host[..|host|] == host;
    assert host[|host|..] == [];
    assert Lower(host) + [] == Lower(host);
  }

  /** A port after the host does not reach the `hostname`. */
  lemma HostnameIgnoresPort(host: string, port: string)
    requires ':' !in host && '[' !in host && '[' !in port && '@' !in host && '@' !in port
    ensures Hostname(host + ":" + port) == Hostname(host)
  {
    var hostinfo := host + ":" + port;
    assert '@' !in hostinfo && '[' !in hostinfo;
    assert IndexOf(hostinfo, ':') == |host| by {
      Associate(host, ":", port);
      IndexOfConcat(host, ":" + port, ':');
    }
    assert hostinfo[..|host|] == host;
    assert host[..IndexOf(host, ':')] == host;
  }

  /** User information before the last `@` does not reach the `hostname`. */
  lemma HostnameIgnoresUserinfo(userinfo: string, hostinfo: string)
    requires '@' !in hostinfo
    ensures Hostname(userinfo + "@" + hostinfo) == Hostname(hostinfo)
  {
    var netloc := userinfo + "@" + hostinfo;
    assert netloc[|userinfo|] == '@';
    assert LastIndexOf(netloc, '@') == |userinfo|;
    assert netloc[|userinfo| + 1..] == hostinfo;
  }

  /** Two parse outcomes agree on scheme, netloc and path, or fail alike. */
  predicate SameLocation(a: Result<Parts>, b: Result<Parts>) {
    match a
    case Failure(e) => b == Failure(e)
    case Success(p) =>
      b.Success? && b.value.scheme == p.scheme && b.value.netloc == p.netloc && b.value.path == p.path
  }

  /**
   * Whatever follows the first `?` or `#` handed to `urlparse` never reaches
   * its scheme, netloc or path, nor decides whether it fails.
   */
  lemma UrlparseIgnoresTail(d: string, c: char, e: string)
    requires c == '?' || c == '#'
    ensures SameLocation(Urlparse(d + [c] + e), Urlparse(d))
  {
    UrlsplitIgnoresTail(d, c, e);
  }

  lemma UrlsplitIgnoresTail(d: string, c: char, e: string)
    requires c == '?' || c == '#'
    ensures SameLocation(Urlsplit(d + [c] + e), Urlsplit(d))
  {
    var e' := RemoveUnsafe(e);
    SanitizeCut(d, c, e);
    var u := Sanitize(d);
    var v := Sanitize(d + [c] + e);
    assert v == u + [c] + e';
    SplitSchemeCut(u, c, e');
    var rest := SplitScheme(u).1;
    assert SplitScheme(v).1 == rest + [c] + e';
    SplitNetlocCut(rest, c, e');
    var netloc := SplitNetloc(rest).0;
    var rest2 := SplitNetloc(rest).1;
    assert SplitNetloc(rest + [c] + e').0 == netloc;
    assert SplitNetloc(rest + [c] + e').1 == rest2 + [c] + e';
    PathIgnoresTail(rest2, c, e');
  }

  /** The path cut out of the text after the netloc ignores a `?`/`#` tail. */
  lemma PathIgnoresTail(r: string, c: char, e: string)
    requires c == '?' || c == '#'
    ensures CutAt(CutAt(r + [c] + e, '#').0, '?').0 == CutAt(CutAt(r, '#').0, '?').0
  {
    if '#' !in r {
      assert CutAt(r + [c] + e, '#').0 == r + CutAt([c] + e, '#').0 by {
        Associate(r, [c], e);
        CutAtConcat(r, [c] + e, '#');
      }
      if c == '?' {
        var rest := CutAt(e, '#').0;
        assert CutAt([c] + e, '#').0 == [c] + rest by {
          CutAtConcat([c], e, '#');
        }
        CutAtConcat(r, [c] + rest, '?');
      } else {
        assert CutAt([c] + e, '#').0 == [];
        assert r + [] == r;
      }
    } else {
      Associate(r, [c], e);
      CutAtConcat(r, [c] + e, '#');
    }
  }

  lemma {:induction false} LStripControlCut(d: string, c: char, e: string)
    requires c > ' '
    ensures LStripControl(d + [c] + e) == LStripControl(d) + [c] + e
    decreases |d|
  {
    if |d| == 0 {
      assert d + [c] + e == [c] + e;
    } else {
      assert (d + [c] + e)[0] == d[0];
      assert (d + [c] + e)[1..] == d[1..] + [c] + e;
      LStripControlCut(d[1..], c, e);
    }
  }

  lemma {:induction false} RemoveUnsafeConcat(a: string, b: string)
    ensures RemoveUnsafe(a + b) == RemoveUnsafe(a) + RemoveUnsafe(b)
    decreases |a|
  {
    if |a| == 0 {
      assert a + b == b;
    } else {
      assert (a + b)[0] == a[0];
      assert (a + b)[1..] == a[1..] + b;
      RemoveUnsafeConcat(a[1..], b);
    }
  }

  lemma SanitizeCut(d: string, c: char, e: string)
    requires c == '?' || c == '#'
    ensures Sanitize(d + [c] + e) == Sanitize(d) + [c] + RemoveUnsafe(e)
  {
    var l := LStripControl(d);
    var x, y := RemoveUnsafe(l), RemoveUnsafe(e);
    assert LStripControl(d + [c] + e) == l + ([c] + e) by {
      LStripControlCut(d, c, e);
      Associate(l, [c], e);
    }
    assert RemoveUnsafe(l + ([c] + e)) == x + ([c] + y) by {
      RemoveUnsafeConcat(l, [c] + e);
      RemoveUnsafeCons(c, e);
    }
    Associate(x, [c], y);
  }

  lemma RemoveUnsafeCons(c: char, e: string)
    requires !IsUnsafe(c)
    ensures RemoveUnsafe([c] + e) == [c] + RemoveUnsafe(e)
  {
    assert ([c] + e)[1..] == e;
  }

  lemma SplitSchemeCut(u: string, c: char, e: string)
    requires c == '?' || c == '#'
    ensures SplitScheme(u + [c] + e).0 == SplitScheme(u).0
    ensures SplitScheme(u + [c] + e).1 == SplitScheme(u).1 + [c] + e
  {
    if ':' in u {
      SplitSchemeCutColon(u, c, e);
    } else {
      SplitSchemeCutNoColon(u, c, e);
    }
  }

  /** With no `:` before the cut, any `:` after it follows a `?` or `#`, so there is no scheme. */
  lemma SplitSchemeCutNoColon(u: string, c: char, e: string)
    requires c == '?' || c == '#'
    requires ':' !in u
    ensures SplitScheme(u + [c] + e) == ("", u + [c] + e)
  {
    var v := u + [c] + e;
    var i := IndexOf(v, ':');
    assert i > |u| by {
      Associate(u, [c], e);
      IndexOfConcat(u, [c] + e, ':');
      assert ([c] + e)[0] == c;
    }
    if i < |v| {
      assert v[..i][|u|] == c;
    }
  }

  lemma SplitSchemeCutColon(u: string, c: char, e: string)
    requires ':' in u
    ensures SplitScheme(u + [c] + e).0 == SplitScheme(u).0
    ensures SplitScheme(u + [c] + e).1 == SplitScheme(u).1 + [c] + e
  {
    var v := u + [c] + e;
    var i := IndexOf(u, ':');
    assert IndexOf(v, ':') == i by {
      Associate(u, [c], e);
      IndexOfConcat(u, [c] + e, ':');
    }
    assert v[..i] == u[..i];
    assert v[i + 1..] == u[i + 1..] + [c] + e;
    assert v[0] == u[0];
  }

  lemma SplitNetlocCut(u: string, c: char, e: string)
    requires c == '?' || c == '#'
    ensures SplitNetloc(u + [c] + e) == (SplitNetloc(u).0, SplitNetloc(u).1 + [c] + e)
  {
    if "//" <= u {
      SplitNetlocCutSlashes(u, c, e);
    } else {
      var v := u + [c] + e;
      assert !("//" <= v) by {
        if |u| < 2 {
          assert v[|u|] == c;
        } else {
          assert v[..2] == u[..2];
        }
      }
    }
  }

  lemma SplitNetlocCutSlashes(u: string, c: char, e: string)
    requires c == '?' || c == '#'
    requires "//" <= u
    ensures SplitNetloc(u + [c] + e) == (SplitNetloc(u).0, SplitNetloc(u).1 + [c] + e)
  {
    var v := u + [c] + e;
    var d := 2 + IndexOfAny(u[2..], NetlocEnd);
    assert "//" <= v by {
      assert v[..2] == u[..2];
    }
    assert 2 + IndexOfAny(v[2..], NetlocEnd) == d by {
      assert v[2..] == u[2..] + ([c] + e);
      IndexOfAnyConcat(u[2..], [c] + e, NetlocEnd);
    }
    assert v[2..d] == u[2..d];
    assert v[d..] == u[d..] + [c] + e;
  }

  lemma CutAtConcat(a: string, b: string, c: char)
    ensures CutAt(a + b, c).0 == if c in a then CutAt(a, c).0 else a + CutAt(b, c).0
  {
    IndexOfConcat(a, b, c);
    var i := IndexOf(a + b, c);
    if c in a {
      assert (a + b)[..i] == a[..i];
    } else if c in b {
      assert (a + b)[..i] == a + b[..IndexOf(b, c)];
    }
  }
}
