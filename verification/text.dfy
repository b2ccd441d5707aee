/**
 * The handful of Python `str` operations rs.py relies on, over `seq<char>`:
 * `strip`, ASCII `lower`, `in` (substring), `find`/`rfind`, `split`.
 */
module Text {

  /** Python's `str.isspace` for a single character. */
  predicate IsSpace(c: char) {
    || c == ' '
    || ('\t' <= c <= '\r')
    || ('\U{1C}' <= c <= '\U{1F}')
    || c == '\U{85}' || c == '\U{A0}' || c == '\U{1680}'
    || ('\U{2000}' <= c <= '\U{200A}')
    || c == '\U{2028}' || c == '\U{2029}' || c == '\U{202F}'
    || c == '\U{205F}' || c == '\U{3000}'
  }

  /** The first index at or after `i` whose character is not white space, or `|s|`. */
  function SkipSpace(s: string, i: nat): (j: nat)
    requires i <= |s|
    ensures i <= j <= |s|
    ensures forall k :: i <= k < j ==> IsSpace(s[k])
    ensures j < |s| ==> !IsSpace(s[j])
    decreases |s| - i
  {
    if i < |s| && IsSpace(s[i]) then SkipSpace(s, i + 1) else i
  }

  /** Where `s[lo..hi]` ends once its trailing white space is dropped. */
  function TrimSpaceEnd(s: string, lo: nat, hi: nat): (e: nat)
    requires lo <= hi <= |s|
    ensures lo <= e <= hi
    ensures forall k :: e <= k < hi ==> IsSpace(s[k])
    ensures e > lo ==> !IsSpace(s[e - 1])
    decreases hi
  {
    if hi > lo && IsSpace(s[hi - 1]) then TrimSpaceEnd(s, lo, hi - 1) else hi
  }

  /**
   * `s.strip()`: the unique contiguous piece of `s` that neither starts nor
   * ends with white space and leaves only white space around it.
   */
  function Strip(s: string): (r: string)
    ensures exists i :: StripsAt(s, r, i)
    ensures r == [] || (!IsSpace(r[0]) && !IsSpace(r[|r| - 1]))
  {
    var i := SkipSpace(s, 0);
    var e := TrimSpaceEnd(s, i, |s|);
    StripPieces(s, i, e);
    s[i..e]
  }

  /** `r` sits at `i` in `s` with only white space before and after it. */
  predicate StripsAt(s: string, r: string, i: int) {
    0 <= i <= |s| - |r| && r == s[i..i + |r|] && IsSpaceRun(s[..i]) && IsSpaceRun(s[i + |r|..])
  }

  lemma StripPieces(s: string, i: nat, e: nat)
    requires i <= e <= |s|
    requires forall k :: 0 <= k < i ==> IsSpace(s[k])
    requires forall k :: e <= k < |s| ==> IsSpace(s[k])
    requires e > i ==> !IsSpace(s[i]) && !IsSpace(s[e - 1])
    ensures StripsAt(s, s[i..e], i)
    ensures var r := s[i..e]; r == [] || (!IsSpace(r[0]) && !IsSpace(r[|r| - 1]))
  {
    SpaceRunPrefix(s, i);
    SpaceRunSuffix(s, e);
  }

  lemma SpaceRunPrefix(s: string, i: nat)
    requires i <= |s|
    requires forall k :: 0 <= k < i ==> IsSpace(s[k])
    ensures IsSpaceRun(s[..i])
  {
    forall k | 0 <= k < i ensures IsSpace(s[..i][k]) {
      assert s[..i][k] == s[k];
    }
  }

  lemma SpaceRunSuffix(s: string, n: nat)
    requires n <= |s|
    requires forall k :: n <= k < |s| ==> IsSpace(s[k])
    ensures IsSpaceRun(s[n..])
  {
    forall k | 0 <= k < |s| - n ensures IsSpace(s[n..][k]) {
      assert s[n..][k] == s[n + k];
    }
  }

  /**
   * Strip returns the piece between any two positions that have only white
   * space outside them and none just inside them.
   */
  lemma StripAtIndices(s: string, i: nat, n: nat)
    requires i <= n <= |s|
    requires forall k :: 0 <= k < i ==> IsSpace(s[k])
    requires forall k :: n <= k < |s| ==> IsSpace(s[k])
    requires i < n ==> !IsSpace(s[i]) && !IsSpace(s[n - 1])
    ensures Strip(s) == s[i..n]
  {
    var j := SkipSpace(s, 0);
    var e := TrimSpaceEnd(s, j, |s|);
    if i == n {
      assert j == |s|;
    } else {
      assert j == i;
      assert e == n;
    }
  }

  lemma StripBetween(s: string)
    ensures var i := SkipSpace(s, 0); Strip(s) == s[i..TrimSpaceEnd(s, i, |s|)]
  {
  }

  /** White space around a text does not change what strip returns. */
  lemma StripIgnoresPadding(a: string, t: string, b: string)
    requires IsSpaceRun(a) && IsSpaceRun(b)
    ensures Strip(a + t + b) == Strip(t)
  {
    var i := SkipSpace(t, 0);
    var e := TrimSpaceEnd(t, i, |t|);
    assert Strip(a + t + b) == t[i..e] by {
      PaddedSpaces(a, t, b, i, e);
      MiddleSlice(a, t, b, i, e);
      StripAtIndices(a + t + b, |a| + i, |a| + e);
    }
    StripBetween(t);
  }

  lemma PaddedSpaces(a: string, t: string, b: string, i: nat, e: nat)
    requires IsSpaceRun(a) && IsSpaceRun(b) && i <= e <= |t|
    requires forall k :: 0 <= k < i ==> IsSpace(t[k])
    requires forall k :: e <= k < |t| ==> IsSpace(t[k])
    ensures forall k :: 0 <= k < |a| + i ==> IsSpace((a + t + b)[k])
    ensures forall k :: |a| + e <= k < |a| + |t| + |b| ==> IsSpace((a + t + b)[k])
  {
    var s := a + t + b;
    forall k | 0 <= k < |s|
      ensures s[k] == if k < |a| then a[k] else if k < |a| + |t| then t[k - |a|] else b[k - |a| - |t|]
    {
    }
  }

  lemma MiddleSlice<T>(a: seq<T>, t: seq<T>, b: seq<T>, i: nat, e: nat)
    requires i <= e <= |t|
    ensures (a + t + b)[|a| + i..|a| + e] == t[i..e]
    ensures i < e ==> (a + t + b)[|a| + i] == t[i] && (a + t + b)[|a| + e - 1] == t[e - 1]
  {
  }

  /** Stripping and lower-casing commute. */
  lemma StripLowerCommute(s: string)
    ensures Strip(Lower(s)) == Lower(Strip(s))
  {
    var i := SkipSpace(s, 0);
    var e := TrimSpaceEnd(s, i, |s|);
    var l := Lower(s);
    assert Strip(l) == l[i..e] by {
      LowerKeepsSpace(s);
      StripAtIndices(l, i, e);
    }
    LowerSlice(s, i, e);
    StripBetween(s);
  }

  lemma LowerSlice(s: string, i: nat, e: nat)
    requires i <= e <= |s|
    ensures Lower(s)[i..e] == Lower(s[i..e])
  {
    var l, m := Lower(s)[i..e], Lower(s[i..e]);
    forall k | 0 <= k < e - i
      ensures l[k] == m[k]
    {
      assert l[k] == LowerChar(s[i + k]);
      assert m[k] == LowerChar(s[i..e][k]);
    }
  }

  predicate IsSpaceRun(s: string) {
    forall k :: 0 <= k < |s| ==> IsSpace(s[k])
  }

  predicate IsUpper(c: char) {
    'A' <= c <= 'Z'
  }

  /** ASCII case folding: Python's `str.lower` restricted to `A`..`Z`. */
  function LowerChar(c: char): char {
    if IsUpper(c) then (c as int + 32) as char else c
  }

  /**
   * `s.lower()` on ASCII letters: no upper-case letter is left, each one
   * becomes the letter 32 code points on, and every other character stays.
   */
  function Lower(s: string): (r: string)
    ensures |r| == |s|
    ensures forall k :: 0 <= k < |r| ==> !IsUpper(r[k])
    ensures forall k :: 0 <= k < |s| && IsUpper(s[k]) ==> r[k] as int == s[k] as int + 32
    ensures forall k :: 0 <= k < |s| && !IsUpper(s[k]) ==> r[k] == s[k]
  {
    seq(|s|, k requires 0 <= k < |s| => LowerChar(s[k]))
  }

  /** Lower-casing twice is lower-casing once. */
  lemma LowerIdempotent(s: string)
    ensures Lower(Lower(s)) == Lower(s)
  {
    var once := Lower(s);
    assert forall k :: 0 <= k < |once| ==> Lower(once)[k] == once[k];
  }

  /** Case folding touches no white space, in either direction. */
  lemma LowerKeepsSpace(s: string)
    ensures forall k :: 0 <= k < |s| ==> (IsSpace(Lower(s)[k]) <==> IsSpace(s[k]))
  {
  }

  /** Python's `p in s` for strings: `p` occurs contiguously in `s`. */
  predicate Contains(s: string, p: string)
    decreases |s|
  {
    p <= s || (|s| > 0 && Contains(s[1..], p))
  }

  /** `p` sits in `s` starting at index `i`. */
  predicate OccursAt(s: string, p: string, i: int) {
    0 <= i && i + |p| <= |s| && s[i..i + |p|] == p
  }

  /** `p in s` holds exactly when `p` sits in `s` at some index. */
  lemma {:induction false} ContainsOccurs(s: string, p: string)
    ensures Contains(s, p) <==> exists i :: OccursAt(s, p, i)
    decreases |s|
  {
    if p <= s {
      assert OccursAt(s, p, 0);
    } else if |s| > 0 {
      ContainsOccurs(s[1..], p);
      if Contains(s[1..], p) {
        var i :| OccursAt(s[1..], p, i);
        assert s[i + 1..i + 1 + |p|] == s[1..][i..i + |p|];
        assert OccursAt(s, p, i + 1);
      }
      if i :| OccursAt(s, p, i) && i > 0 {
        assert s[1..][i - 1..i - 1 + |p|] == s[i..i + |p|];
        assert OccursAt(s[1..], p, i - 1);
      }
    }
  }

  /**
   * Position of the first `c` in `s`, or `|s|` when there is none
   * (Python's `find`, with "not found" moved to the end of the string).
   */
  function IndexOf(s: string, c: char): (i: nat)
    ensures i <= |s|
    ensures i < |s| <==> c in s
    ensures i < |s| ==> s[i] == c
    ensures forall k :: 0 <= k < i ==> s[k] != c
  {
    if |s| == 0 then 0
    else if s[0] == c then 0
    else 1 + IndexOf(s[1..], c)
  }

  /** Position of the first character of `s` that is in `cs`, or `|s|`. */
  function IndexOfAny(s: string, cs: set<char>): (i: nat)
    ensures i <= |s|
    ensures i < |s| ==> s[i] in cs
    ensures forall k :: 0 <= k < i ==> s[k] !in cs
  {
    if |s| == 0 then 0
    else if s[0] in cs then 0
    else 1 + IndexOfAny(s[1..], cs)
  }

  /** Python's `rfind` for a character known to occur. */
  function LastIndexOf(s: string, c: char): (i: nat)
    requires c in s
    ensures i < |s| && s[i] == c
    ensures forall k :: i < k < |s| ==> s[k] != c
  {
    if s[|s| - 1] == c then |s| - 1 else LastIndexOf(s[..|s| - 1], c)
  }

  lemma Associate<T>(a: seq<T>, b: seq<T>, c: seq<T>)
    ensures a + b + c == a + (b + c)
  {
  }

  lemma SplitAround<T>(s: seq<T>, j: nat)
    requires j < |s|
    ensures s[..j] + [s[j]] + s[j + 1..] == s
  {
  }

  lemma IndexOfConcat(a: string, b: string, c: char)
    ensures IndexOf(a + b, c) == if c in a then IndexOf(a, c) else |a| + IndexOf(b, c)
  {
    var i := IndexOf(a + b, c);
    if c in a {
      var j := IndexOf(a, c);
      assert (a + b)[j] == c;
    } else {
      assert forall k :: 0 <= k < |a| ==> (a + b)[k] != c;
      if c in b {
        var j := IndexOf(b, c);
        assert (a + b)[|a| + j] == c;
        assert forall k :: |a| <= k < |a| + j ==> (a + b)[k] != c;
      } else {
        assert c !in a + b;
      }
    }
  }

  lemma IndexOfAnyConcat(a: string, b: string, cs: set<char>)
    ensures IndexOfAny(a + b, cs) == if IndexOfAny(a, cs) < |a| then IndexOfAny(a, cs) else |a| + IndexOfAny(b, cs)
  {
    var i := IndexOfAny(a + b, cs);
    var j := IndexOfAny(a, cs);
    if j < |a| {
      assert (a + b)[j] in cs;
    } else {
      assert forall k :: 0 <= k < |a| ==> (a + b)[k] !in cs;
      var m := IndexOfAny(b, cs);
      if m < |b| {
        assert (a + b)[|a| + m] in cs;
      }
      assert forall k :: |a| <= k < |a| + m ==> (a + b)[k] !in cs;
    }
  }

  /** `sep.join(parts)` for a one-character separator. */
  function Join(parts: seq<string>, sep: char): string
    requires |parts| >= 1
  {
    if |parts| == 1 then parts[0] else parts[0] + [sep] + Join(parts[1..], sep)
  }

  /**
   * `s.split(sep)` for a one-character separator: never empty, no piece
   * holds the separator, and joining the pieces gives `s` back.
   */
  function Split(s: string, sep: char): (parts: seq<string>)
    ensures |parts| >= 1
    ensures forall k :: 0 <= k < |parts| ==> sep !in parts[k]
    ensures Join(parts, sep) == s
    ensures |parts| > 1 <==> sep in s
    decreases |s|
  {
    var i := IndexOf(s, sep);
    if i == |s| then [s]
    else
      var rest := Split(s[i + 1..], sep);
      assert ([s[..i]] + rest)[1..] == rest;
      assert s == s[..i] + [sep] + s[i + 1..];
      [s[..i]] + rest
  }

  /** Splitting undoes joining when no piece holds the separator. */
  lemma {:induction false} SplitJoin(parts: seq<string>, sep: char)
    requires |parts| >= 1
    requires forall k :: 0 <= k < |parts| ==> sep !in parts[k]
    ensures Split(Join(parts, sep), sep) == parts
    decreases |parts|
  {
    if |parts| > 1 {
      var first, rest := parts[0], Join(parts[1..], sep);
      SplitAtFirst(Join(parts, sep), first, rest, sep);
      SplitJoin(parts[1..], sep);
      assert parts == [first] + parts[1..];
    }
  }

  /** Text without the separator splits into itself alone. */
  lemma SplitWhole(s: string, sep: char)
    requires sep !in s
    ensures Split(s, sep) == [s]
  {
  }

  /** Splitting at the first separator: the piece before it, then the rest split. */
  lemma SplitAtFirst(s: string, first: string, rest: string, sep: char)
    requires s == first + [sep] + rest && sep !in first
    ensures Split(s, sep) == [first] + Split(rest, sep)
  {
    Associate(first, [sep], rest);
    assert IndexOf(s, sep) == |first| by {
      IndexOfConcat(first, [sep] + rest, sep);
    }
    assert s[..|first|] == first;
    assert s[|first| + 1..] == rest;
  }

  /** Joining one more piece appends the separator and that piece. */
  lemma {:induction false} JoinSnoc(parts: seq<string>, last: string, sep: char)
    requires |parts| >= 1
    ensures Join(parts + [last], sep) == Join(parts, sep) + [sep] + last
    decreases |parts|
  {
    var ps := parts + [last];
    if |parts| == 1 {
      assert ps[1..] == [last];
    } else {
      assert ps[0] == parts[0];
      assert ps[1..] == parts[1..] + [last];
      JoinSnoc(parts[1..], last, sep);
      var head, mid := parts[0] + [sep], Join(parts[1..], sep);
      Associate(head, mid + [sep], last);
      Associate(head, mid, [sep]);
    }
  }

  /** Splitting at a separator after which none follows: the pieces before it, then the rest. */
  lemma SplitSnoc(s: string, last: string, sep: char)
    requires sep !in last
    ensures Split(s + [sep] + last, sep) == Split(s, sep) + [last]
  {
    var parts := Split(s, sep) + [last];
    JoinSnoc(Split(s, sep), last, sep);
    assert forall k :: 0 <= k < |parts| ==> sep !in parts[k];
    SplitJoin(parts, sep);
  }

  predicate EndsWithText(s: string, t: string) {
    |t| <= |s| && s[|s| - |t|..] == t
  }

  /** `s` is `a`, the separator, `b` -- alone or after a separator ending whatever precedes. */
  predicate EndsWithPieces(s: string, a: string, b: string, sep: char) {
    s == a + [sep] + b || EndsWithText(s, [sep] + a + [sep] + b)
  }

  lemma SnocLast<T>(s: seq<T>)
    requires |s| > 0
    ensures s == s[..|s| - 1] + [s[|s| - 1]]
  {
  }

  /** Text with a separator ends with its last two pieces. */
  lemma SplitLastTwo(s: string, sep: char)
    requires sep in s
    ensures var ps := Split(s, sep); EndsWithPieces(s, ps[|ps| - 2], ps[|ps| - 1], sep)
  {
    JoinEndsWithPieces(Split(s, sep), sep);
  }

  lemma JoinEndsWithPieces(ps: seq<string>, sep: char)
    requires |ps| > 1
    ensures EndsWithPieces(Join(ps, sep), ps[|ps| - 2], ps[|ps| - 1], sep)
  {
    var n := |ps|;
    var a, b := ps[n - 2], ps[n - 1];
    var front := ps[..n - 1];
    SnocLast(ps);
    JoinSnoc(front, b, sep);
    if n == 2 {
      assert front == [a];
    } else {
      SnocLast(front);
      JoinAfterPieces(front[..n - 2], a, b, sep);
    }
  }

  lemma JoinAfterPieces(pre: seq<string>, a: string, b: string, sep: char)
    requires |pre| >= 1
    ensures EndsWithText(Join(pre, sep) + [sep] + a + [sep] + b, [sep] + a + [sep] + b)
  {
    var j := Join(pre, sep);
    var tail := [sep] + a + [sep] + b;
    assert j + [sep] + a + [sep] + b == j + tail by {
      Associate(j + [sep], a, [sep] + b);
      Associate(j, [sep], a + ([sep] + b));
    }
    assert (j + tail)[|j|..] == tail;
  }

  /** The last piece of a split is the text after the last separator: a suffix of it. */
  lemma LastPieceOf(s: string, sep: char)
    ensures var ps := Split(s, sep); EndsWithText(s, ps[|ps| - 1])
  {
    var ps := Split(s, sep);
    var n := |ps|;
    if n > 1 {
      var front := ps[..n - 1];
      SnocLast(ps);
      JoinSnoc(front, ps[n - 1], sep);
      assert s[|s| - |ps[n - 1]|..] == ps[n - 1];
    }
  }

  /** The converse of `SplitLastTwo`: separator-free `a` and `b` at the end are the last two pieces. */
  lemma SplitOfLastTwo(s: string, a: string, b: string, sep: char)
    requires sep !in a && sep !in b && EndsWithPieces(s, a, b, sep)
    ensures var ps := Split(s, sep); |ps| > 1 && ps[|ps| - 2] == a && ps[|ps| - 1] == b
  {
    SplitWhole(a, sep);
    if s == a + [sep] + b {
      SplitSnoc(a, b, sep);
    } else {
      var tail := [sep] + a + [sep] + b;
      var pre := s[..|s| - |tail|];
      var mid := pre + [sep] + a;
      assert s == mid + [sep] + b by {
        assert s == pre + tail;
        Associate([sep] + a, [sep], b);
        Associate(pre, [sep] + a, [sep] + b);
        Associate(pre, [sep], a);
        Associate(mid, [sep], b);
      }
      SplitSnoc(mid, b, sep);
      SplitSnoc(pre, a, sep);
    }
  }
}
