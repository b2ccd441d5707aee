/**
 * `process_keywords` (rs.py:119-127): every caller token whose stripped,
 * lower-cased form names an alias of the `predefined_keywords` table
 * (rs.py:51-54) is replaced by that alias's comma-separated entries, each
 * stripped; any other token is kept stripped, in its own case.
 */
module Keywords {
  import opened Text

  /**
   * The entries of one alias value: its comma-separated pieces in order,
   * each stripped, so no entry holds a comma or starts or ends with white
   * space.
   */
  function AliasEntries(value: string): (r: seq<string>)
    ensures |r| == |Split(value, ',')| >= 1
    ensures |r| > 1 <==> ',' in value
    ensures forall k :: 0 <= k < |r| ==> r[k] == Strip(Split(value, ',')[k])
    ensures forall k :: 0 <= k < |r| ==> ',' !in r[k]
  {
    var pieces := Split(value, ',');
    seq(|pieces|, k requires 0 <= k < |pieces| => StripKeepsOut(pieces[k], ','); Strip(pieces[k]))
  }

  /** Stripping never brings in a character the text did not hold. */
  lemma StripKeepsOut(s: string, c: char)
    requires c !in s
    ensures c !in Strip(s)
  {
    var r := Strip(s);
    var i :| StripsAt(s, r, i);
    assert forall k :: 0 <= k < |r| ==> r[k] == s[i + k];
  }

  /**
   * Writing entries as an alias value and reading them back gives the same
   * entries, when each is comma-free and already stripped.
   */
  lemma AliasEntriesOfJoin(entries: seq<string>)
    requires |entries| >= 1
    requires forall k :: 0 <= k < |entries| ==> ',' !in entries[k] && Strip(entries[k]) == entries[k]
    ensures AliasEntries(Join(entries, ',')) == entries
  {
    SplitJoin(entries, ',');
  }

  /** Python's `key in predefined_keywords` for a caller token. */
  predicate IsAlias(token: string, aliases: map<string, string>) {
    Lower(Strip(token)) in aliases
  }

  /** What one caller token contributes to the keyword list. */
  function ExpandToken(token: string, aliases: map<string, string>): (r: seq<string>)
    ensures |r| >= 1
    ensures !IsAlias(token, aliases) ==> r == [Strip(token)]
    ensures IsAlias(token, aliases) ==> r == AliasEntries(aliases[Lower(Strip(token))])
  {
    var key := Lower(Strip(token));
    if key in aliases then AliasEntries(aliases[key]) else [Strip(token)]
  }

  /** Alias lookup ignores white space around the token. */
  lemma ExpandTokenIgnoresPadding(before: string, token: string, after: string, aliases: map<string, string>)
    requires IsSpaceRun(before) && IsSpaceRun(after)
    ensures ExpandToken(before + token + after, aliases) == ExpandToken(token, aliases)
  {
    StripIgnoresPadding(before, token, after);
  }

  /**
   * Alias lookup ignores ASCII case: a token names an alias exactly when its
   * lower-cased form does, and both expand to the same entries.
   */
  lemma ExpandTokenIgnoresCase(token: string, aliases: map<string, string>)
    ensures IsAlias(Lower(token), aliases) <==> IsAlias(token, aliases)
    ensures IsAlias(token, aliases) ==> ExpandToken(Lower(token), aliases) == ExpandToken(token, aliases)
  {
    StripLowerCommute(token);
    LowerIdempotent(Strip(token));
  }

  /** The expanded list: the tokens' contributions concatenated in input order. */
  function Expand(tokens: seq<string>, aliases: map<string, string>): seq<string> {
    if |tokens| == 0 then [] else ExpandToken(tokens[0], aliases) + Expand(tokens[1..], aliases)
  }

  /** Expansion keeps input order: a concatenation expands piecewise. */
  lemma {:induction false} ExpandConcat(a: seq<string>, b: seq<string>, aliases: map<string, string>)
    ensures Expand(a + b, aliases) == Expand(a, aliases) + Expand(b, aliases)
    decreases |a|
  {
    if |a| == 0 {
      assert a + b == b;
    } else {
      assert (a + b)[0] == a[0];
      assert (a + b)[1..] == a[1..] + b;
      ExpandConcat(a[1..], b, aliases);
    }
  }

  /** Every token contributes at least one keyword, so the list never shrinks. */
  lemma {:induction false} ExpandNeverShorter(tokens: seq<string>, aliases: map<string, string>)
    ensures |Expand(tokens, aliases)| >= |tokens|
    ensures |Expand(tokens, aliases)| == |tokens| <==> forall k :: 0 <= k < |tokens| ==> |ExpandToken(tokens[k], aliases)| == 1
    decreases |tokens|
  {
    if |tokens| > 0 {
      var rest := tokens[1..];
      ExpandNeverShorter(rest, aliases);
      assert forall k :: 0 <= k < |rest| ==> rest[k] == tokens[k + 1];
      assert |Expand(tokens, aliases)| == |ExpandToken(tokens[0], aliases)| + |Expand(rest, aliases)|;
    }
  }

  /** With no alias among the tokens, expansion is plain stripping. */
  lemma {:induction false} ExpandWithoutAliases(tokens: seq<string>, aliases: map<string, string>)
    requires forall k :: 0 <= k < |tokens| ==> !IsAlias(tokens[k], aliases)
    ensures |Expand(tokens, aliases)| == |tokens|
    ensures forall k :: 0 <= k < |tokens| ==> Expand(tokens, aliases)[k] == Strip(tokens[k])
    decreases |tokens|
  {
    if |tokens| > 0 {
      var rest := tokens[1..];
      assert forall k :: 0 <= k < |rest| ==> rest[k] == tokens[k + 1];
      ExpandWithoutAliases(rest, aliases);
      ConsStripped(tokens[0], Expand(rest, aliases), rest);
      assert Expand(tokens, aliases) == [Strip(tokens[0])] + Expand(rest, aliases);
    }
  }

  lemma ConsStripped(token: string, tail: seq<string>, rest: seq<string>)
    requires |tail| == |rest| && forall k :: 0 <= k < |rest| ==> tail[k] == Strip(rest[k])
    ensures var e := [Strip(token)] + tail;
      |e| == |rest| + 1 && e[0] == Strip(token) && forall k :: 1 <= k < |e| ==> e[k] == Strip(rest[k - 1])
  {
  }

  /** Appending one token appends exactly its contribution. */
  lemma ExpandSnoc(tokens: seq<string>, token: string, aliases: map<string, string>)
    ensures Expand(tokens + [token], aliases) == Expand(tokens, aliases) + ExpandToken(token, aliases)
  {
    ExpandConcat(tokens, [token], aliases);
    assert [token][1..] == [];
    assert Expand([token], aliases) == ExpandToken(token, aliases) + [];
  }

  lemma ExpandPrefix(tokens: seq<string>, i: nat, aliases: map<string, string>)
    requires i < |tokens|
    ensures Expand(tokens[..i + 1], aliases) == Expand(tokens[..i], aliases) + ExpandToken(tokens[i], aliases)
  {
    assert tokens[..i + 1] == tokens[..i] + [tokens[i]];
    ExpandSnoc(tokens[..i], tokens[i], aliases);
  }

  /** The loop of `process_keywords`. */
  method ProcessKeywords(keywords: seq<string>, aliases: map<string, string>) returns (processed: seq<string>)
    ensures processed == Expand(keywords, aliases)
    ensures |processed| >= |keywords|
  {
    processed := [];
    var i := 0;
    while i < |keywords|
      invariant 0 <= i <= |keywords|
      invariant processed == Expand(keywords[..i], aliases)
    {
      ExpandPrefix(keywords, i, aliases);
      processed := processed + ExpandToken(keywords[i], aliases);
      i := i + 1;
    }
    assert keywords[..i] == keywords;
    assert |processed| >= |keywords| by {
      ExpandNeverShorter(keywords, aliases);
    }
  }
}
