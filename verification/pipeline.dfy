/**
 * The body of `run_news_search` (rs.py:129-160): the keywords are expanded,
 * a publication threshold is fixed, and every entry of every feed goes
 * through one pass of gates. A title that passes the date, duplicate and
 * keyword gates is remembered before its article is fetched; an entry whose
 * article yields a usable snippet is emitted under the next ordinal.
 *
 * The fuzzy matcher, the base64 decoder, the article fetcher and the word
 * tokenizer are outside the model; they are parameters (`Services`).
 * Publication dates arrive already parsed, as microseconds since the epoch.
 */
module Pipeline {
  import opened Results
  import opened Text
  import Redirect
  import Aggregator
  import UrlParse
  import Trim
  import Keywords

  /** A fuzzy score at or above this marks a title as a near duplicate. */
  const DuplicateScore := 95
  /** A snippet with fewer tokens than this is not emitted. */
  const MinSnippetTokens := 10
  const MicrosPerDay := 86_400_000_000

  /** One feed entry; a missing attribute is `None`. */
  datatype Entry = Entry(title: Option<string>, link: Option<string>, published: Option<int>)

  /** One printed result: ordinal, stripped title, date, trimmed link, snippet. */
  datatype Item = Item(ordinal: nat, title: string, published: int, link: string, snippet: string)

  /**
   * The collaborators the loop calls: `fuzz.ratio`, `base64.urlsafe_b64decode`,
   * `fetch_and_filter_article`, and `len(word_tokenize(...))`.
   */
  datatype Services = Services(
    ratio: (string, string) -> int,
    base64: string -> Option<seq<Aggregator.byte>>,
    fetch: string -> Option<string>,
    tokenCount: string -> nat)

  datatype Config = Config(keywords: seq<string>, threshold: int, services: Services)

  /** `seen_titles` keys in insertion order, `totalCount`, and what has been printed. */
  datatype State = State(seen: seq<string>, count: nat, emitted: seq<Item>)

  /** The loop's final state, and the exception that stopped it, if one did. */
  datatype Outcome = Outcome(state: State, error: Option<Error>)

  const Initial := State([], 0, [])

  /**
   * `title.lower().strip()`: no ASCII capital and no surrounding white space
   * is left, and stripping first would give the same key.
   */
  function Normalize(title: string): (r: string)
    ensures r == Lower(Strip(title))
    ensures forall k :: 0 <= k < |r| ==> !IsUpper(r[k])
    ensures r == [] || (!IsSpace(r[0]) && !IsSpace(r[|r| - 1]))
  {
    StripLowerCommute(title);
    Strip(Lower(title))
  }

  /**
   * `trim_url(get_source_url(extract_original_link(link)))`; either inner
   * call may raise, and nothing between them catches: a decode failure is
   * the link's failure, and a decoded source is trimmed.
   */
  function ResolveLink(raw: string, base64: string -> Option<seq<Aggregator.byte>>): (r: Result<string>)
    ensures r.Success? ==> '?' !in r.value && '#' !in r.value
    ensures var source := Aggregator.GetSourceUrl(Redirect.ExtractOriginalLink(raw), base64);
      && (source.Failure? ==> r == Failure(source.error))
      && (source.Success? ==> r == Trim.TrimUrl(source.value))
  {
    var source :- Aggregator.GetSourceUrl(Redirect.ExtractOriginalLink(raw), base64);
    Trim.TrimUrl(source)
  }

  /** A direct link (no `url=` redirect, not an aggregator article) is only trimmed. */
  lemma DirectLinkIsTrimmed(raw: string, base64: string -> Option<seq<Aggregator.byte>>)
    requires forall i :: 0 <= i <= |raw| ==> !Redirect.MatchAt(raw, i)
    requires UrlParse.Urlparse(raw).Success? && !Aggregator.IsArticleLink(raw)
    ensures ResolveLink(raw, base64) == Trim.TrimUrl(raw)
  {
  }

  /** A redirector link resolves to its trimmed target when the target is a direct link. */
  lemma RedirectLinkIsUnwrapped(base: string, target: string, tail: string, base64: string -> Option<seq<Aggregator.byte>>)
    requires Redirect.HasNoKey(base)
    requires Redirect.IsHttpUrl(target) && |target| > Redirect.SchemePrefixLength(target) && '&' !in target
    requires tail == [] || tail[0] == '&'
    requires UrlParse.Urlparse(target).Success? && !Aggregator.IsArticleLink(target)
    ensures ResolveLink(base + Redirect.Key + target + tail, base64) == Trim.TrimUrl(target)
  {
    Redirect.UnwrapRedirect(base, target, tail);
  }

  /**
   * A link that leads to an aggregator article whose token base64 rejects
   * stops the entry, and with it the run, before any gate is looked at.
   */
  lemma BadTokenStopsStep(cfg: Config, st: State, e: Entry, rest: seq<Entry>)
    requires e.link.Some?
    requires Aggregator.IsArticleLink(Redirect.ExtractOriginalLink(e.link.value))
    requires cfg.services.base64(ArticleTokenOfLink(e.link.value) + "==").None?
    ensures Step(cfg, st, e) == Failure(InvalidBase64)
    ensures Run(cfg, st, [e] + rest) == Outcome(st, Some(InvalidBase64))
  {
    assert ([e] + rest)[0] == e;
  }

  /**
   * Likewise a token that decodes to bytes with nothing between the header
   * and the trailer: the code indexes the empty payload and raises.
   */
  lemma EmptyPayloadStopsStep(cfg: Config, st: State, e: Entry, rest: seq<Entry>, b: seq<Aggregator.byte>)
    requires e.link.Some?
    requires Aggregator.IsArticleLink(Redirect.ExtractOriginalLink(e.link.value))
    requires cfg.services.base64(ArticleTokenOfLink(e.link.value) + "==") == Some(b)
    requires Aggregator.StripTrailer(Aggregator.StripHeader(b)) == []
    ensures Step(cfg, st, e) == Failure(EmptyPayload)
    ensures Run(cfg, st, [e] + rest) == Outcome(st, Some(EmptyPayload))
  {
    assert ([e] + rest)[0] == e;
  }

  /** The aggregator token that a link leads to, once any redirect is unwrapped. */
  function ArticleTokenOfLink(raw: string): string
    requires Aggregator.IsArticleLink(Redirect.ExtractOriginalLink(raw))
  {
    Aggregator.ArticleToken(UrlParse.Urlparse(Redirect.ExtractOriginalLink(raw)).value).value
  }

  /** An article link whose token frames a short URL resolves to that URL, trimmed. */
  lemma ArticleLinkResolves(raw: string, base64: string -> Option<seq<Aggregator.byte>>, url: seq<Aggregator.byte>)
    requires Aggregator.IsArticleLink(Redirect.ExtractOriginalLink(raw))
    requires |url| < 0x80 && base64(ArticleTokenOfLink(raw) + "==") == Some(Aggregator.Frame(url))
    ensures ResolveLink(raw, base64) == Trim.TrimUrl(Aggregator.Latin1(url))
  {
    Aggregator.ArticleLinkRoundTrip(Redirect.ExtractOriginalLink(raw), base64, url);
  }

  /** `any(fuzz.ratio(normalized_title, existing) >= 95 for existing in seen_titles)` */
  predicate NearDuplicate(ratio: (string, string) -> int, title: string, seen: seq<string>) {
    exists j | 0 <= j < |seen| :: ratio(title, seen[j]) >= DuplicateScore
  }

  /** `any(k.lower() in normalized_title for k in keywords)` */
  predicate MatchesKeyword(title: string, keywords: seq<string>) {
    exists k | 0 <= k < |keywords| :: Contains(title, Lower(keywords[k]))
  }

  /** The keyword gate passes exactly when some lower-cased keyword sits somewhere in the title. */
  lemma MatchesKeywordOccurs(title: string, keywords: seq<string>)
    ensures MatchesKeyword(title, keywords) <==>
      exists k, i :: 0 <= k < |keywords| && OccursAt(title, Lower(keywords[k]), i)
  {
    forall k | 0 <= k < |keywords| {
      ContainsOccurs(title, Lower(keywords[k]));
    }
  }

  /** The gates an entry passes before its title is remembered (rs.py:149-155). */
  predicate PassesGates(cfg: Config, st: State, title: Option<string>, link: Option<string>, published: Option<int>) {
    && title.Some? && title.value != []
    && link.Some? && link.value != []
    && published.Some? && published.value >= cfg.threshold
    && !NearDuplicate(cfg.services.ratio, Normalize(title.value), st.seen)
    && MatchesKeyword(Normalize(title.value), cfg.keywords)
  }

  predicate UsableSnippet(services: Services, snippet: Option<string>) {
    snippet.Some? && snippet.value != [] && services.tokenCount(snippet.value) >= MinSnippetTokens
  }

  /**
   * The gates of one entry whose link has been resolved. An entry that fails
   * a gate changes nothing; one that passes them has its title remembered,
   * and it adds exactly one item, numbered after the last, when its snippet
   * is usable.
   */
  function Consider(cfg: Config, st: State, title: Option<string>, link: Option<string>, published: Option<int>): (r: State)
    ensures !PassesGates(cfg, st, title, link, published) ==> r == st
    ensures PassesGates(cfg, st, title, link, published) ==>
      && Normalize(title.value) in r.seen
      && st.seen <= r.seen && |r.seen| <= |st.seen| + 1
      && (UsableSnippet(cfg.services, cfg.services.fetch(link.value)) ==>
            r.count == st.count + 1
            && r.emitted == st.emitted + [Item(st.count + 1, title.value, published.value, link.value, cfg.services.fetch(link.value).value)])
      && (!UsableSnippet(cfg.services, cfg.services.fetch(link.value)) ==>
            r.count == st.count && r.emitted == st.emitted)
  {
    if title.None? || title.value == [] || link.None? || link.value == []
       || published.None? || published.value < cfg.threshold then
      st
    else
      var normalized := Normalize(title.value);
      if NearDuplicate(cfg.services.ratio, normalized, st.seen) then st
      else if !MatchesKeyword(normalized, cfg.keywords) then st
      else
        var seen := if normalized in st.seen then st.seen else st.seen + [normalized];
        var snippet := cfg.services.fetch(link.value);
        if snippet.None? || snippet.value == [] || cfg.services.tokenCount(snippet.value) < MinSnippetTokens then
          State(seen, st.count, st.emitted)
        else
          State(seen, st.count + 1, st.emitted + [Item(st.count + 1, title.value, published.value, link.value, snippet.value)])
  }

  function StripTitle(title: Option<string>): Option<string> {
    if title.Some? then Some(Strip(title.value)) else None
  }

  function ResolveEntryLink(link: Option<string>, base64: string -> Option<seq<Aggregator.byte>>): (r: Result<Option<string>>)
    ensures r.Failure? <==> link.Some? && ResolveLink(link.value, base64).Failure?
    ensures r.Success? && r.value.Some? ==> '?' !in r.value.value && '#' !in r.value.value
  {
    if link.None? then Success(None)
    else
      var resolved :- ResolveLink(link.value, base64);
      Success(Some(resolved))
  }

  /**
   * One entry. The link is resolved before any gate is looked at, so a link
   * that makes the resolver raise stops the loop even when the entry has no
   * title; otherwise the state only grows.
   */
  function Step(cfg: Config, st: State, e: Entry): (r: Result<State>)
    ensures r.Failure? <==> e.link.Some? && ResolveLink(e.link.value, cfg.services.base64).Failure?
    ensures r.Success? ==> Grows(st, r.value)
  {
    var link :- ResolveEntryLink(e.link, cfg.services.base64);
    ConsiderGrows(cfg, st, StripTitle(e.title), link, e.published);
    Success(Consider(cfg, st, StripTitle(e.title), link, e.published))
  }

  lemma ConsiderGrows(cfg: Config, st: State, title: Option<string>, link: Option<string>, published: Option<int>)
    ensures Grows(st, Consider(cfg, st, title, link, published))
  {
  }

  /** `later` extends `earlier`: remembered titles and printed items are only appended. */
  predicate Grows(earlier: State, later: State) {
    && earlier.seen <= later.seen
    && earlier.emitted <= later.emitted
    && later.count - earlier.count == |later.emitted| - |earlier.emitted|
  }

  /** The entry loop, stopped by the first exception. */
  function Run(cfg: Config, st: State, entries: seq<Entry>): (r: Outcome)
    ensures Grows(st, r.state)
    decreases |entries|
  {
    if |entries| == 0 then Outcome(st, None)
    else
      match Step(cfg, st, entries[0])
      case Failure(e) => Outcome(st, Some(e))
      case Success(next) => Run(cfg, next, entries[1..])
  }

  /** Running two runs of entries back to back is running their concatenation. */
  lemma {:induction false} RunConcat(cfg: Config, st: State, a: seq<Entry>, b: seq<Entry>)
    ensures Run(cfg, st, a + b) ==
      if Run(cfg, st, a).error.Some? then Run(cfg, st, a) else Run(cfg, Run(cfg, st, a).state, b)
    decreases |a|
  {
    if |a| == 0 {
      assert a + b == b;
    } else {
      assert (a + b)[0] == a[0];
      assert (a + b)[1..] == a[1..] + b;
      match Step(cfg, st, a[0])
      case Failure(_) =>
      case Success(next) => RunConcat(cfg, next, a[1..], b);
    }
  }

  /** An exception stops the run: what the entries after it would do never happens. */
  lemma RunStopsAtFirstError(cfg: Config, st: State, before: seq<Entry>, e: Entry, after: seq<Entry>)
    requires Run(cfg, st, before).error.None?
    requires Step(cfg, Run(cfg, st, before).state, e).Failure?
    ensures Run(cfg, st, before + [e] + after) ==
      Outcome(Run(cfg, st, before).state, Some(Step(cfg, Run(cfg, st, before).state, e).error))
  {
    Associate(before, [e], after);
    RunConcat(cfg, st, before, [e] + after);
    assert ([e] + after)[0] == e;
  }

  /** What every printed item satisfies (rs.py:149-159). */
  predicate Accepted(cfg: Config, item: Item) {
    && item.title != []
    && item.link != [] && '?' !in item.link && '#' !in item.link
    && item.published >= cfg.threshold
    && MatchesKeyword(Normalize(item.title), cfg.keywords)
    && UsableSnippet(cfg.services, Some(item.snippet))
  }

  /**
   * The loop's invariant: `totalCount` numbers the printed items 1, 2, ...;
   * remembered titles are distinct dictionary keys, each scoring below the
   * duplicate mark against every title remembered before it; and every
   * printed item passed the gates, was remembered, and is no near duplicate
   * of an item printed before it.
   */
  predicate Good(cfg: Config, st: State) {
    && Numbered(st)
    && Distinct(st.seen)
    && ScoresApart(cfg.services.ratio, st.seen)
    && (forall k :: 0 <= k < |st.emitted| ==> Accepted(cfg, st.emitted[k]) && Normalize(st.emitted[k].title) in st.seen)
    && ScoresApart(cfg.services.ratio, PrintedTitles(st.emitted))
  }

  /** `totalCount` is the number of printed items, and they are numbered 1, 2, ... */
  predicate Numbered(st: State) {
    st.count == |st.emitted| && forall k :: 0 <= k < |st.emitted| ==> st.emitted[k].ordinal == k + 1
  }

  predicate Distinct(ts: seq<string>) {
    forall i, j :: 0 <= i < j < |ts| ==> ts[i] != ts[j]
  }

  /** Every title scores below the duplicate mark against each title before it. */
  predicate ScoresApart(ratio: (string, string) -> int, ts: seq<string>) {
    forall i, j :: 0 <= i < j < |ts| ==> ratio(ts[j], ts[i]) < DuplicateScore
  }

  /** The normalized titles of the printed items, in order. */
  function PrintedTitles(items: seq<Item>): (ts: seq<string>)
    ensures |ts| == |items|
    ensures forall k :: 0 <= k < |items| ==> ts[k] == Normalize(items[k].title)
  {
    seq(|items|, k requires 0 <= k < |items| => Normalize(items[k].title))
  }

  lemma InitialIsGood(cfg: Config)
    ensures Good(cfg, Initial)
  {
  }

  /** One entry keeps the invariant. */
  lemma StepKeepsGood(cfg: Config, st: State, e: Entry)
    requires Good(cfg, st)
    requires Step(cfg, st, e).Success?
    ensures Good(cfg, Step(cfg, st, e).value)
  {
    var link := ResolveEntryLink(e.link, cfg.services.base64).value;
    ConsiderKeepsGood(cfg, st, StripTitle(e.title), link, e.published);
  }

  lemma ConsiderKeepsGood(cfg: Config, st: State, title: Option<string>, link: Option<string>, published: Option<int>)
    requires Good(cfg, st)
    requires link.Some? ==> '?' !in link.value && '#' !in link.value
    ensures Good(cfg, Consider(cfg, st, title, link, published))
  {
    var r := Consider(cfg, st, title, link, published);
    if PassesGates(cfg, st, title, link, published) {
      var normalized := Normalize(title.value);
      var remembered := State(r.seen, st.count, st.emitted);
      RememberKeepsGood(cfg, st, r.seen, normalized);
      if UsableSnippet(cfg.services, cfg.services.fetch(link.value)) {
        var item := Item(st.count + 1, title.value, published.value, link.value, cfg.services.fetch(link.value).value);
        assert Accepted(cfg, item);
        PrintedBelowSeen(cfg.services.ratio, st.emitted, st.seen, normalized);
        PrintKeepsGood(cfg, remembered, item);
      }
    }
  }

  /** Remembering a title that passed the duplicate gate keeps the invariant. */
  lemma RememberKeepsGood(cfg: Config, st: State, seen: seq<string>, title: string)
    requires Good(cfg, st)
    requires seen == if title in st.seen then st.seen else st.seen + [title]
    requires forall j :: 0 <= j < |st.seen| ==> cfg.services.ratio(title, st.seen[j]) < DuplicateScore
    ensures Good(cfg, State(seen, st.count, st.emitted))
  {
    if title !in st.seen {
      AppendKeepsApart(cfg.services.ratio, st.seen, title);
    }
    assert forall k :: 0 <= k < |st.emitted| ==> Normalize(st.emitted[k].title) in seen by {
      assert st.seen <= seen;
    }
  }

  /** Printing an accepted, remembered item that scores low against every earlier one keeps the invariant. */
  lemma PrintKeepsGood(cfg: Config, st: State, item: Item)
    requires Good(cfg, st)
    requires Accepted(cfg, item) && Normalize(item.title) in st.seen && item.ordinal == st.count + 1
    requires forall k :: 0 <= k < |st.emitted| ==>
      cfg.services.ratio(Normalize(item.title), PrintedTitles(st.emitted)[k]) < DuplicateScore
    ensures Good(cfg, State(st.seen, st.count + 1, st.emitted + [item]))
  {
    var emitted := st.emitted + [item];
    NumberedSnoc(State(st.seen, st.count, st.emitted), item);
    assert forall k :: 0 <= k < |emitted| ==> Accepted(cfg, emitted[k]) && Normalize(emitted[k].title) in st.seen by {
      forall k | 0 <= k < |emitted|
        ensures Accepted(cfg, emitted[k]) && Normalize(emitted[k].title) in st.seen
      {
        if k < |st.emitted| {
          assert emitted[k] == st.emitted[k];
        }
      }
    }
    assert ScoresApart(cfg.services.ratio, PrintedTitles(emitted)) by {
      PrintedTitlesSnoc(st.emitted, item);
      AppendKeepsApart(cfg.services.ratio, PrintedTitles(st.emitted), Normalize(item.title));
    }
  }

  lemma PrintedTitlesSnoc(items: seq<Item>, item: Item)
    ensures PrintedTitles(items + [item]) == PrintedTitles(items) + [Normalize(item.title)]
  {
  }

  lemma NumberedSnoc(st: State, item: Item)
    requires Numbered(st) && item.ordinal == st.count + 1
    ensures Numbered(State(st.seen, st.count + 1, st.emitted + [item]))
  {
    var emitted := st.emitted + [item];
    assert forall k :: 0 <= k < |st.emitted| ==> emitted[k] == st.emitted[k];
  }

  /** Appending a title that is new and scores low against every earlier one keeps both properties. */
  lemma AppendKeepsApart(ratio: (string, string) -> int, ts: seq<string>, t: string)
    requires ScoresApart(ratio, ts)
    requires forall j :: 0 <= j < |ts| ==> ratio(t, ts[j]) < DuplicateScore
    ensures ScoresApart(ratio, ts + [t])
    ensures Distinct(ts) && t !in ts ==> Distinct(ts + [t])
  {
    var us := ts + [t];
    assert forall j :: 0 <= j < |ts| ==> us[j] == ts[j];
  }

  /** A title that scores low against every remembered title scores low against every printed one. */
  lemma PrintedBelowSeen(ratio: (string, string) -> int, items: seq<Item>, seen: seq<string>, t: string)
    requires forall k :: 0 <= k < |items| ==> Normalize(items[k].title) in seen
    requires forall j :: 0 <= j < |seen| ==> ratio(t, seen[j]) < DuplicateScore
    ensures forall k :: 0 <= k < |items| ==> ratio(t, PrintedTitles(items)[k]) < DuplicateScore
  {
    forall k | 0 <= k < |items|
      ensures ratio(t, PrintedTitles(items)[k]) < DuplicateScore
    {
      var w :| 0 <= w < |seen| && seen[w] == Normalize(items[k].title);
    }
  }

  /** The whole entry loop keeps the invariant, whether or not it is stopped. */
  lemma {:induction false} RunKeepsGood(cfg: Config, st: State, entries: seq<Entry>)
    requires Good(cfg, st)
    ensures Good(cfg, Run(cfg, st, entries).state)
    decreases |entries|
  {
    if |entries| > 0 {
      match Step(cfg, st, entries[0])
      case Failure(_) =>
      case Success(next) =>
        StepKeepsGood(cfg, st, entries[0]);
        RunKeepsGood(cfg, next, entries[1..]);
    }
  }

  /**
   * With a matcher that scores a string against itself at 100, as
   * `fuzz.ratio` does, no title is printed twice: printed items have
   * distinct normalized titles.
   */
  lemma PrintedTitlesDistinct(cfg: Config, st: State)
    requires Good(cfg, st)
    requires forall k :: 0 <= k < |st.emitted| ==>
      cfg.services.ratio(Normalize(st.emitted[k].title), Normalize(st.emitted[k].title)) == 100
    ensures forall i, j :: 0 <= i < j < |st.emitted| ==>
      Normalize(st.emitted[i].title) != Normalize(st.emitted[j].title)
  {
    var ts := PrintedTitles(st.emitted);
    forall i, j | 0 <= i < j < |st.emitted|
      ensures Normalize(st.emitted[i].title) != Normalize(st.emitted[j].title)
    {
      assert cfg.services.ratio(ts[j], ts[i]) < DuplicateScore;
    }
  }

  /**
   * Over a whole run, with a matcher that scores every string against
   * itself at 100, no normalized title is printed twice.
   */
  lemma RunPrintsNoTitleTwice(cfg: Config, entries: seq<Entry>)
    requires forall t :: cfg.services.ratio(t, t) == 100
    ensures var printed := Run(cfg, Initial, entries).state.emitted;
      forall i, j :: 0 <= i < j < |printed| ==> Normalize(printed[i].title) != Normalize(printed[j].title)
  {
    InitialIsGood(cfg);
    RunKeepsGood(cfg, Initial, entries);
    PrintedTitlesDistinct(cfg, Run(cfg, Initial, entries).state);
  }

  /**
   * A title is remembered before its article is fetched: an entry that
   * passes the gates blocks later entries with the same normalized title
   * even when its own snippet is unusable and nothing is printed for it.
   */
  lemma RememberedTitleBlocks(cfg: Config, st: State, first: Entry, second: Entry)
    requires Step(cfg, st, first).Success?
    requires var link := ResolveEntryLink(first.link, cfg.services.base64).value;
      PassesGates(cfg, st, StripTitle(first.title), link, first.published)
    requires second.title.Some? && first.title.Some?
    requires Normalize(Strip(second.title.value)) == Normalize(Strip(first.title.value))
    requires var t := Normalize(Strip(first.title.value)); cfg.services.ratio(t, t) == 100
    requires Step(cfg, Step(cfg, st, first).value, second).Success?
    ensures var mid := Step(cfg, st, first).value;
      Step(cfg, mid, second).value == mid
  {
    var mid := Step(cfg, st, first).value;
    var t := Normalize(Strip(first.title.value));
    assert t in mid.seen;
    var w :| 0 <= w < |mid.seen| && mid.seen[w] == t;
    assert cfg.services.ratio(t, mid.seen[w]) >= DuplicateScore;
  }

  /** The entries of the feeds that parsed, in feed order; a feed that raised is skipped. */
  function FeedEntries(feeds: seq<Option<seq<Entry>>>): seq<Entry> {
    if |feeds| == 0 then []
    else EntriesOf(feeds[0]) + FeedEntries(feeds[1..])
  }

  lemma {:induction false} FeedEntriesConcat(a: seq<Option<seq<Entry>>>, b: seq<Option<seq<Entry>>>)
    ensures FeedEntries(a + b) == FeedEntries(a) + FeedEntries(b)
    decreases |a|
  {
    if |a| == 0 {
      assert a + b == b;
    } else {
      assert (a + b)[0] == a[0];
      assert (a + b)[1..] == a[1..] + b;
      FeedEntriesConcat(a[1..], b);
    }
  }

  /** What one feed contributes: its entries if it parsed, nothing if it raised. */
  function EntriesOf(feed: Option<seq<Entry>>): seq<Entry> {
    if feed.Some? then feed.value else []
  }

  /** The entries of the feeds from `i` on: those of feed `i`, then the rest. */
  lemma FeedEntriesFrom(feeds: seq<Option<seq<Entry>>>, i: nat)
    requires i < |feeds|
    ensures FeedEntries(feeds) == FeedEntries(feeds[..i]) + EntriesOf(feeds[i]) + FeedEntries(feeds[i + 1..])
  {
    var front, back := feeds[..i], feeds[i..];
    assert feeds == front + back;
    FeedEntriesConcat(front, back);
    assert FeedEntries(back) == EntriesOf(feeds[i]) + FeedEntries(feeds[i + 1..]) by {
      assert back[0] == feeds[i];
      assert back[1..] == feeds[i + 1..];
    }
    Associate(FeedEntries(front), EntriesOf(feeds[i]), FeedEntries(feeds[i + 1..]));
  }

  lemma FeedEntriesSnoc(feeds: seq<Option<seq<Entry>>>, i: nat)
    requires i < |feeds|
    ensures FeedEntries(feeds[..i + 1]) == FeedEntries(feeds[..i]) + EntriesOf(feeds[i])
  {
    assert feeds[..i + 1] == feeds[..i] + [feeds[i]];
    FeedEntriesConcat(feeds[..i], [feeds[i]]);
    assert FeedEntries([feeds[i]]) == EntriesOf(feeds[i]) by {
      assert [feeds[i]][1..] == [];
    }
  }

  /** The publication threshold: `now - timedelta(days=ndays)`, in microseconds. */
  function Threshold(now: int, ndays: int): (t: int)
    ensures ndays >= 0 ==> t <= now
    ensures ndays > 0 ==> now - t >= MicrosPerDay
  {
    now - ndays * MicrosPerDay
  }

  /** An entry passes the date gate exactly when it is at most `ndays` days old. */
  lemma WithinDays(now: int, ndays: int, published: int)
    ensures published >= Threshold(now, ndays) <==> now - published <= ndays * MicrosPerDay
  {
  }

  /** Each extra day moves the threshold back by exactly one day, so a longer window admits more. */
  lemma ThresholdMonotone(now: int, ndays: int, more: int)
    requires ndays <= more
    ensures Threshold(now, more) <= Threshold(now, ndays)
    ensures Threshold(now, ndays + 1) == Threshold(now, ndays) - MicrosPerDay
  {
    assert (more - ndays) * MicrosPerDay >= 0;
  }

  /** One more entry that does not raise extends the run by its step. */
  lemma RunPrefixStep(cfg: Config, start: State, entries: seq<Entry>, j: nat)
    requires j < |entries|
    requires Run(cfg, start, entries[..j]).error.None?
    requires Step(cfg, Run(cfg, start, entries[..j]).state, entries[j]).Success?
    ensures Run(cfg, start, entries[..j + 1]) ==
      Outcome(Step(cfg, Run(cfg, start, entries[..j]).state, entries[j]).value, None)
  {
    assert entries[..j + 1] == entries[..j] + [entries[j]];
    RunConcat(cfg, start, entries[..j], [entries[j]]);
    assert [entries[j]][1..] == [];
  }

  /** An entry that raises ends the run of a whole feed where it stands. */
  lemma RunPrefixStop(cfg: Config, start: State, entries: seq<Entry>, j: nat)
    requires j < |entries|
    requires Run(cfg, start, entries[..j]).error.None?
    requires Step(cfg, Run(cfg, start, entries[..j]).state, entries[j]).Failure?
    ensures Run(cfg, start, entries) == Outcome(Run(cfg, start, entries[..j]).state,
      Some(Step(cfg, Run(cfg, start, entries[..j]).state, entries[j]).error))
  {
    SplitAround(entries, j);
    RunStopsAtFirstError(cfg, start, entries[..j], entries[j], entries[j + 1..]);
  }

  /** The entries of one feed, looked at in order until one raises. */
  method RunFeed(cfg: Config, start: State, entries: seq<Entry>) returns (st: State, error: Option<Error>)
    ensures Outcome(st, error) == Run(cfg, start, entries)
  {
    st := start;
    var j := 0;
    while j < |entries|
      invariant 0 <= j <= |entries|
      invariant Run(cfg, start, entries[..j]) == Outcome(st, None)
    {
      var next := Step(cfg, st, entries[j]);
      if next.Failure? {
        RunPrefixStop(cfg, start, entries, j);
        error := Some(next.error);
        return;
      }
      RunPrefixStep(cfg, start, entries, j);
      st := next.value;
      j := j + 1;
    }
    assert entries[..j] == entries;
    error := None;
  }

  /** The feed loop: the feeds that parsed, in order, until an entry raises. */
  method SearchFeeds(cfg: Config, feeds: seq<Option<seq<Entry>>>) returns (st: State, error: Option<Error>)
    ensures Outcome(st, error) == Run(cfg, Initial, FeedEntries(feeds))
  {
    st := Initial;
    var i := 0;
    while i < |feeds|
      invariant 0 <= i <= |feeds|
      invariant Run(cfg, Initial, FeedEntries(feeds[..i])) == Outcome(st, None)
    {
      var next, failure := RunFeed(cfg, st, EntriesOf(feeds[i]));
      if failure.Some? {
        StopInFeed(cfg, feeds, i);
        return next, failure;
      }
      ContinueAfterFeed(cfg, feeds, i);
      st := next;
      i := i + 1;
    }
    assert feeds[..i] == feeds;
    error := None;
  }

  /** A feed that runs through without an exception hands its state to the next. */
  lemma ContinueAfterFeed(cfg: Config, feeds: seq<Option<seq<Entry>>>, i: nat)
    requires i < |feeds|
    requires Run(cfg, Initial, FeedEntries(feeds[..i])).error.None?
    ensures Run(cfg, Initial, FeedEntries(feeds[..i + 1])) ==
      Run(cfg, Run(cfg, Initial, FeedEntries(feeds[..i])).state, EntriesOf(feeds[i]))
  {
    FeedEntriesSnoc(feeds, i);
    RunConcat(cfg, Initial, FeedEntries(feeds[..i]), EntriesOf(feeds[i]));
  }

  /** An exception inside feed `i` is where the whole run stops. */
  lemma StopInFeed(cfg: Config, feeds: seq<Option<seq<Entry>>>, i: nat)
    requires i < |feeds|
    requires Run(cfg, Initial, FeedEntries(feeds[..i])).error.None?
    requires Run(cfg, Run(cfg, Initial, FeedEntries(feeds[..i])).state, EntriesOf(feeds[i])).error.Some?
    ensures Run(cfg, Initial, FeedEntries(feeds)) ==
      Run(cfg, Run(cfg, Initial, FeedEntries(feeds[..i])).state, EntriesOf(feeds[i]))
  {
    var before, entries := FeedEntries(feeds[..i]), EntriesOf(feeds[i]);
    FeedEntriesFrom(feeds, i);
    RunConcat(cfg, Initial, before, entries);
    RunConcat(cfg, Initial, before + entries, FeedEntries(feeds[i + 1..]));
  }

  /**
   * `run_news_search`: the items printed, in order, and the exception that
   * ended the run early, if one did. Every printed item passed every gate
   * and the ordinals run 1, 2, ...
   */
  method RunNewsSearch(keywords: seq<string>, aliases: map<string, string>, now: int, ndays: int,
                       services: Services, feeds: seq<Option<seq<Entry>>>)
    returns (items: seq<Item>, error: Option<Error>)
    ensures var cfg := Config(Keywords.Expand(keywords, aliases), Threshold(now, ndays), services);
      var outcome := Run(cfg, Initial, FeedEntries(feeds));
      items == outcome.state.emitted && error == outcome.error
    ensures forall k :: 0 <= k < |items| ==> items[k].ordinal == k + 1
    ensures forall k :: 0 <= k < |items| ==>
      Accepted(Config(Keywords.Expand(keywords, aliases), Threshold(now, ndays), services), items[k])
    ensures ScoresApart(services.ratio, PrintedTitles(items))
  {
    var expanded := Keywords.ProcessKeywords(keywords, aliases);
    var cfg := Config(expanded, Threshold(now, ndays), services);
    var st;
    st, error := SearchFeeds(cfg, feeds);
    items := st.emitted;
    InitialIsGood(cfg);
    RunKeepsGood(cfg, Initial, FeedEntries(feeds));
  }
}
