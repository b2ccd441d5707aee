# rsssearch news filter, modelled in Dafny

`rs.py` reads a fixed list of RSS feeds and prints the recent entries whose
titles mention one of the caller's keywords. This project models the part of
it that decides what gets printed:

- Links are resolved. `extract_original_link` unwraps a `url=` redirector
  parameter. `get_source_url` decodes a `news.google.com/.../articles/<token>`
  link into the article URL. `trim_url` percent-decodes the link and drops its
  query and fragment.
- `process_keywords` expands keyword aliases.
- The per-entry pass of `run_news_search` applies these gates in order:
  - the title, link and date are all present;
  - the entry is not older than the threshold;
  - the title is not a fuzzy near-duplicate of a remembered title;
  - the title contains a keyword.

  After the gates, the title is remembered. The article snippet is fetched
  next, and an item is emitted under the next ordinal when the snippet is
  usable.

Modules follow the program's structure:

- `Results` holds the error-carrying result type.
- `Text` holds the `str` operations the program uses: `strip`, `lower`,
  `in`, `find` and `split`.
- `Percent` is `urllib.parse.unquote`.
- `UrlParse` covers `urlsplit`, `urlparse`, `urlunparse` and `hostname`, as
  in CPython 3.12.13.
- `Redirect` is `extract_original_link`.
- `Aggregator` is `get_source_url`.
- `Trim` is `trim_url`.
- `Keywords` is `process_keywords`.
- `Pipeline` is `run_news_search`.

## How the code's behaviour was read

**Uncaught exceptions.** Nothing in the entry loop catches an exception from
link resolution. The model keeps three of the exceptions that can escape:

- the `ValueError` that `urlsplit` raises for a netloc with an unbalanced
  `[`/`]`;
- a base64 decoding error;
- the `IndexError` raised when the decoded payload is empty.

Each of the three is an `Error` value in the model, and it stops
`Pipeline.Run`: the whole search ends, and the items printed before it stay
printed. `UrlParse.UrlsplitRejectsUnbalanced`, `Pipeline.BadTokenStopsStep`
and `Pipeline.EmptyPayloadStopsStep` state when each one is raised. The other
`ValueError`s `urlsplit` can raise (the NFKC netloc check and the validation
of a bracketed host) are not modelled at all; they are listed under
"Left out". A "safe fallback" reading, where a failed decode returns the link
unchanged, is not what the code does, and the model follows the code.

**Link resolution comes first.** The link is resolved before any gate, so even
an entry without a title can end the run.

**Remembering comes before fetching.** A title is remembered before its
article is fetched. An entry whose snippet proves unusable still blocks later
entries with the same title.

**Two-byte lengths are read short.** `get_source_url` reads only the first
byte of what is, in the aggregator's framing, a protobuf varint length. URLs
shorter than 0x80 bytes come back whole. Longer ones come back cut short.
`Aggregator.DecodeTwoByteFrame` states exactly how much is lost. The model
keeps the code's reading.

**Collaborators are parameters.** The program calls code this model does not
see. Each call becomes a parameter (`Pipeline.Services`):

- the fuzzy matcher `fuzz.ratio`;
- `base64.urlsafe_b64decode`;
- the article fetcher `fetch_and_filter_article`;
- the word tokenizer.

Facts that need `fuzz.ratio(t, t) == 100` take it as a precondition.

**Inputs the program gets from outside.** The model receives these as
parameters:

- feeds arrive as already-parsed entry lists, where `None` stands for a feed
  whose parse raised and was skipped;
- dates arrive parsed, as microseconds since the epoch;
- the alias table `predefined_keywords` is the map `aliases`.

## Model

| member | source | states |
|---|---|---|
| Text.Strip | rs.py:122 | the result is the piece of the input that leaves only white space around it and neither starts nor ends with white space |
| Text.Lower | rs.py:122 | same length as the input; no ASCII capital is left; each capital moves up 32 code points to its small letter and every other character is kept |
| Text.LowerIdempotent | rs.py:122 | lower-casing twice is lower-casing once |
| Text.StripIgnoresPadding | rs.py:122 | white space added on either side does not change the stripped result |
| Text.StripLowerCommute | rs.py:122 | `strip().lower()` is `lower().strip()`: the stripped white space is not a letter |
| Text.Split | rs.py:124 | never empty; no piece holds the separator; joining the pieces with the separator gives the input back; more than one piece exactly when the separator occurs |
| Text.Contains | rs.py:154 | the definition of Python's `in` on strings, as the keyword gate uses it: `p` is a prefix of `s` or of one of its suffixes |
| Text.ContainsOccurs | rs.py:154 | `p in s` holds exactly when `p` sits in `s` at some index |
| Text.SplitJoin | rs.py:124 | splitting undoes joining for pieces free of the separator |
| Text.SplitLastTwo | rs.py:102-104 | text holding the separator ends with its last two pieces and the separator between them, either as the whole text or after a separator |
| Text.SplitOfLastTwo | rs.py:102-104 | conversely, two separator-free pieces ending the text that way are the last two pieces of its split |
| Percent.Unquote | rs.py:92 | decoding never lengthens the text and leaves `%`-free text unchanged |
| Percent.UnquoteConcat | rs.py:92 | decoding splits at any point not followed by a hex digit, so no escape straddles a `?`, `#` or `%` |
| Percent.UnquoteEscape | rs.py:92 | decoding is the inverse of full `%HH` escaping on octet strings |
| Percent.UnquoteKeepsStrayPercent | rs.py:92 | a `%` that does not start a `%HH` escape is kept, and decoding resumes right after it |
| Percent.UnquoteLeadingHex | rs.py:92 | any `%HH` escape at the front, upper- or lower-case hex, decodes to the character the digits spell, and decoding resumes after it |
| Percent.UnquoteKeepsPlain | rs.py:92 | a character other than `%` is copied, and decoding resumes right after it |
| UrlParse.SplitScheme | rs.py:93 | a scheme, when found, is the text before the first `:`, which starts with an ASCII letter and holds scheme characters only; it comes back lower-cased and the rest is what follows that `:`; with no scheme the text is left whole |
| UrlParse.SplitSchemeOf | rs.py:93 | conversely, a scheme name that starts with a letter, then `:`, splits into that name lower-cased and the rest |
| UrlParse.SplitNetloc | rs.py:93 | text starting `//` is `//`, a netloc free of `/`, `?` and `#`, and a rest that is empty or starts with one of them; other text has an empty netloc and is left whole |
| UrlParse.SplitNetlocOf | rs.py:93 | conversely, `//`, a delimiter-free netloc and such a rest split into that netloc and rest |
| UrlParse.CutAt | rs.py:93 | with the character present, the input is the part before it, the character and the part after, and the part before holds no such character; without it, the first part is the whole input and the second is empty |
| UrlParse.Urlsplit | rs.py:93 | fails only with the invalid-IPv6 error; a success has a scheme name, a netloc without delimiters, a path without `?`/`#`, and a query without `#` |
| UrlParse.UrlsplitRejectsUnbalanced | rs.py:93 | a `scheme://netloc` URL fails to split exactly when its netloc holds one of `[` and `]` without the other |
| UrlParse.UrlparseFailsWithSplit | rs.py:93 | `urlparse` fails exactly when `urlsplit` does: cutting the params never raises |
| UrlParse.Urlparse | rs.py:93 | the same guarantees as the split, after `;params` are cut from the path |
| UrlParse.SplitParams | rs.py:93 | the params start at the first `;` after the last `/`: a cut path is the kept path, `;` and params holding no `/`; every `;` left in the kept path has a `/` after it; with no such `;` the path is whole and the params empty |
| UrlParse.SplitParamsOf | rs.py:93 | conversely, a path whose every `;` has a `/` after it, then `;` and `/`-free params, splits into exactly those two |
| UrlParse.SplitParamsNone | rs.py:93 | a path whose every `;` has a `/` after it yields no params |
| UrlParse.Urlunsplit | rs.py:94 | with empty query and fragment, the reassembly holds only characters of scheme, netloc and path plus `:` and `/` |
| UrlParse.Urlunparse | rs.py:94 | the definition of `urlunparse`: non-empty params are put back after the path with `;`, then the URL is reassembled as `urlunsplit` does; `UrlparseOfUnparse` is its inverse |
| UrlParse.UrlunsplitLayout | rs.py:94 | with a scheme, a netloc and a path that is empty or starts with `/`, the result is `scheme://netloc` and the path, then `?query` and `#fragment`, each delimiter present exactly when its part is non-empty |
| UrlParse.UrlunsplitLocation | rs.py:94 | without query and fragment, that layout is just `scheme://netloc` and the path |
| UrlParse.UrlsplitOfUnsplit | rs.py:93-94 | splitting a reassembled URL gives back its five parts, the scheme lower-cased, when no part holds a delimiter that would end it early and none holds a tab or line break |
| UrlParse.UrlparseOfUnparse | rs.py:93-94 | likewise for the six-part parse: params come back when the scheme uses them and the path holds no `;` that would be taken for them |
| UrlParse.UrlparseSplitsParams | rs.py:93 | for a scheme that uses params, `;params` after a path whose every `;` has a `/` after it comes back as the params, even when empty |
| UrlParse.Hostname | rs.py:103 | an absent host is `None`, never an empty string |
| UrlParse.HostnameOfHost | rs.py:103 | a netloc that is a plain host name, without `@`, `:`, brackets or `%`, has that name lower-cased as its `hostname` |
| UrlParse.HostnameIgnoresPort | rs.py:103 | a `:port` after the host does not change the `hostname` |
| UrlParse.HostnameIgnoresUserinfo | rs.py:103 | user information up to the last `@` does not change the `hostname` |
| UrlParse.UrlparseIgnoresTail | rs.py:93 | what follows the first `?` or `#` changes neither scheme, netloc and path nor whether parsing fails |
| Trim.TrimUrl | rs.py:91-94 | the trimmed link has no `?` or `#`; it fails, with the invalid-IPv6 error, exactly when parsing the decoded link fails |
| Trim.TrimRejectsUnbalanced | rs.py:91-93 | a `scheme://netloc` link with no `%` fails to trim exactly when its netloc holds one of `[` and `]` without the other |
| Trim.TrimDropsQueryAndFragment | rs.py:91-94 | appending `?` or `#` and anything at all leaves the trimmed link unchanged |
| Trim.TrimDecodesBeforeSplitting | rs.py:92-93 | an encoded `%3F`, `%3f` or `%23` cuts the link exactly as a literal `?` or `#` does |
| Trim.TrimKeepsLocation | rs.py:91-94 | a link that is already `scheme://netloc/path` comes back unchanged: a lower-case scheme, a netloc with no delimiter or bracket, and no `%`, tab, line break or params |
| Trim.TrimDropsParams | rs.py:91-94 | for a scheme that uses params, `;params` after the last path segment is dropped, leaving `scheme://netloc/path` |
| Redirect.FirstMatch | rs.py:97 | the result is the leftmost position where the pattern matches at or after the start, or none when it matches nowhere |
| Redirect.GroupAt | rs.py:98 | the group is an `&`-free `http(s)://` URL with a host character, taken from after `url=` up to the next `&` or the end |
| Redirect.ExtractOriginalLink | rs.py:96-98 | the link is returned unchanged exactly when the pattern matches nowhere; otherwise the result is the group of the leftmost match |
| Redirect.UnwrapRedirect | rs.py:96-98 | a link that carries a target in its first `url=` parameter yields that target |
| Aggregator.Slice | rs.py:115 | Python slicing with clamped bounds: the length, and each element taken from its offset |
| Aggregator.StripHeader | rs.py:107-109 | the header is removed exactly when the bytes start with it |
| Aggregator.StripTrailer | rs.py:110-112 | the trailer is removed exactly when the bytes end with it |
| Aggregator.SelectUrl | rs.py:114-115 | fails exactly on an empty payload; otherwise the first byte `L` bounds the result, which starts at offset 2 or 1 and runs to `L+1`, clamped |
| Aggregator.DecodePayload | rs.py:105-115 | fails exactly when nothing is left after the header and trailer; a success is a contiguous piece of the decoded bytes shorter than 255 |
| Aggregator.Latin1 | rs.py:106-113 | each byte becomes the character with the same code; the result is latin-1 text whose encoding gives the bytes back |
| Aggregator.Latin1OfBytes | rs.py:106-113 | encoding latin-1 text and decoding it again gives the text, so decoding is a bijection between bytes and latin-1 text |
| Aggregator.Latin1Commutes | rs.py:106-115 | decoding is injective, keeps prefixes in both directions and commutes with slicing, so the string operations of lines 107-115 can be done on the bytes |
| Aggregator.ArticleToken | rs.py:101-104 | a token exists only for host `news.google.com` and a path that is `articles/<token>` or ends with the whole segments `/articles/<token>`; the token holds no `/`, `?` or `#` |
| Aggregator.ArticleTokenOf | rs.py:101-104 | conversely, such a host and path give exactly that token |
| Aggregator.GetSourceUrl | rs.py:100-117 | a link that is not an article link is returned unchanged; for an article link, a token base64 rejects fails with that error, and a token that decodes fails with the empty-payload error exactly when nothing is left between header and trailer, and otherwise gives the decoded URL bytes read as latin-1, a piece of the token's bytes shorter than 255 |
| Aggregator.DecodeOneByteFrame | rs.py:105-116 | a framed URL shorter than 0x80 bytes decodes back to itself |
| Aggregator.DecodeTwoByteFrame | rs.py:114-115 | a framed URL of 0x80 bytes or more decodes to its first `len % 0x80 + 0x7f` bytes, which is all but the last byte below 0x100 |
| Aggregator.ArticleLinkRoundTrip | rs.py:100-117 | an article link whose token decodes to a frame around a short URL resolves to that URL |
| Keywords.AliasEntries | rs.py:124 | one entry per comma-separated piece, each the piece stripped and free of commas; more than one entry exactly when the value holds a comma |
| Keywords.AliasEntriesOfJoin | rs.py:124 | reading back stripped, comma-free entries joined with commas gives those entries |
| Keywords.ExpandToken | rs.py:122-126 | an alias gives its entries; any other token gives itself, stripped |
| Keywords.ExpandTokenIgnoresPadding | rs.py:122-126 | white space around a token changes neither whether it is an alias nor what it expands to |
| Keywords.ExpandTokenIgnoresCase | rs.py:122-124 | the alias lookup ignores ASCII case: a token and its lower-cased form are aliases alike and expand alike |
| Keywords.Expand | rs.py:121-126 | the reference definition of the expansion that `ProcessKeywords` is proved equal to: each token's contribution, concatenated in input order |
| Keywords.ExpandConcat | rs.py:121-126 | expansion keeps input order: a concatenation expands piecewise |
| Keywords.ExpandNeverShorter | rs.py:121-126 | the expansion is at least as long as the input, and equally long exactly when each token gives one entry |
| Keywords.ExpandWithoutAliases | rs.py:125-126 | with no alias among the tokens, expansion strips each token in place |
| Keywords.ProcessKeywords | rs.py:119-127 | the loop computes the piecewise expansion of the tokens, and never shortens the list |
| Pipeline.ResolveLink | rs.py:147 | a failure of `get_source_url` on the unwrapped link is the link's own failure, with the same error; otherwise the link is that source trimmed, with no `?` or `#` |
| Pipeline.ArticleLinkResolves | rs.py:147 | an article link, possibly behind a redirect, whose token frames a URL shorter than 0x80 bytes resolves to that URL, trimmed |
| Pipeline.BadTokenStopsStep | rs.py:145-147 | an entry whose link leads to an article token that base64 rejects raises the base64 error, and the run ends there with the state it had |
| Pipeline.EmptyPayloadStopsStep | rs.py:145-147 | an entry whose article token decodes to nothing between header and trailer raises the empty-payload error, and the run ends there with the state it had |
| Pipeline.Normalize | rs.py:151 | the title key has no ASCII capital and no surrounding white space, and lower-casing after stripping gives the same key |
| Pipeline.NearDuplicate | rs.py:152 | the definition of the duplicate gate: some remembered title scores at least 95 against the key |
| Pipeline.MatchesKeyword | rs.py:154 | the definition of the keyword gate: some lower-cased keyword occurs in the key |
| Pipeline.MatchesKeywordOccurs | rs.py:154 | the keyword gate passes exactly when some lower-cased keyword sits at some index of the key |
| Pipeline.DirectLinkIsTrimmed | rs.py:147 | a link that is neither a redirect nor an article link is only trimmed |
| Pipeline.RedirectLinkIsUnwrapped | rs.py:147 | a redirect to a direct link resolves to the trimmed target |
| Pipeline.ResolveEntryLink | rs.py:147 | fails exactly when the entry has a link and resolving it raises; a resolved link has no `?` or `#` |
| Pipeline.Consider | rs.py:149-160 | failing a gate changes nothing; passing the gates remembers the title, adding at most one key, and a usable snippet adds exactly one item numbered after the last |
| Pipeline.Step | rs.py:146-160 | an entry raises exactly when it has a link whose resolution raises; otherwise remembered titles and printed items are only appended to |
| Pipeline.Run | rs.py:145-160 | the loop only appends to the remembered titles and printed items, and the count grows with the items |
| Pipeline.RunConcat | rs.py:139-160 | running two lists of entries back to back is running their concatenation, unless the first raised |
| Pipeline.RunStopsAtFirstError | rs.py:145-147 | an entry that raises ends the run; entries after it have no effect |
| Pipeline.InitialIsGood | rs.py:136-137 | the empty state satisfies the loop invariant |
| Pipeline.StepKeepsGood | rs.py:149-160 | one entry keeps the invariant: ordinals 1, 2, ...; distinct remembered titles that score apart; every printed item accepted and remembered |
| Pipeline.RunKeepsGood | rs.py:145-160 | the whole loop keeps the invariant, whether or not it stops early |
| Pipeline.PrintedTitlesDistinct | rs.py:152-156 | with self-score 100, no two printed items share a normalized title |
| Pipeline.RunPrintsNoTitleTwice | rs.py:151-156 | over any run from the start, no normalized title is printed twice |
| Pipeline.RememberedTitleBlocks | rs.py:156-158 | a title that passed the gates blocks its repeat even when its own snippet was unusable |
| Pipeline.Threshold | rs.py:138 | for a non-negative day count the threshold is not after now, and at least a day before it when the count is positive |
| Pipeline.WithinDays | rs.py:138-149 | an entry passes the date gate exactly when it is at most `ndays` days old |
| Pipeline.ThresholdMonotone | rs.py:138 | each extra day moves the threshold back by exactly one day, so a longer window admits every entry a shorter one does |
| Pipeline.RunFeed | rs.py:145-160 | the loop over one feed's entries computes the entry fold, stopping at the first exception |
| Pipeline.SearchFeeds | rs.py:139-145 | the loop over the feeds computes the fold over all entries of the feeds that parsed, in order |
| Pipeline.RunNewsSearch | rs.py:129-160 | the printed items are the fold's items over the expanded keywords; they are numbered 1, 2, ..., each one is accepted by the gates, and no two printed titles score as near-duplicates |

## Left out

- `parse_date` and its time-zone table are not modelled. Dates arrive parsed. An entry whose date does not parse is an entry without a date.
- `fetch_and_filter_article`, `summarize_text` and `word_tokenize` are not modelled. They are network, HTML and NLTK code, so they are parameters (`fetch`, `tokenCount`).
- `fuzz.ratio` is not modelled. It is an external library, so it is a parameter, and its self-score of 100 is a precondition only of the lemmas that need it.
- `base64.urlsafe_b64decode` is not modelled. It is a standard-library decoder, so it is a parameter, and a rejected token is `None`.
- `feedparser.parse` and the feed URL list are not modelled. Feeds are a parameter, and a feed whose parse raised is `None`.
- The clock is not modelled. `now` is a parameter.
- Printing, `DateTimeEncoder`, the stdout re-wrap, `nltk.download` and the `argparse` command line are left out. They are I/O with no effect on which items are chosen.
- The contents of `predefined_keywords` are not modelled. The alias table is a parameter.
- Text.Lower: lower-cases ASCII letters only. Python's `str.lower` folds all of Unicode, including the Vietnamese keywords, so non-ASCII case differences are not modelled.
- Percent.Unquote: turns each `%HH` into the character with code `HH`. Python decodes runs of escapes as UTF-8, with replacement characters, so the model agrees only on ASCII escapes.
- UrlParse.Urlsplit: omits two checks. One is the NFKC netloc check. The other is the IPv6 validation of a bracketed host. Both can raise `ValueError` in Python, but the model fails only on unbalanced brackets.
- Pipeline.Threshold: day arithmetic is exact. It ignores `timedelta`'s range limit, which makes a huge `ndays` raise `OverflowError` in Python.
- UrlParse.Urlunsplit: its own contract only bounds the characters of the result. The layout is proved for a URL with a scheme and a netloc (`UrlunsplitLayout`), not for the branches without a netloc.
- UrlParse.Urlunsplit: follows `urlunsplit` as CPython 3.12.13 has it. Earlier 3.12 releases prepend `//` differently when the netloc is empty; links with a netloc are reassembled alike by both.
- UrlParse.Hostname: no lemma covers bracketed IPv6 hosts or a `%` zone. The program compares the `hostname` only with `news.google.com`.
- UrlParse.Urlsplit: its own contract only bounds the parts. The values are pinned by the round trip `UrlsplitOfUnsplit`, which needs well-formed parts and a netloc.
- UrlParse.Urlparse: its own contract only bounds the parts. The values are pinned by the round trip `UrlparseOfUnparse`, under the same conditions.
- `fetch` and `ratio` in `Pipeline.Services` are pure functions. The same link always gives the same snippet and the same two titles the same score, which a live fetch does not promise.
- Idempotence of `trim_url` is not claimed. It does not hold for doubly encoded links, such as `%253F`.
