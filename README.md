# Lithrop Ledger: newsletter parsing and fetch retry, in Dafny

Lithrop Ledger is a daily newsletter pipeline. It asks a language model for the
day's news as markdown, splits that markdown into named sections, renders them
into an HTML template and mails the result. This project models the two parts
of that pipeline that have real logic of their own:

- **The section parser** `HTMLFormatter._parse_news_data` (`html_formatter.dfy`).
  It takes the markdown and builds an insertion-ordered dict from section
  title to section body:
  - The text is cut at every `"\n## "`.
  - The first piece (the intro) gives a `"Market Update"` entry. That is the
    text before the first `**Sports Check**` marker, with a leading
    `# Lithrop Ledger` title line removed.
  - The intro also gives a `"Sports Check"` entry: the text from the marker on,
    with the marker text removed.
  - Every later piece gives an entry keyed by its first line, with `*`
    removed. A repeated title overwrites the earlier body but keeps the first
    position.

  `ParseNewsData` is the method, written step by step as the Python is:
  - `ParseIntro` is the intro block;
  - `ParseSections` is the loop over sections.

  It is proved equal to the function `Parsed`, and the properties are proved
  about `Parsed`.
- **The retry loop** of `NewsFetcher.get_daily_news` (`news_fetcher.dfy`).
  It makes up to `retries` calls to the model. After each failed call except
  the last it sleeps `delay` seconds and doubles `delay`. It returns the first
  response's text, or `None`. The remote call is an oracle: a script of
  outcomes, one per call. The sleeps are returned as the list of their
  durations.

Supporting modules:
- `py_str.dfy` holds the Python `str` operations the parser uses:
  - `str.isspace`, with the full Unicode set Python uses;
  - `strip()`;
  - `find`;
  - `replace(p, "")`, a left-to-right scan;
  - `re.split` on a pattern that is a plain literal.
- `section_map.dfy` holds the Python `dict` of title to body, as a list of
  entries in insertion order.
- `wrappers.dfy` holds `Option`.

### Where the code differs from what a reader might expect

The model follows the code in each case. Neither example below is proved as a
concrete lemma; each follows from the general lemmas named with it.

- **Title line without the newsletter name.** One might expect
  `"# Title\n**Sports Check**\nBody"` to give only `{"Sports Check": "Body"}`,
  the heading being dropped as a title.
  - The title pattern removes only a heading whose text is `Lithrop Ledger`,
    matched case-insensitively (`TitleEnd`, `RemovedIsHeading`).
  - So `# Title` stays, and the code also produces
    `"Market Update": "# Title"`.
- **A heading on the very first line.** One might expect
  `"## A\nfirst\n## A\nsecond"` to give `{"A": "second"}`, the second section
  overwriting the first.
  - The split needs a newline before `## `, so the first `## A\nfirst` is the
    intro (`SplitOn`, `SplitJoin`).
  - The code therefore gives `{"Market Update": "## A\nfirst", "A": "second"}`.
  - Last-write-wins does hold between sections (`ParsedLastWins`).
- **An input with no delimiter and no marker** gives at most a
  `"Market Update"` entry (`NoDelimiterNoMarker`).

## Model

| member | source | states |
|---|---|---|
| PyStr.Strip | src/html_formatter.py:43 | `strip()`: the result has no whitespace at either end and is no longer than the input |
| PyStr.StripFramed | src/html_formatter.py:43 | the stripped text sits inside the input with only whitespace before and after it |
| PyStr.StripUnique | src/html_formatter.py:43 | any slice that has only whitespace around it and none at its own ends is exactly what `strip()` returns |
| PyStr.StripIdempotent | src/html_formatter.py:45 | stripping an already stripped text changes nothing |
| PyStr.StripStripped | src/html_formatter.py:45 | a text with no whitespace at either end is left as it is by `strip()` |
| PyStr.TrimStartDropsSpace | src/html_formatter.py:43 | the leading part `strip()` drops is all whitespace |
| PyStr.TrimEndDropsSpace | src/html_formatter.py:43 | the trailing part `strip()` drops is all whitespace |
| PyStr.Find | src/html_formatter.py:40 | `find` gives the first index where the marker occurs, or none (`-1`) when it occurs nowhere |
| PyStr.FindNoneIffAbsent | src/html_formatter.py:40 | `find` fails exactly when the text does not contain the marker |
| PyStr.SplitOn | src/html_formatter.py:33 | `re.split` on a literal always yields at least one piece |
| PyStr.SplitJoin | src/html_formatter.py:33 | joining the pieces with the delimiter gives back the input |
| PyStr.SplitPiecesFree | src/html_formatter.py:33 | no piece contains the delimiter |
| PyStr.SplitWithoutDelimiter | src/html_formatter.py:33 | a text without the delimiter splits into itself alone |
| PyStr.SplitCount | src/html_formatter.py:33 | for a delimiter that cannot overlap itself, there is one piece more than there are occurrences |
| PyStr.RemoveAllIsConcatOfSplit | src/html_formatter.py:53 | `replace(p, "")` is the concatenation of the pieces between the occurrences found left to right |
| PyStr.RemoveCharGone | src/html_formatter.py:61 | after `replace('*', '')` no `*` is left |
| SectionMap.IndexOf | src/html_formatter.py:64 | the position of a key is its first occurrence, and there is none exactly when the key is absent |
| SectionMap.Put | src/html_formatter.py:64 | `d[k] = v`: a new key is appended; an existing key keeps its position and takes the new value; other entries are unchanged; keys stay distinct |
| SectionMap.GetPut | src/html_formatter.py:64 | after `d[k] = v`, looking up `k` gives `v` and every other key gives what it gave before |
| SectionMap.PutKeys | src/html_formatter.py:64 | the keys after `d[k] = v` are the old keys plus `k` |
| SectionMap.LastValue | src/html_formatter.py:57-64 | the last value assigned to a key, and none exactly when the key is never assigned |
| SectionMap.PutAllLastWins | src/html_formatter.py:57-64 | after a series of assignments, each key holds its last assigned value (or its old one if never assigned) |
| SectionMap.PutAllKeys | src/html_formatter.py:57-64 | the keys after the assignments are the old keys plus the assigned ones |
| SectionMap.PutAllDistinct | src/html_formatter.py:57-64 | assignments never create a repeated key |
| SectionMap.PutAllSize | src/html_formatter.py:57-64 | each assignment adds at most one entry |
| SectionMap.PutAllValues | src/html_formatter.py:57-64 | every stored value was in the old dict or among the assigned values |
| SectionMap.PutAllFresh | src/html_formatter.py:57-64 | assignments to distinct new keys only append them, in order |
| HtmlFormatter.SkipSpace | src/html_formatter.py:45 | `\s*` ends at the first non-whitespace character |
| HtmlFormatter.SkipSpaceSkipsSpace | src/html_formatter.py:45 | everything `\s*` passes over is whitespace |
| HtmlFormatter.TitleEnd | src/html_formatter.py:45 | the anchored title pattern matches only text starting with `#`, and the match ends at the end or before a non-whitespace character |
| HtmlFormatter.RemoveTitle | src/html_formatter.py:45 | `re.sub` of the anchored pattern leaves a suffix of its input |
| HtmlFormatter.TitleRemovedFromHeading | src/html_formatter.py:45 | every `#`, whitespace, optional `*`, `Lithrop Ledger` in any ASCII case, optional `*`, whitespace heading is removed, whatever follows |
| HtmlFormatter.RemovedIsHeading | src/html_formatter.py:45 | whatever the pattern removes is such a heading |
| HtmlFormatter.MarketCut | src/html_formatter.py:43 | the market part ends inside the intro |
| HtmlFormatter.MarketCutSplits | src/html_formatter.py:40-43 | the market part has no marker; when the intro has one, the cut is at the first marker, and otherwise the whole intro is taken |
| HtmlFormatter.MarketText | src/html_formatter.py:43-45 | the market text has no whitespace at either end |
| HtmlFormatter.MarketOfTitledIntro | src/html_formatter.py:43-45 | a title heading followed by a body that has no marker and no space at its ends gives exactly that body as market text |
| HtmlFormatter.SportsText | src/html_formatter.py:50-53 | there is a sports text exactly when the intro contains the marker, and it is stripped |
| HtmlFormatter.SportsAfterMarker | src/html_formatter.py:50-53 | the sports text is what follows the first marker, with each further marker found left to right removed, then stripped |
| HtmlFormatter.SportsAfterOnlyMarker | src/html_formatter.py:50-53 | with no second marker, the sports text is the rest of the intro after the marker, stripped |
| HtmlFormatter.MarketEntries | src/html_formatter.py:46-47 | `"Market Update"` is assigned exactly when the market text is not empty |
| HtmlFormatter.SportsEntries | src/html_formatter.py:50-54 | `"Sports Check"` is assigned exactly when the intro has the marker |
| HtmlFormatter.IntroEntries | src/html_formatter.py:36-54 | the intro makes at most two assignments |
| HtmlFormatter.IntroEntriesFacts | src/html_formatter.py:43-54 | market key iff non-empty market text; sports key iff marker; only those two titles; values stripped; the market value is never empty |
| HtmlFormatter.IntroEntriesKeys | src/html_formatter.py:46-54 | the intro's titles are exactly "Market Update" (when there is market text) and "Sports Check" (when there is a marker) |
| HtmlFormatter.FirstLine | src/html_formatter.py:59 | `(.+)` captures a prefix with no newline that ends at the end of the chunk or at a newline |
| HtmlFormatter.SectionEntry | src/html_formatter.py:59-64 | a chunk makes an assignment exactly when it is not empty and does not start with a newline |
| HtmlFormatter.SectionEntryClean | src/html_formatter.py:61-63 | a section's title has no `*` and its body is stripped |
| HtmlFormatter.SectionEntries | src/html_formatter.py:57-64 | the sections make at most one assignment each |
| HtmlFormatter.SectionEntriesClean | src/html_formatter.py:57-64 | every section assignment has a `*`-free title and a stripped body |
| HtmlFormatter.SectionEntriesKeys | src/html_formatter.py:57-64 | the section titles are exactly the titles of the chunks that have a first line |
| HtmlFormatter.TitledChunk | src/html_formatter.py:57-64 | every title the sections assign comes from the first line of some chunk |
| HtmlFormatter.TitledChunkKey | src/html_formatter.py:57-64 | the first-line title of every chunk that has one is among the section titles |
| HtmlFormatter.ParsedEmpty | src/html_formatter.py:28-29 | empty input gives an empty dict |
| HtmlFormatter.ParsedDistinct | src/html_formatter.py:31-64 | no title appears twice in the result |
| HtmlFormatter.ParsedLastWins | src/html_formatter.py:57-64 | each title holds the body of the last assignment to it (silent overwrite of duplicate sections) |
| HtmlFormatter.ParsedSize | src/html_formatter.py:33-64 | at most two entries more than there are `"\n## "` delimiters |
| HtmlFormatter.ParsedClean | src/html_formatter.py:43-63 | every body is stripped and no title has a `*` |
| HtmlFormatter.ParsedKeys | src/html_formatter.py:46-64 | the titles are "Market Update" iff there is market text, "Sports Check" iff the intro has the marker, and the first-line titles of the sections |
| HtmlFormatter.NoDelimiterNoMarker | src/html_formatter.py:33-47 | without delimiter and marker the dict is empty or holds only "Market Update" |
| HtmlFormatter.ParseSection | src/html_formatter.py:59-64 | one pass of the section loop: a chunk with a first line sets its title to its body; any other chunk leaves the dict as it was |
| HtmlFormatter.ParseIntro | src/html_formatter.py:36-54 | the intro block yields the dict of the intro assignments |
| HtmlFormatter.ParseSections | src/html_formatter.py:57-64 | the section loop extends that dict with each section's assignment, in order |
| HtmlFormatter.ParseNewsData | src/html_formatter.py:24-65 | `None` or empty input gives `{}`; otherwise the result is exactly `Parsed` of the input |
| NewsFetcher.DoubledIsPower | src/news_fetcher.py:41 | after `k` rounds of `delay *= 2` the delay is `delay * 2^k` |
| NewsFetcher.Backoff | src/news_fetcher.py:38-41 | there are `k` sleeps; the first lasts `delay` seconds and each later one twice the one before |
| NewsFetcher.BackoffIsPower | src/news_fetcher.py:38-41 | the j-th sleep (counting from 0) lasts `delay * 2^j` seconds |
| NewsFetcher.BackoffTotal | src/news_fetcher.py:38-41 | `k` sleeps take, in all, `delay` seconds less than the delay has grown to, i.e. `delay * (2^k - 1)` by `DoubledIsPower` |
| NewsFetcher.FirstSuccess | src/news_fetcher.py:28-35 | the first of the first `n` calls that returns, with every earlier one failing; none iff all `n` fail |
| NewsFetcher.FirstSuccessStable | src/news_fetcher.py:28-35 | allowing more calls does not change which call succeeds first |
| NewsFetcher.FirstSuccessAt | src/news_fetcher.py:28-35 | a call that returns after only failures is the first success |
| NewsFetcher.GetDailyNews | src/news_fetcher.py:28-44 | no call when `retries <= 0`; otherwise the first successful call's text, after `k` calls' worth of doubling sleeps; or `None` after exactly `retries` calls and `retries - 1` sleeps |

Proof helpers, not listed above: `SectionMap.PutAllLast`, `HtmlFormatter.IntroPuts`
and `HtmlFormatter.SectionStep` unfold `PutAll` and the entry lists one step, so
that the methods' loops and branches can be matched against `Parsed`.

## Left out

- Rendering: the Jinja2 template, the `markdown2` filter and the `premailer` CSS inlining in `format_newsletter` are foreign libraries, not modelled.
- The Gemini client, the network, the prompt and the `GenerateContentConfig` are replaced by a script of call outcomes. A response whose `text` is `None` is not distinguished from one with text.
- `print` logging and `time.sleep` are I/O. Sleeps are returned as a list of durations instead.
- NewsFetcher.GetDailyNews: `delay` is a natural number. A negative delay makes `time.sleep` raise, and fractional delays are floating point; neither is modelled.
- HtmlFormatter.TitleEnd: the `IGNORECASE` match is ASCII case folding. Python's Unicode folding also lets `i` match U+0130 and U+0131; that is not modelled.
- Python strings with lone surrogate code points are outside Dafny's `char`.
- `email_dispatcher.py`, `main.py` and the test scripts are not part of this model.
