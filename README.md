# Market daily report: feed publication layer

This project models the publication layer of the market daily report, a set of
Python scripts that turn market data into a static site under `docs/`. The model
covers the parts of those scripts that decide what gets published:

- **The feed exporter** (`export_for_chatgpt.py`). It normalises the news
  container, resolves news-field aliases, buckets the `*_compact.png` chart
  paths by ticker and picks one chart per timeframe plus a "best" one. It also
  builds the mirror URLs, coerces per-ticker metrics to numbers, and assembles
  the sorted ticker universe and the news payload.
- **The network helpers** (`lib_net.py`):
  - title and URL canonicalisation: tracking-parameter stripping, the
    `http://` to `https://` upgrade and trailing-slash removal;
  - first-occurrence news deduplication;
  - ordered mirror fallback, with HTTP as an oracle from URL to outcome.
- **The post-processor** (`postprocess_report.py`):
  - nested-key lookup, per-timeframe normalisation and 52-week flags with a
    0.1% tolerance band;
  - the HTML table fragment between its two sentinel comments, and its
    injection into `index.html`, including removal of the old marker-free
    table section; the fragment goes into a marked page as an `re.sub`
    replacement template, escapes and errors included;
  - atomic writes over a map from path to file contents.
- **The news fetcher** (`fetch_nftrh_northstar.py`): filename cleaning,
  loading of the previously saved news file in any of its shapes, the
  look-back cutoff, the image extension, and the merge of fresh posts before
  old ones. The merge is a stable descending sort by `published`, cut to 20.
- **The crypto augmenter** (`crypto_and_compacts.py`):
  - the trailing run of weekly closes above the 36-week average;
  - the guarded distance and MACD-cross rules;
  - the right-biased shallow merge of a fresh entry into an asset record;
  - the rule that the index is written only when some ticker got data.

  `scripts/scripts/augment_crypto_and_compacts.py` is a byte-identical copy of this
  script, so one module models both. The table cites each copy for some
  members.
- **The report generator's helpers** (`generate_report.py`):
  - the run-window gate and the `ALLOWED_TICKERS` filter;
  - `safe_slug` and the news image name and extension;
  - `pct`, the NaN-to-None and MACD-cross guards of the asset summary;
  - the sorted chart list.

Each script is one module: `Export`, `LibNet`, `Postprocess` (the builders),
`TableRows`, `TableText`, `ReportTable` and `Inject` (the table fragment and
its injection), `PostprocessMain` (the run), `Northstar`, `CryptoCompacts` and
`GenerateReport`. Shared modules:

- `JsonValues`: JSON values with numbers that may be NaN or an infinity, Python truthiness,
  `isinstance(x, (int, float))` (which accepts booleans), `_get` and alias
  chains.
- `Text`: `strip`, `lstrip`, ASCII case mapping, `find`, `in`, `replace`,
  `split`/`join`, and `re.sub` over a character class.
- `TextSearch`: occurrence counting.
- `ReTemplate`: the replacement template of `re.sub` as Python 3.12 reads it,
  with its escapes, the whole-match reference `\g<0>` and its errors.
- `StrOrder`: Python's string order, `sorted` of a key set, and the stable
  descending sort.
- `FileStore`: a `Disk` class holding the map from path to contents, with
  `write_text` and `os.replace` as methods and the atomic writes built on them.

Loops in the source are methods with loop invariants, proved against a
function of their inputs; facts about those functions are lemmas. Module-level
state that the scripts change (the files on disk) is the `Disk` object.

The exporter reads three files. A missing file or one that does not parse is
`None` there (`_safe_read_json`), so the model takes the three parsed
documents as parameters, with `JNull` for `None`.

Where the model follows the code rather than its comments:

- The ticker regex of the exporter (`export_for_chatgpt.py:158`) is greedy and
  its character class contains `_`. The bucket key of a chart is therefore its
  basename up to the last underscore (`GLD_daily_compact.png` lands in the
  bucket `GLD_daily`), not up to the first one as the docstring at line 126
  says. `Export.TickerOfChartName` states this.
- The 52-week flag is `last >= hi52 * 0.999`. A close of 190.2 against a high
  of 192.0 is therefore not a 52-week high (192.0 * 0.999 = 191.808).
  `Postprocess.HighOutsideBand` states this.
- The post-processor comments call the page update idempotent. It keeps
  exactly one marker pair, but each run adds one line break before and one
  after the fragment, because the fragment's own leading and trailing line
  breaks lie outside the region it replaces. `Inject.InjectAgain` states this.
- The marker branch of the page update passes the fragment to `re.sub` as
  its replacement, so the fragment is a template. A backslash in the stamp or
  in a row is an escape: `\t` becomes a TAB, and `\g<0>` puts the old region
  back. A bad escape such as `\d` in a stamp `C:\dev` raises `re.error`. The
  run has by then written `report.json`, `report.md` and
  `report_table.html`, so `index.html` alone keeps its old text.
  `ReTemplate.BackslashStampRefused`, `ReTemplate.TabExpanded`,
  `Inject.InjectTable` and `PostprocessMain.WriteOutputs` state this. The two
  other branches insert the fragment with `str.replace` or `+`, as it is.

## Model

| member | source | states |
|---|---|---|
| `JsonValues.RelDist` | scripts/crypto_and_compacts.py:107 | `(a - b) / b` for a non-zero divisor is finite exactly when both operands are, and then solves `r * b == a - b`; it is NaN exactly when an operand is NaN or the divisor is infinite, and infinite only for an infinite dividend over a finite divisor, with the sign of that quotient |
| `JsonValues.DictOrEmpty` | scripts/export_for_chatgpt.py:169-174 | `x or {}` used as a dict: the dict's own entries, `{}` for a falsy value, and an AttributeError exactly when `x` is a truthy non-dict |
| `JsonValues.Get` | scripts/postprocess_report.py:58-64 | `_get`'s cursor loop returns the value reached along the keys, and the default as soon as a step meets a non-dict or a missing key |
| `JsonValues.WalkAppend` | scripts/export_for_chatgpt.py:51-57 | walking a key path `a + b` is walking `a` and then `b` from where `a` ended, or failing when `a` fails |
| `JsonValues.StopsAtFirstFailure` | scripts/export_for_chatgpt.py:53-55 | once the walk reaches a value that is not a dict holding the next key, `_get` returns the default whatever keys follow |
| `JsonValues.FirstListKey` | scripts/export_for_chatgpt.py:129-138 | the position of the first key whose value is a list: none exactly when no key holds a list, and no earlier key holds one |
| `JsonValues.FirstTruthyKey` | scripts/export_for_chatgpt.py:260-265 | the position of the first truthy alias: none exactly when every alias is falsy or missing, and every earlier alias is falsy |
| `JsonValues.AliasSingle` | scripts/export_for_chatgpt.py:260-265 | a record that fills only one alias of a chain, with a truthy value, resolves to that value, whichever alias it is |
| `Text.LStrip` | scripts/lib_net.py:48 | what `lstrip()` removes is all whitespace, and what it keeps does not start with whitespace |
| `Text.LStripSuffix` | scripts/lib_net.py:48 | what `lstrip()` keeps is a suffix of its input |
| `Text.RStrip` | scripts/lib_net.py:48 | what `rstrip()` removes is all whitespace, and what it keeps does not end with whitespace |
| `Text.StripNone` | scripts/lib_net.py:37 | text without whitespace is unchanged by `strip()` |
| `Text.TrimLeft` | scripts/export_for_chatgpt.py:90 | `rel.lstrip("/")` removes a prefix made only of slashes, and the rest does not start with one |
| `Text.TrimLeftSuffix` | scripts/export_for_chatgpt.py:151 | what `lstrip("/")` keeps is a suffix of its input |
| `Text.FirstWhere` | scripts/lib_net.py:31 | the position of the first character a test accepts, or the length when none does; every earlier character is rejected |
| `Text.TrimLeftWhere` | scripts/lib_net.py:31 | `lstrip(chars)` for a character class drops a prefix of class characters and keeps a suffix that does not start with one |
| `Text.TrimLeftShape` | scripts/lib_net.py:31 | what `lstrip(chars)` keeps is a suffix of the input, not starting with a dropped character, with only dropped characters before it |
| `Text.RemoveWhere` | scripts/lib_net.py:31 | removing a character class leaves none of its characters and keeps the order of the others |
| `Text.RemoveWhereNone` | scripts/lib_net.py:31 | removing characters that do not occur changes nothing |
| `Text.Lower` | scripts/lib_net.py:48 | `lower()` keeps the length and maps each character to its ASCII lower-case form |
| `Text.Upper` | scripts/generate_report.py:85 | `upper()` keeps the length and maps each character to its ASCII upper-case form |
| `Text.IndexFrom` | scripts/postprocess_report.py:273-278 | the first position from `start` on at which the pattern occurs, and none exactly when it occurs nowhere from there |
| `Text.OccurrencesZero` | scripts/postprocess_report.py:272 | `p in s` is the same as a zero count of occurrences being false |
| `Text.Take` | scripts/fetch_nftrh_northstar.py:23 | `s[:n]` is the prefix of length `min(n, len(s))` |
| `Text.AfterLast` | scripts/fetch_nftrh_northstar.py:80 | `split(c)[-1]` holds no `c` and is all of `s` when `s` holds none |
| `Text.AfterLastSuffix` | scripts/fetch_nftrh_northstar.py:80 | `split(c)[-1]` is a suffix of its input, preceded by `c` when it is shorter |
| `Text.AfterLastAt` | scripts/fetch_nftrh_northstar.py:80 | whatever precedes the last `c`, the last piece is what follows it |
| `Text.ReplaceRunsChars` | scripts/generate_report.py:229 | every character of `re.sub("[^class]+", rep, s)` is an accepted input character or the replacement |
| `Text.ReplaceRunsCollapsed` | scripts/generate_report.py:229 | the substitution's output has no run of two rejected characters: every replacement is followed by an accepted character or by the end |
| `Text.ReplaceRunsFixed` | scripts/generate_report.py:229 | text that already has that collapsed shape is left unchanged |
| `Text.ReplaceRunsIdempotent` | scripts/generate_report.py:229 | substituting the runs twice is the same as substituting them once |
| `Text.SplitOn` | scripts/generate_report.py:87 | `split(",")` keeps empty pieces and gives one more piece than there are separators |
| `Text.JoinSplit` | scripts/generate_report.py:87 | joining the pieces of `split(c)` with `c` gives back the text |
| `Text.SplitJoin` | scripts/generate_report.py:87 | splitting separator-free parts joined by `c` gives back the parts |
| `Text.NatToString` | scripts/fetch_nftrh_northstar.py:24 | `str(n)` of a natural number is a non-empty string of digits that denotes `n`, with a leading zero only for 0 |
| `ReTemplate.Step` | scripts/postprocess_report.py:273-278 | one piece of a replacement template takes at least one character and at most the rest of the template, and a character other than a backslash is itself |
| `ReTemplate.GroupRef` | scripts/postprocess_report.py:273-278 | `\g<...>` is accepted only as `<`, a name of zeros and `>`, the whole match, which is the only group the marker pattern has; every other form is an error |
| `ReTemplate.ExpandGroupFree` | scripts/postprocess_report.py:273-278 | a template without group references puts in the same text whatever the match |
| `ReTemplate.PlainPrefix` | scripts/postprocess_report.py:273-278 | a template prefix without a backslash is read character by character, and the rest is read as it would be alone |
| `ReTemplate.ExpandPlain` | scripts/postprocess_report.py:273-278 | the pieces of a backslash-free text put that text back |
| `ReTemplate.PlainLiteral` | scripts/postprocess_report.py:273-278 | a template without a backslash is put in as it is |
| `ReTemplate.EscapeRoundTrip` | scripts/postprocess_report.py:273-278 | round trip: a template made by doubling the backslashes of a text puts in exactly that text |
| `ReTemplate.BadEscape` | scripts/postprocess_report.py:273-278 | an escaped ASCII letter without a meaning, after a backslash-free prefix, makes the whole template an error |
| `ReTemplate.BackslashStampRefused` | scripts/postprocess_report.py:273-278 | a stamp such as `C:\dev` is refused: `\d` is a bad escape |
| `ReTemplate.TabExpanded` | scripts/postprocess_report.py:273-278 | `\t` in a template becomes a TAB character |
| `ReTemplate.WholeMatchRef` | scripts/postprocess_report.py:273-278 | `\g<0>` stands for the whole match |
| `StrOrder.Insert` | scripts/export_for_chatgpt.py:240 | inserting a missing key into a strictly ascending list keeps it strictly ascending and adds exactly that key |
| `StrOrder.SortedFromSet` | scripts/export_for_chatgpt.py:240 | `sorted(set(...))` lists every key once, strictly ascending in Python's string order |
| `StrOrder.AscendingUnique` | scripts/export_for_chatgpt.py:240 | two strictly ascending lists with the same elements are equal, so the sorted universe is unique |
| `StrOrder.SortDescFacts` | scripts/fetch_nftrh_northstar.py:96 | `sort(key=..., reverse=True)` yields a permutation of its input, descending by key |
| `StrOrder.SortDescStable` | scripts/fetch_nftrh_northstar.py:96 | the descending sort is stable: elements with equal keys keep their input order |
| `StrOrder.DescendingPrefix` | scripts/fetch_nftrh_northstar.py:97 | cutting a descending list to a prefix keeps it descending and takes nothing the list does not hold |
| `FileStore.TmpSibling` | scripts/postprocess_report.py:35 | `path.with_suffix(path.suffix + ".tmp")` differs from the path and extends it by four characters |
| `FileStore.Disk.constructor` | scripts/postprocess_report.py:34-42 | a disk holds the given files |
| `FileStore.Disk.WriteText` | scripts/postprocess_report.py:36 | `write_text` creates or overwrites exactly one file |
| `FileStore.Disk.Replace` | scripts/postprocess_report.py:37 | `os.replace(src, dst)` gives `dst` the contents of `src` and removes `src` |
| `FileStore.Disk.WriteTextAtomic` | scripts/postprocess_report.py:34-37 | after `write_text_atomic` the path holds the text, its `.tmp` sibling is gone, and every other path is as it was |
| `FileStore.Disk.WriteJsonAtomic` | scripts/postprocess_report.py:39-42 | `write_json_atomic` leaves the serialised document at the path and removes the `.tmp` sibling |
| `Export.AbspathFor` | scripts/export_for_chatgpt.py:86-95 | the raw, jsDelivr and Pages URLs of a file are each `<base>/<rel>`, with every leading slash of `rel` removed |
| `Export.Num` | scripts/export_for_chatgpt.py:59-60 | `_num` keeps a number, booleans included, and turns anything else into None |
| `Export.NormalizeNewsContainer` | scripts/export_for_chatgpt.py:65-84 | None gives `[]`; a list is returned as it is; a dict gives its first list among `items`, `news`, `data`, else `[]`; any other value gives `[]` |
| `Export.Priority` | scripts/export_for_chatgpt.py:102 | every timeframe has its position in the priority list daily, weekly, monthly, hourly |
| `Export.PriorityOfFrames` | scripts/export_for_chatgpt.py:102 | the priority list holds each timeframe once |
| `Export.FirstIndex` | scripts/export_for_chatgpt.py:106-109 | the position of the first element a test accepts: none exactly when no element passes, and every earlier element fails |
| `Export.FindFirst` | scripts/export_for_chatgpt.py:106-109 | the scan that returns at the first accepted element finds the position `FirstIndex` defines |
| `Export.HitAtFirstMatch` | scripts/export_for_chatgpt.py:104-109 | `find_for` returns the file at the first position whose name ends, case-insensitively, with `_<frame>_compact.png` |
| `Export.HitMatches` | scripts/export_for_chatgpt.py:104-109 | a hit of `find_for` is a matching file of the list, and there is none exactly when no file matches |
| `Export.FindFor` | scripts/export_for_chatgpt.py:104-109 | the `find_for` loop returns the first matching file in input order |
| `Export.HitIsFirst` | scripts/export_for_chatgpt.py:106-108 | the file `find_for` returns comes no later than any other matching file |
| `Export.MatchIsNonEmpty` | scripts/export_for_chatgpt.py:113 | a matching name is never empty, so `if hit:` keeps every match |
| `Export.FirstPresentIsFirst` | scripts/export_for_chatgpt.py:116-120 | the chart chosen from position `k` on is that of the first present timeframe from `k`, and there is none exactly when no timeframe from `k` is present |
| `Export.FramesCover` | scripts/export_for_chatgpt.py:102 | the priority list covers every timeframe |
| `Export.CompactChartsChoice` | scripts/export_for_chatgpt.py:97-121 | the charts of a bucket have one entry per matching timeframe, built from its first matching file, and "best" is the entry of the first present timeframe in priority order, present exactly when some timeframe is |
| `Export.ChartsByFrame` | scripts/export_for_chatgpt.py:111-114 | the first loop records a timeframe exactly when `find_for` has a hit, with the mirror URLs of that hit |
| `Export.BestOf` | scripts/export_for_chatgpt.py:116-120 | the second loop finds no best chart exactly when no timeframe is present, and otherwise the chart of the first present timeframe in priority order |
| `Export.ChooseBestCompact` | scripts/export_for_chatgpt.py:97-121 | `_choose_best_compact` returns the reference charts and keeps the promise stated by `CompactChartsChoice` |
| `Export.SourceFiles` | scripts/export_for_chatgpt.py:128-138 | the file list is a bare list as it is; for a dict it is the first list among `files`, `all`, `charts`, else `[]`; any other value gives `[]` |
| `Export.CompactNames` | scripts/export_for_chatgpt.py:141 | every surviving name is a string whose lower-case form ends in `_compact.png` |
| `Export.CompactNamesComplete` | scripts/export_for_chatgpt.py:141 | every string entry whose lower-case form ends in `_compact.png` survives the filter |
| `Export.TrimLeftKeepsContains` | scripts/export_for_chatgpt.py:151 | removing leading slashes keeps every occurrence of `charts/` |
| `Export.NormalizePathShape` | scripts/export_for_chatgpt.py:143-152 | every normalised path contains `charts/`, has no leading slash, and ends with the original name stripped of its leading slashes |
| `Export.ClassRun` | scripts/export_for_chatgpt.py:158 | the leading run of `[A-Za-z0-9\-\._]` characters: all of its characters are in the class, and the next one is not |
| `Export.LastUnderscore` | scripts/export_for_chatgpt.py:158 | the last underscore at position one or later within the leading run, or none exactly when there is no such underscore |
| `Export.TickerOf` | scripts/export_for_chatgpt.py:157-161 | the greedy group is a non-empty prefix of class characters followed by `_`, with no underscore after it inside the run; there is no match exactly when the run has no underscore after its first character |
| `Export.ClassRunAll` | scripts/export_for_chatgpt.py:158 | a name made only of class characters is one whole run |
| `Export.LastUnderscoreAt` | scripts/export_for_chatgpt.py:158 | the regex backtracks to the underscore after which the run has no more |
| `Export.TickerOfTail` | scripts/export_for_chatgpt.py:158-161 | a run of class characters followed by a tail whose only underscore is its first character is keyed by that run |
| `Export.CompactTailShape` | scripts/export_for_chatgpt.py:158 | `_compact.png` consists of class characters, and its only underscore is the first character |
| `Export.TickerOfChartName` | scripts/export_for_chatgpt.py:154-162 | the bucket key of `<ticker>_<frame>_compact.png` is `<ticker>_<frame>`, not the ticker: the key runs to the last underscore |
| `Export.BucketSingle` | scripts/export_for_chatgpt.py:162 | a single path lands in the bucket of its key, or in none |
| `Export.BucketMembers` | scripts/export_for_chatgpt.py:154-162 | a path lands in a bucket exactly when its key is that bucket's ticker |
| `Export.BucketAppend` | scripts/export_for_chatgpt.py:155-162 | a bucket of `a + b` is the bucket of `a` followed by the bucket of `b`, so paths keep their input order |
| `Export.BucketsDisjoint` | scripts/export_for_chatgpt.py:154-162 | the buckets of different tickers are disjoint, so each path is in at most one bucket |
| `Export.NormalizeAll` | scripts/export_for_chatgpt.py:143-152 | the prefix loop maps each surviving name to its normalised path, one for one and in order |
| `Export.BucketBy` | scripts/export_for_chatgpt.py:154-163 | `setdefault(...).append` builds exactly the non-empty buckets, each holding its paths in input order |
| `Export.CollectCompactsByTicker` | scripts/export_for_chatgpt.py:123-163 | `_collect_compacts_by_ticker` returns exactly the non-empty buckets of the normalised compact paths, keyed by `TickerOf` of each basename, each in input order |
| `Export.MetricsFromIndex` | scripts/export_for_chatgpt.py:165-227 | `_metrics_from_index` raises AttributeError exactly when the asset record, its frames or one frame is a truthy non-dict |
| `Export.MetricsCoerced` | scripts/export_for_chatgpt.py:176-226 | the `_num` fields of the metrics keep a number and become None otherwise; the flags, ratios and crosses are copied as they are, for the asset and each of the four timeframes |
| `Export.FrameMetricsCoerced` | scripts/export_for_chatgpt.py:189-224 | each timeframe's metrics coerce `dist_to_36MA`, `rsi14` and the MACD values and copy `close_above_sma36` and `macd_cross` |
| `Export.MetricsOfUnknownTicker` | scripts/export_for_chatgpt.py:169-226 | a ticker known only from the chart files gets metrics whose every value is None |
| `Export.NewsEntry` | scripts/export_for_chatgpt.py:257-275 | an entry is kept exactly when it is a dict with a truthy title or url alias; then title or url is truthy, every text field is its first truthy alias or `""`, and the image is truthy or None |
| `Export.FilterMap` | scripts/export_for_chatgpt.py:257-275 | a filtering loop keeps at most as many values as it has inputs |
| `Export.FilterMapFrom` | scripts/export_for_chatgpt.py:257-275 | every kept value comes from some input element |
| `Export.FilterMapLoop` | scripts/export_for_chatgpt.py:256-275 | the append loop builds the values of the kept elements, in input order |
| `Export.NewsPayloadEntries` | scripts/export_for_chatgpt.py:254-275 | every entry of the news payload has a truthy title or url and comes from an input dict |
| `Export.BuildNewsPayload` | scripts/export_for_chatgpt.py:254-275 | the news loop of `main` yields the kept entries in input order |
| `Export.EntryOfPayload` | scripts/export_for_chatgpt.py:245-252 | the reference entry of a ticker carries its symbol, its metrics (`{}` for an empty index), and `{}` or the charts of its bucket |
| `Export.TickerEntry` | scripts/export_for_chatgpt.py:245-252 | one ticker's entry fails exactly when reading its metrics raises, and is otherwise the reference entry of that ticker |
| `Export.BuildTickersPayload` | scripts/export_for_chatgpt.py:243-252 | the ticker loop fails exactly when some ticker's metrics raise, and otherwise yields one reference entry per ticker, in the given order |
| `Export.EntriesFormFeed` | scripts/export_for_chatgpt.py:238-252 | entries built for the sorted union of index keys and bucket keys are strictly ascending by symbol, one per ticker of the universe and no other, each the reference entry of its symbol |
| `Export.ExportFeed` | scripts/export_for_chatgpt.py:229-283 | `main` fails exactly when the assets value cannot be listed or some ticker's metrics raise; otherwise the feed carries the spec tag, the clock, the mirrors, the sorted ticker entries, and the news payload of the normalised news container |
| `LibNet.Cleaned` | scripts/lib_net.py:31 | `urlsplit`'s input cleaning leaves no tab, carriage return or newline |
| `LibNet.SplitScheme` | scripts/lib_net.py:31 | a valid scheme before the first colon is split off lower-cased; otherwise the scheme is empty and the whole URL remains |
| `LibNet.SplitNetloc` | scripts/lib_net.py:31 | after `//`, the netloc runs to the first `/`, `?` or `#`; without `//` there is none |
| `LibNet.SplitAtFirst` | scripts/lib_net.py:31 | splitting at the first separator gives the text before it, free of it, and the text after it |
| `LibNet.SplitAtFirstUnique` | scripts/lib_net.py:31 | only the first separator splits |
| `LibNet.UrlSplit` | scripts/lib_net.py:31 | `urlsplit` raises ValueError exactly on an unbalanced bracket in the netloc or a non-ASCII netloc that `_checknetloc` refuses because its NFKC form gains one of `/?#@:`; otherwise the scheme, netloc, path and query hold no separator that would end them |
| `LibNet.UnsplitEndsWithPath` | scripts/lib_net.py:34 | with no query and no fragment, `urlunsplit` ends with the path |
| `LibNet.UnsplitHasNoHash` | scripts/lib_net.py:34 | with an empty fragment, `urlunsplit` writes `#` only when a component holds one |
| `LibNet.SafeConcat` | scripts/lib_net.py:31 | joining two texts free of tabs and newlines gives such a text |
| `LibNet.SplitTail` | scripts/lib_net.py:31 | splitting the text after the netloc gives back the path, query and fragment |
| `LibNet.UnsplitCanonical` | scripts/lib_net.py:34 | for a scheme, a netloc and an absolute path, `urlunsplit` writes `scheme://netloc` and then the tail |
| `LibNet.CleanedCanonical` | scripts/lib_net.py:31 | canonical components contain nothing that cleaning removes |
| `LibNet.SchemeCanonical` | scripts/lib_net.py:31 | the scheme of a canonical URL is found again, and the rest follows its colon |
| `LibNet.TailStart` | scripts/lib_net.py:34 | the tail starts with a character that ends a netloc |
| `LibNet.NetlocCanonical` | scripts/lib_net.py:31 | the netloc of a canonical URL ends where the tail begins |
| `LibNet.SplitUnsplit` | scripts/lib_net.py:31-34 | round trip: `urlsplit(urlunsplit(p)) == p` for canonical components, whose netloc `_checknetloc` accepts |
| `LibNet.NetlocRefusedIff` | scripts/lib_net.py:31 | `_checknetloc` refuses a netloc exactly when one of its characters has an NFKC form of its own, since each such form holds one of `/?#@:` and the netloc, once stripped of `@:#?`, holds none |
| `LibNet.UnsplitRefused` | scripts/lib_net.py:31-34 | a URL written from unambiguous components fails to split exactly when its netloc holds a character with an NFKC form of its own, and otherwise splits back into those components |
| `LibNet.FullwidthSolidusRefused` | scripts/lib_net.py:31 | `urlsplit("https://a\uFF0Fb")` raises ValueError, so `normalize_url` and `dedup_news` stop on it |
| `LibNet.ParsePieces` | scripts/lib_net.py:32 | `parse_qsl(..., keep_blank_values=True)` yields at most one pair per `&`-piece |
| `LibNet.EncodePairs` | scripts/lib_net.py:34 | `urlencode` writes one `name=value` piece per pair |
| `LibNet.KeepUntracked` | scripts/lib_net.py:33 | a pair is kept exactly when its name does not start, ignoring case, with a tracking prefix |
| `LibNet.KeepUntrackedOrder` | scripts/lib_net.py:33 | the kept pairs keep their original order |
| `LibNet.KeepUntrackedIdempotent` | scripts/lib_net.py:33 | stripping tracking pairs twice removes nothing more |
| `LibNet.TrackingPrefixIsStripped` | scripts/lib_net.py:33 | any capitalisation of `utm_` followed by anything is a tracking name |
| `LibNet.StripTracking` | scripts/lib_net.py:30-34 | `_strip_tracking` fails exactly when `urlsplit` does; otherwise it reassembles scheme, netloc and path with the untracked pairs re-encoded and no fragment |
| `LibNet.TrimOneSlash` | scripts/lib_net.py:43-44 | a path other than `/` that ends in `/` loses exactly one character, `/` stays, and any other path is kept |
| `LibNet.TrimOneSlashOnce` | scripts/lib_net.py:43-44 | a path ending in `//` keeps a trailing slash: only one is removed |
| `LibNet.UpgradeHead` | scripts/lib_net.py:39 | the replaced URL starts with `https://` when the input starts with `http://`; otherwise its first character is kept |
| `LibNet.UpgradePrefix` | scripts/lib_net.py:39 | a prefix without `h` of the replaced text is a prefix of the input |
| `LibNet.NoHttpInsideHttps` | scripts/lib_net.py:39 | `http://` does not start inside the `https://` the replacement writes |
| `LibNet.UpgradeLeavesNoHttp` | scripts/lib_net.py:39 | after `replace("http://", "https://")` no `http://` is left anywhere |
| `LibNet.NoHttpAfterHttps` | scripts/lib_net.py:39 | writing `https://` before text without `http://` creates none |
| `LibNet.NoHttpAfterOther` | scripts/lib_net.py:39 | keeping a first character that does not start `http://` before upgraded text creates none |
| `LibNet.TrimAndDropFragment` | scripts/lib_net.py:41-45 | the second split fails exactly when `urlsplit` does; otherwise the URL is reassembled with one trailing slash trimmed and no `#` |
| `LibNet.NormalizeUrl` | scripts/lib_net.py:36-45 | `normalize_url` strips, strips tracking and upgrades every `http://`; it fails exactly when a split fails, and its result has no `http://` before the trim and no `#` |
| `LibNet.TrimmedNoFragment` | scripts/lib_net.py:45 | reassembling with the trimmed path and no fragment writes no `#` |
| `LibNet.UnsplitNoFragment` | scripts/lib_net.py:45 | reassembling with a shortened path and no fragment writes no `#` |
| `LibNet.NormalizeTitle` | scripts/lib_net.py:47-48 | a falsy title gives `""`, a string title its collapsed, stripped and lower-cased form, and any other truthy value a TypeError |
| `LibNet.CollapsedSlice` | scripts/lib_net.py:48 | a slice of whitespace-collapsed text is collapsed |
| `LibNet.LowerCharSpace` | scripts/lib_net.py:48 | lower-casing maps whitespace to itself and nothing else to whitespace |
| `LibNet.CollapsedLower` | scripts/lib_net.py:48 | lower-casing keeps text collapsed |
| `LibNet.StripTrimmed` | scripts/lib_net.py:48 | `strip()` is the identity on text with no whitespace at either end |
| `LibNet.StripCollapsed` | scripts/lib_net.py:48 | stripping collapsed text leaves collapsed text with no whitespace at either end |
| `LibNet.LStripCollapsed` | scripts/lib_net.py:48 | stripping leading whitespace keeps collapsed text collapsed |
| `LibNet.LowerCollapsedTrimmed` | scripts/lib_net.py:48 | lower-casing keeps text collapsed and trimmed |
| `LibNet.LowerIdempotent` | scripts/lib_net.py:48 | lower-casing twice is lower-casing once |
| `LibNet.NormalizeTitleIdempotent` | scripts/lib_net.py:47-48 | normalising a title twice is normalising it once |
| `LibNet.Dedup` | scripts/lib_net.py:50-60 | first-occurrence deduplication returns at most as many items as it is given |
| `LibNet.DedupSubsequence` | scripts/lib_net.py:53-59 | the output of `dedup_news` is a subsequence of its input |
| `LibNet.SubsequenceSkip` | scripts/lib_net.py:58 | skipping an input item keeps the output a subsequence |
| `LibNet.DedupDistinct` | scripts/lib_net.py:57-59 | no two output items share a key, and every output item comes from the input |
| `LibNet.DedupCovers` | scripts/lib_net.py:57-59 | the key of every input item is carried by some output item |
| `LibNet.DedupKeepsFirst` | scripts/lib_net.py:58-59 | the item kept for a key is its first occurrence in the input |
| `LibNet.DedupDistinctFixed` | scripts/lib_net.py:50-60 | input whose keys are already distinct passes unchanged |
| `LibNet.DedupIdempotent` | scripts/lib_net.py:50-60 | deduplicating twice gives the same list as deduplicating once |
| `LibNet.NewsKeyOf` | scripts/lib_net.py:54-57 | the key of an item is its normalised title, its normalised url and its `timestamp_iso`; a non-dict raises AttributeError (`it.get`), a truthy title that is not a string TypeError, a url that is not a string AttributeError (`url.strip()`), a failing url normalisation its own error, and an unhashable timestamp TypeError |
| `LibNet.FirstError` | scripts/lib_net.py:53-57 | the first item whose key raises: none exactly when every key computes |
| `LibNet.DedupBy` | scripts/lib_net.py:51-60 | the loop with its `seen` set aborts with the first key error, and otherwise returns the first-occurrence deduplication |
| `LibNet.DedupNews` | scripts/lib_net.py:50-60 | `dedup_news` aborts with the error of the first item whose key raises, and otherwise keeps each item whose key no earlier item had |
| `LibNet.RequestHeaders` | scripts/lib_net.py:68-70 | `If-None-Match` is sent exactly when an etag is given, `If-Modified-Since` exactly when a last-modified value is given, each with its value, and no other header |
| `LibNet.FirstAccepted` | scripts/lib_net.py:72-84 | the first URL answered with 304 or a 2xx status: none exactly when no URL is, and every earlier one is not |
| `LibNet.LastRaised` | scripts/lib_net.py:85-86 | the exception of the last request that raised, and none exactly when no request raised |
| `LibNet.FetchFirstOk` | scripts/lib_net.py:62-90 | `fetch_first_ok` returns the first accepted response with its URL and validators, with no body on 304; when none is accepted it raises the last exception, or RuntimeError when nothing raised |
| `LibNet.FirstAvailable` | scripts/lib_net.py:96-102 | the first URL whose HEAD answers 2xx: none exactly when no URL does, and every earlier one does not |
| `LibNet.ChooseFirstAvailablePng` | scripts/lib_net.py:92-103 | `choose_first_available_png` returns the first URL whose HEAD answers 2xx, skipping exceptions, and None when there is none |
| `Postprocess.LoadJsonFile` | scripts/postprocess_report.py:44-56 | a missing file stops with MISSING, a file of only whitespace with EMPTY, text that does not parse with INVALID JSON; otherwise the parsed document is returned |
| `Postprocess.BoolToJaNei` | scripts/postprocess_report.py:69-70 | "Ja" exactly for True, "Nei" exactly for False, and `""` for every other value, including 1, 0 and None |
| `Postprocess.Tf` | scripts/postprocess_report.py:72-91 | a non-dict frame is read as `{}`; `last` and `sma36` are kept only when numeric; the distance is present exactly when both are numeric and `sma36` is truthy, and is then `(last - sma36) / sma36`; the other fields are copied |
| `Postprocess.TfNonDict` | scripts/postprocess_report.py:74-75 | a frame that is not a dict normalises to all None |
| `Postprocess.TfZeroSma` | scripts/postprocess_report.py:79 | a zero (or False) moving average never yields a distance |
| `Postprocess.LastOf` | scripts/postprocess_report.py:108-111 | the price for the flags is the numeric daily `last`, else the numeric top-level `last`, else None |
| `Postprocess.Is52wHigh` | scripts/postprocess_report.py:116-120 | the high flag is None unless both operands are numeric, and otherwise `last >= hi52 * 0.999` in IEEE order: false when either is NaN, true for a close of +inf or a high of -inf against any other number |
| `Postprocess.Is52wLow` | scripts/postprocess_report.py:117-122 | the low flag is None unless both operands are numeric, and otherwise `last <= lo52 * 1.001` in IEEE order: false when either is NaN, true for a close of -inf or a low of +inf against any other number |
| `Postprocess.HighToleranceBand` | scripts/postprocess_report.py:120 | a close within 0.1% below a positive 52-week high counts as at the high |
| `Postprocess.HighOutsideBand` | scripts/postprocess_report.py:120 | 190.2 against a high of 192.0 is not a 52-week high |
| `Postprocess.LowToleranceBand` | scripts/postprocess_report.py:122 | a close within 0.1% above a positive 52-week low counts as at the low |
| `Postprocess.AssetOf` | scripts/postprocess_report.py:101-137 | the record of a ticker holds the ticker, its four normalised frames (hourly, daily, weekly, monthly), the two flags computed from `LastOf`, and the other fields copied from the entry |
| `Postprocess.MapSortedDicts` | scripts/postprocess_report.py:99-137 | the loop over `sorted(items())` raises AttributeError exactly when some entry is not a dict, and otherwise yields one row per key in ascending key order |
| `Postprocess.TickerOf` | scripts/postprocess_report.py:125 | a record is for the ticker it was built for |
| `Postprocess.BuildAssets` | scripts/postprocess_report.py:94-139 | `build_assets` raises AttributeError exactly when the assets value is a truthy non-dict or an entry is not a dict, and otherwise yields one `AssetOf` record per ticker in ascending ticker order |
| `TableRows.RoundCell` | scripts/postprocess_report.py:66-67 | `_round` of a value that is not a number renders as `""` |
| `TableRows.PctCell` | scripts/postprocess_report.py:182-183 | a percent cell always ends in `%`; it is `%` alone for a non-number, and otherwise the rounded value times 100, with 0 for a falsy number |
| `TableRows.FlagsCell` | scripts/postprocess_report.py:180 | the 52-week cell holds `H` exactly when the high flag is truthy and `L` exactly when the low flag is, `H` first |
| `TableRows.Cells` | scripts/postprocess_report.py:178-194 | a row has fifteen cells and opens with the ticker |
| `TableRows.TdCells` | scripts/postprocess_report.py:179-193 | the cells are written as `<td>` cells, starting with the first one |
| `TableRows.Row` | scripts/postprocess_report.py:177-195 | a body row starts with `<tr>` and the ticker cell |
| `TableRows.Rows` | scripts/postprocess_report.py:172-195 | one rendered row per record |
| `TableRows.RowsFramed` | scripts/postprocess_report.py:141-204 | rows free of marker text and line breaks, with a stamp free of `!`, make a fragment with exactly one start marker right after its first line break and one end marker right before its last (both markers are HTML comments and so hold a `!`, which no other part of the fragment around the stamp holds, so a `!`-free stamp cannot form either marker) |
| `TableRows.RowsUnmarked` | scripts/postprocess_report.py:177-195 | rendered rows without `!` hold neither marker, so rows without `!` or line breaks are plain |
| `TableRows.RowsInOrder` | scripts/postprocess_report.py:172-204 | the rows between the fragment's header and footer split back into one row per record, each opening with that record's ticker, in input order |
| `TableRows.BuildTableHtml` | scripts/postprocess_report.py:141-204 | `build_table_html` returns the header, the rows joined by line breaks and the stamped footer; for rows free of marker text and line breaks and a stamp free of `!` it holds one marker pair, start first (both markers are HTML comments and so hold a `!`, which no other part of the fragment around the stamp holds, so a `!`-free stamp cannot form either marker) |
| `TableRows.RenderRows` | scripts/postprocess_report.py:172-195 | the append loop renders one row per record, in order |
| `TableText.MarkerChars` | scripts/postprocess_report.py:30-31 | the sentinel comments hold no line break, both hold `!` and `_`, and `D` and `S` tell them apart |
| `TableText.ColumnTitles` | scripts/postprocess_report.py:160-167 | the table has fifteen column titles, none holding `!` |
| `TableText.ThLines` | scripts/postprocess_report.py:160-167 | the title lines hold no `!`, so no marker text |
| `TableText.Css` | scripts/postprocess_report.py:142-151 | the stylesheet holds no `!`, so no marker text |
| `TableText.HeaderBody` | scripts/postprocess_report.py:152-171 | the header between the start marker and the rows holds no `!` |
| `TableText.FooterHead` | scripts/postprocess_report.py:197-203 | the footer before the end marker starts with a line break and holds no `!` when the stamp holds none |
| `ReportTable.NoMarkers` | scripts/postprocess_report.py:30-31 | text without `!` or without `_` holds neither sentinel |
| `ReportTable.FramedBody` | scripts/postprocess_report.py:204 | rows without line breaks, joined by line breaks, split back into the same rows |
| `ReportTable.StartLine` | scripts/postprocess_report.py:153 | the start marker line holds the start marker once and the end marker never |
| `ReportTable.EndLine` | scripts/postprocess_report.py:202 | the end marker line holds the end marker once and the start marker never |
| `ReportTable.TableMarkerPair` | scripts/postprocess_report.py:30-31 | neither sentinel occurs inside the other's line |
| `ReportTable.TableMarkerShape` | scripts/postprocess_report.py:30-31 | the sentinels are non-empty one-line patterns that both hold `!` |
| `ReportTable.StartEndPair` | scripts/postprocess_report.py:152-204 | the start marker on the first line, then text with the end marker once, gives one pair with the start first |
| `ReportTable.PairAfterLine` | scripts/postprocess_report.py:152-204 | a line with the start pattern once, then text with the end pattern once and no start pattern, gives one pair |
| `ReportTable.PrefixKeepsOnce` | scripts/postprocess_report.py:204 | prefixing text without the end pattern at a line break keeps its single end pattern and shifts it |
| `ReportTable.FramedBy` | scripts/postprocess_report.py:152-204 | header, rows and footer free of both patterns frame the text with one start pattern after its first line break and one end pattern before its last |
| `ReportTable.FramedMarkers` | scripts/postprocess_report.py:152-204 | the same for the table's own sentinels |
| `ReportTable.TableMarkers` | scripts/postprocess_report.py:141-204 | the fragment of `build_table_html` is well framed when no row holds marker text and the stamp holds no `!` |
| `Inject.FirstRegion` | scripts/postprocess_report.py:273-278 | the first match of `START.*?END` starts before it ends and lies inside the page |
| `Inject.ReplaceRegionsNone` | scripts/postprocess_report.py:273-278 | `re.sub` leaves a page without the start marker unchanged |
| `Inject.ReplaceAt` | scripts/postprocess_report.py:273-278 | for a literal replacement text, which `Inject.SubLiteral` shows a template without group references to be, and one marker pair, start first, the region from the start marker to the end marker is replaced and the text on either side is kept |
| `Inject.ReplaceKeepsPair` | scripts/postprocess_report.py:272-278 | replacing the single pair's region by a well framed literal text leaves exactly one pair |
| `Inject.ReplaceRegionsStep` | scripts/postprocess_report.py:273-278 | `re.sub` of the non-greedy marker region with a literal replacement text replaces the first region by it and continues the scan after it |
| `Inject.SubLiteral` | scripts/postprocess_report.py:273-278 | a template without group references replaces every marked region by the same text: `re.sub` acts as the literal replacement by the template's expansion |
| `Inject.WholeKept` | scripts/postprocess_report.py:273-278 | a template that is only the whole match `\g<0>` puts every region back, so the text is unchanged |
| `Inject.BlockStep` | scripts/postprocess_report.py:281-286 | removing old sections cuts the first heading-to-`</table>` region with what follows it and continues the scan after it |
| `Inject.StampSkipped` | scripts/postprocess_report.py:283 | a complete `genstamp` div after a section is skipped along with it |
| `Inject.SectionRemoved` | scripts/postprocess_report.py:281-286 | a single old section between two texts is removed together with its trailing whitespace and stamp, leaving the texts joined |
| `Inject.RemoveBlocks` | scripts/postprocess_report.py:281-286 | removing the old sections never makes the page longer |
| `Inject.RemoveBlocksNone` | scripts/postprocess_report.py:281-286 | a page without `<h2>Daglig tabell` is left as it is |
| `Inject.RemoveBlocksMissing` | scripts/postprocess_report.py:281-286 | removing sections only drops characters: a character missing from the page stays missing |
| `Inject.RemoveNoEnd` | scripts/postprocess_report.py:281-286 | with no `</table>` after the first heading, nothing is removed |
| `Inject.BlockRemoved` | scripts/postprocess_report.py:281-286 | one old section, the whitespace after it and its stamp are removed, and the text on either side is kept |
| `Inject.BareBlockRemoved` | scripts/postprocess_report.py:281-286 | without a stamp after it, the section and its whitespace are removed |
| `Inject.ReplaceAllNone` | scripts/postprocess_report.py:289 | `replace` leaves text without the pattern unchanged |
| `Inject.ReplaceAllOnce` | scripts/postprocess_report.py:289 | where `</body>` occurs once, `replace` puts the new text in its place and changes nothing else |
| `Inject.RemoveLegacy` | scripts/postprocess_report.py:281-286 | the page with its old sections removed is never longer |
| `Inject.InjectTable` | scripts/postprocess_report.py:272-291 | the page update fails exactly when the page holds both markers and the fragment is not a valid replacement template, and then with the template's error |
| `Inject.InjectLiteral` | scripts/postprocess_report.py:272-278 | on a page with both markers, a fragment whose template expands to `y` replaces each marked region by `y` |
| `Inject.LiteralFramed` | scripts/postprocess_report.py:273-278 | a well framed fragment without a backslash is a valid template that puts itself in unchanged |
| `Inject.InjectWholeMatch` | scripts/postprocess_report.py:272-278 | on a marked page, the fragment `\g<0>` leaves the page as it was |
| `Inject.PageHead` | scripts/postprocess_report.py:296-299 | the minimal page's text before the fragment holds no `_` |
| `Inject.PageTail` | scripts/postprocess_report.py:301-302 | the minimal page's text after the fragment holds no `_` |
| `Inject.InjectMarked` | scripts/postprocess_report.py:272-278 | a page with one marker pair and a fragment whose template expansion `y` is well framed has the region between the markers replaced by `y`, the rest kept, and still holds one pair |
| `Inject.InjectAgain` | scripts/postprocess_report.py:267-293 | rerunning on a page that holds the fragment's expansion keeps one marker pair, but the page grows by two line breaks per run |
| `Inject.PlainAround` | scripts/postprocess_report.py:288-291 | a framed fragment between texts without `_` leaves one marker pair |
| `Inject.CleanedUnmarked` | scripts/postprocess_report.py:279-286 | a page without `_` holds no marker, before or after its old sections are removed |
| `Inject.InjectAppended` | scripts/postprocess_report.py:290-291 | a marker-free page without `</body>` gets the fragment appended as it is after a line break, once |
| `Inject.BodyInsert` | scripts/postprocess_report.py:288-289 | with one `</body>`, the fragment and a line break go right before it and the rest is kept |
| `Inject.InjectBeforeBody` | scripts/postprocess_report.py:279-289 | a marker-free page with one `</body>` gets the fragment, as it is, right before it and then holds one marker pair |
| `Inject.LegacyRemoved` | scripts/postprocess_report.py:281-286 | an old section with its whitespace and stamp is cut out of a page, the text around it kept |
| `Inject.MinimalPageMarked` | scripts/postprocess_report.py:294-303 | the minimal page holds the fragment once, with one marker pair |
| `PostprocessMain.DocsSeparate` | scripts/postprocess_report.py:25-28 | the four outputs under `docs` are different files, none the `.tmp` sibling of another |
| `PostprocessMain.IndexDoc` | scripts/postprocess_report.py:209-210 | a loading error stops the run; a document that is not a dict fails at `idx.get` with AttributeError |
| `PostprocessMain.Generated` | scripts/postprocess_report.py:210 | the stamp is the truthy `generated_local`, else the clock |
| `PostprocessMain.GenText` | scripts/postprocess_report.py:200 | the stamp is written as it is when it is a string, and through `str()` otherwise |
| `PostprocessMain.NewsOf` | scripts/postprocess_report.py:216-226 | the news is the loaded document, or `{}` when the file is missing, empty or does not parse |
| `PostprocessMain.Put` | scripts/postprocess_report.py:34-37 | after an atomic write the path holds the text, its `.tmp` sibling is gone, and every other path is unchanged |
| `PostprocessMain.FileAt` | scripts/postprocess_report.py:268-269 | the page is read exactly when it exists |
| `PostprocessMain.PageText` | scripts/postprocess_report.py:267-303 | the new page is the minimal page when there is none, and is an error exactly when an existing page holds both markers and the fragment is not a valid template |
| `PostprocessMain.WriteOutputs` | scripts/postprocess_report.py:235-303 | the JSON report, the Markdown report and the fragment are written in turn; then the page made from the fragment and the page as it stood is written, or, when making it fails, the page is left as it was and the error is returned |
| `PostprocessMain.ReadInputs` | scripts/postprocess_report.py:209-226 | the reading half fails with the index's loading error or AttributeError, and otherwise yields the stamp, the records and the news |
| `PostprocessMain.RunPostprocess` | scripts/postprocess_report.py:207-305 | a failure while reading leaves every file as it was; otherwise the two reports and the fragment are written, and the updated page too unless making it fails, in which case that error is returned |
| `PostprocessMain.WritesHold` | scripts/postprocess_report.py:235-303 | after a run each output holds its text, no `.tmp` sibling is left, and every other path is as it was |
| `PostprocessMain.PageMarked` | scripts/postprocess_report.py:267-303 | the page is made and ends with exactly one marker pair when there was no page, or the page had one pair and the fragment expands to a well framed text, or it held no `_` and at most one `</body>` |
| `PostprocessMain.FragmentFramed` | scripts/postprocess_report.py:264 | the fragment of rows free of marker text and line breaks and a stamp free of `!` is well framed |
| `Northstar.CleanFilename` | scripts/fetch_nftrh_northstar.py:22-24 | the name is never empty and uses only `[A-Za-z0-9_.-]`; for text that is not blank it is the stripped text with each other run made one `_`, cut to 80; otherwise `img_<time>` |
| `Northstar.StripNoSpace` | scripts/fetch_nftrh_northstar.py:23 | a name made of allowed characters is its own stripped form |
| `Northstar.CleanNameFixed` | scripts/fetch_nftrh_northstar.py:22-24 | a clean name of at most 80 characters is left as it is |
| `Northstar.CleanFilenameIdempotent` | scripts/fetch_nftrh_northstar.py:22-24 | cleaning a cleaned name changes nothing |
| `Northstar.CleanFilenameFirst` | scripts/fetch_nftrh_northstar.py:22-24 | a name starting with an allowed non-space character keeps that character first |
| `Northstar.BeforeFirst` | scripts/fetch_nftrh_northstar.py:80 | `split("?")[0]` is the prefix before the first `?`, free of `?` |
| `Northstar.ImageExt` | scripts/fetch_nftrh_northstar.py:80-81 | the extension has one to five characters and no `.` or `?`; unless it is the `jpg` fallback, the URL without its query ends with it |
| `Northstar.BeforeFirstAt` | scripts/fetch_nftrh_northstar.py:80 | the text before a first `?` is what precedes it |
| `Northstar.ImageExtOf` | scripts/fetch_nftrh_northstar.py:80-81 | an image URL `stem.ext?query` with a short extension yields that extension |
| `Northstar.UndatedIsRecent` | scripts/fetch_nftrh_northstar.py:69-74 | an entry without a publish time is stamped now and therefore kept |
| `Northstar.ImageOf` | scripts/fetch_nftrh_northstar.py:77-85 | an image is recorded exactly when the page has a non-empty image URL and its download succeeded, as `news/<name>` |
| `Northstar.Download` | scripts/fetch_nftrh_northstar.py:36-43 | `download` succeeds exactly when the request and the write do; then `dest` holds the bytes, and otherwise nothing is written |
| `Northstar.EntryPost` | scripts/fetch_nftrh_northstar.py:69-92 | an entry gives a post exactly when it is not older than the cutoff; the post holds source, title, link, publish time and image |
| `Northstar.PostFor` | scripts/fetch_nftrh_northstar.py:69-92 | the body of the entry loop builds the reference post of the entry, and the disk gains exactly that entry's downloaded image |
| `Northstar.CollectFeed` | scripts/fetch_nftrh_northstar.py:67-92 | the entry loop of one feed collects the posts of its recent entries in order and writes their downloaded images in that order |
| `Northstar.CollectPosts` | scripts/fetch_nftrh_northstar.py:64-92 | the nested feed and entry loops collect the posts of the recent entries, in feed and entry order, and write the downloaded images in that order |
| `Northstar.ImageNamePath` | scripts/fetch_nftrh_northstar.py:82-83 | an image of a source whose name starts with `N` is written under `docs/news/N…` |
| `Northstar.FreshFilesWrites` | scripts/fetch_nftrh_northstar.py:64-94 | the downloads only add or overwrite image paths, and `news.json` is not one of them, so `load_existing` still reads the saved file |
| `Northstar.FeedPostsFacts` | scripts/fetch_nftrh_northstar.py:68-92 | a feed yields at most one post per entry, one for each when all are recent, and each post carries a `published` string |
| `Northstar.FreshPostsFacts` | scripts/fetch_nftrh_northstar.py:66-92 | all feeds together yield at most one post per entry, one for each when all are recent, each with a `published` string |
| `Northstar.Existing` | scripts/fetch_nftrh_northstar.py:51-59 | a saved list is returned as it is, a dict with a list under `posts` gives that list, any other dict gives `[dict]`, and any other value `[]` |
| `Northstar.LoadExisting` | scripts/fetch_nftrh_northstar.py:46-61 | a missing or unparseable file gives `[]`; otherwise the shape rules of `Existing` apply |
| `Northstar.SavedIsLoaded` | scripts/fetch_nftrh_northstar.py:46-61 | round trip: the posts written to `news.json` are loaded back as they were |
| `Northstar.Merge` | scripts/fetch_nftrh_northstar.py:94-97 | the merge fails exactly when some post is not a dict, or when two or more posts are sorted and one has a `published` that is not a string |
| `Northstar.MergePrefix` | scripts/fetch_nftrh_northstar.py:95-97 | the merged list is a prefix of the stable descending sort of fresh posts followed by existing ones |
| `Northstar.MergeFacts` | scripts/fetch_nftrh_northstar.py:94-97 | the merged list has `min(20, fresh + existing)` posts, is descending by `published`, takes only posts it was given, and keeps all of them (duplicates included) when there are at most 20 |
| `Northstar.MergeCut` | scripts/fetch_nftrh_northstar.py:96-97 | the merged list is the first `min(20, n)` posts of the sorted list |
| `Northstar.CutBelow` | scripts/fetch_nftrh_northstar.py:97 | in a descending list, every kept element's key is at least that of every element cut off |
| `Northstar.MergeKeepsNewest` | scripts/fetch_nftrh_northstar.py:96-97 | every dropped post is no newer than any kept post |
| `Northstar.WithKeyPrefix` | scripts/fetch_nftrh_northstar.py:97 | cutting a list keeps the order of the elements with a given key |
| `Northstar.MergeTiesFreshFirst` | scripts/fetch_nftrh_northstar.py:95-96 | among posts with equal `published`, the fresh ones come before the existing ones, each in their own order |
| `Northstar.MergeFreshOk` | scripts/fetch_nftrh_northstar.py:86-96 | fresh posts merged with existing dicts whose `published` is a string never fail |
| `Northstar.RunNorthstar` | scripts/fetch_nftrh_northstar.py:63-98 | `main` computes the merge of the fresh posts and the loaded file. The disk then holds every image downloaded while collecting, in entry order, and on success `news.json` is rewritten with the merged list. A failure while sorting leaves the images and does not write `news.json`, and nothing else changes |
| `CryptoCompacts.AboveFlags` | scripts/crypto_and_compacts.py:59 | one flag per week, true exactly when the close is above the 36-week average, so NaN gives false |
| `CryptoCompacts.TrailingRun` | scripts/crypto_and_compacts.py:57-64 | the count is at most the length, every counted flag at the end is true, and the flag before them is false |
| `CryptoCompacts.TrailingRunUnique` | scripts/crypto_and_compacts.py:57-64 | any count with those three facts equals the trailing run |
| `CryptoCompacts.TrailingRunEnds` | scripts/scripts/augment_crypto_and_compacts.py:57-64 | the count is 0 exactly for an empty list or a false last flag, and equals the length exactly when every flag is true |
| `CryptoCompacts.WeeklyCloseCountAbove` | scripts/crypto_and_compacts.py:57-64 | the backward loop with its `break` returns the length of the trailing run of weeks closing above the 36-week average |
| `CryptoCompacts.Dist` | scripts/crypto_and_compacts.py:104-109 | the distance is None exactly when the average is NaN or 0; otherwise it is a number, finite exactly when both operands are and then solving `d * sma == close - sma`, and NaN exactly when the close is NaN or the average infinite |
| `CryptoCompacts.DistPositiveAbove` | scripts/scripts/augment_crypto_and_compacts.py:104-109 | a close above a positive finite average gives a positive distance: finite for a finite close, +inf for a close of +inf |
| `CryptoCompacts.MacdCross` | scripts/crypto_and_compacts.py:124 | the cross is None exactly for at most two rows, and otherwise true exactly when MACD was below its signal on the row before and is above it on the last |
| `CryptoCompacts.NoCrossTwiceInARow` | scripts/scripts/augment_crypto_and_compacts.py:124 | a cross on the last row means there was none on the row before |
| `CryptoCompacts.FrameShape` | scripts/crypto_and_compacts.py:116-145 | each timeframe's record holds exactly the eight indicator keys; `close_above_sma36` is the strict comparison of the last row and `macd_cross` the cross rule |
| `CryptoCompacts.EntryFor` | scripts/crypto_and_compacts.py:99-148 | building an entry fails (IndexError) exactly when one of the daily, weekly or monthly series is empty |
| `CryptoCompacts.EntryShape` | scripts/crypto_and_compacts.py:111-147 | the entry holds exactly the six keys: the two distances, the trailing-run count, and the three frames built from the last rows |
| `CryptoCompacts.SlashesReplaced` | scripts/crypto_and_compacts.py:94 | `replace('/', '-')` keeps the length and turns exactly the slashes into dashes |
| `CryptoCompacts.CompactNameShape` | scripts/crypto_and_compacts.py:94 | the compact image name has no slash and ends in `_daily_compact.png` |
| `CryptoCompacts.CompactNameBucket` | scripts/crypto_and_compacts.py:94 | the exporter buckets a crypto chart under `<ticker with dashes>_daily` |
| `CryptoCompacts.DailyBucket` | scripts/crypto_and_compacts.py:94 | a `<stem>_daily_compact.png` name is keyed by `<stem>_daily` |
| `CryptoCompacts.StemChars` | scripts/crypto_and_compacts.py:94 | a ticker of class characters and slashes becomes a stem of class characters |
| `CryptoCompacts.CompactSplit` | scripts/crypto_and_compacts.py:94 | the compact name is the dashed ticker, `_daily` and `_compact.png` |
| `CryptoCompacts.MergeRecord` | scripts/crypto_and_compacts.py:166 | the merged record has the keys of both; each key of the fresh entry takes the new value (so `frames` is replaced whole), and keys only in the old record are kept |
| `CryptoCompacts.Upsert` | scripts/scripts/augment_crypto_and_compacts.py:166 | updating the assets fails exactly when they are not a dict or the old record is not one; otherwise only the ticker's record changes, to the merged record |
| `CryptoCompacts.ApplyFiles` | scripts/crypto_and_compacts.py:157-167 | one ticker's step changes no file but its chart |
| `CryptoCompacts.ApplyAssets` | scripts/crypto_and_compacts.py:157-167 | one ticker's step changes no asset record but that ticker's |
| `CryptoCompacts.ApplyIdle` | scripts/crypto_and_compacts.py:158-161 | a ticker without data, or a run that already failed, changes nothing |
| `CryptoCompacts.ApplyChanged` | scripts/crypto_and_compacts.py:157-167 | after a successful step the changed flag is set exactly when it was set before or the ticker had data |
| `CryptoCompacts.CrashedStays` | scripts/crypto_and_compacts.py:157-167 | once a step has failed, the later tickers change nothing |
| `CryptoCompacts.UpdateAssets` | scripts/crypto_and_compacts.py:155-167 | the loop over the tickers leaves the files, the assets, the changed flag and any error as the step-by-step reference gives them |
| `CryptoCompacts.NoDataUntouched` | scripts/crypto_and_compacts.py:158-161 | a ticker without data keeps its existing record, or stays absent |
| `CryptoCompacts.ChangedIffData` | scripts/crypto_and_compacts.py:157-167 | the changed flag ends set exactly when some ticker got data |
| `CryptoCompacts.OnlyChartsWritten` | scripts/crypto_and_compacts.py:94-95 | the loop writes no file but the tickers' charts |
| `CryptoCompacts.IndexIsNoChart` | scripts/crypto_and_compacts.py:11-12 | the index is not a chart file |
| `CryptoCompacts.ReadIndex` | scripts/crypto_and_compacts.py:151-154 | a missing index stops the run; otherwise the assets are `summary.assets`, or `{}` when absent |
| `CryptoCompacts.NewIndex` | scripts/crypto_and_compacts.py:171-173 | the new index keeps every other key, sets `summary.assets` to the updated assets and `generated_local` to the clock |
| `CryptoCompacts.RunCrypto` | scripts/crypto_and_compacts.py:150-174 | a run that cannot read the index changes nothing; a failing step stops with the files as they stood; the index is rewritten exactly when no step failed and some ticker got data |
| `CryptoCompacts.IndexWrittenOnlyIfChanged` | scripts/scripts/augment_crypto_and_compacts.py:169-174 | the ticker loop leaves the index file as it was, and the run changes exactly when some crypto ticker got data |
| `GenerateReport.WindowMinutes` | scripts/generate_report.py:39-42 | the scheduled window is the minutes from 19:45 to 20:10 inclusive |
| `GenerateReport.Gate` | scripts/generate_report.py:32-53 | a full run happens exactly when forced or inside the window; the run mode is always written, and outside the window the heartbeat and the waiting page too |
| `GenerateReport.Tokens` | scripts/generate_report.py:87 | the kept tokens are exactly the stripped, non-empty comma pieces: each such piece is kept, each kept token is one, and none has whitespace at either end |
| `GenerateReport.StripShape` | scripts/generate_report.py:87 | a non-empty stripped token has no whitespace at either end |
| `GenerateReport.KeepAllowed` | scripts/generate_report.py:88 | the filter keeps at most the tickers it is given |
| `GenerateReport.KeepAllowedMembers` | scripts/generate_report.py:88 | a ticker survives exactly when its upper-case form is among the tokens |
| `GenerateReport.KeepAllowedAll` | scripts/generate_report.py:88 | when every ticker is allowed the list is unchanged |
| `GenerateReport.KeepAllowedAt` | scripts/generate_report.py:88 | every allowed ticker survives, at a position no later than its own |
| `GenerateReport.KeepAllowedOrder` | scripts/generate_report.py:88 | surviving tickers keep their relative order |
| `GenerateReport.AllowedFilter` | scripts/generate_report.py:85-89 | with an empty or unset variable the list is unchanged; otherwise a ticker survives exactly when its upper-case form is among the tokens |
| `GenerateReport.SafeSlug` | scripts/generate_report.py:228-229 | the slug has at most 80 characters, all in `[A-Za-z0-9_-]`, and is empty exactly when its input is |
| `GenerateReport.SafeSlugIdempotent` | scripts/generate_report.py:228-229 | slugging a slug changes nothing |
| `GenerateReport.SplitExt` | scripts/generate_report.py:271 | `os.path.splitext(path)[1]` is empty or a dot followed by text with no dot and no slash that ends the path |
| `GenerateReport.ExtOfPath` | scripts/generate_report.py:271 | the text after the last dot of the last path segment, with its dot, ends the path |
| `GenerateReport.ExtShape` | scripts/generate_report.py:271 | a dot and a dot-free tail of the basename form an extension that ends the path |
| `GenerateReport.ImageExt` | scripts/generate_report.py:271-272 | the chosen extension is always `.jpg`, `.jpeg` or `.png` |
| `GenerateReport.ImageExtChoice` | scripts/generate_report.py:271-272 | the lower-cased extension is kept when it is a known one, and `.jpg` is used otherwise |
| `GenerateReport.ImageExtMissing` | scripts/generate_report.py:271 | a missing extension becomes `.jpg` |
| `GenerateReport.NewsImageName` | scripts/generate_report.py:272 | the news image name starts with `news_` and holds no slash |
| `GenerateReport.NoSlash` | scripts/generate_report.py:272 | a slug and a known extension make a name without a slash |
| `GenerateReport.SplitExtOf` | scripts/generate_report.py:271 | `dir/stem.e` has the extension `.e` |
| `GenerateReport.SplitExtAt` | scripts/generate_report.py:271 | a basename `stem.e` with a stem not starting with a dot has the extension `.e` |
| `GenerateReport.ImageExtOf` | scripts/generate_report.py:271-272 | a `.jpg`, `.jpeg` or `.png` image URL path keeps its extension |
| `GenerateReport.ImageExtKnown` | scripts/generate_report.py:272 | a known lower-case extension is kept |
| `GenerateReport.KnownLower` | scripts/generate_report.py:271 | the known extensions are already lower case |
| `GenerateReport.KnownDot` | scripts/generate_report.py:272 | a dot and `jpg`, `jpeg` or `png` form a known extension |
| `GenerateReport.Pct` | scripts/generate_report.py:104 | `pct(a, b)` is NaN when `b` is None or 0, finite exactly when `a` and `b` are finite and `b` is non-zero, and then solves `r * b == a - b` |
| `GenerateReport.DistTo` | scripts/generate_report.py:353-364 | a stored distance is never NaN: it is a number exactly when the frame has a last row whose close is not NaN and whose average is finite and non-zero, and then it is `RelDist(close, sma36)`; None otherwise |
| `GenerateReport.NoneIfNaN` | scripts/generate_report.py:363-364 | NaN is stored as None and every other value, the infinities included, as itself |
| `GenerateReport.DailyCross` | scripts/generate_report.py:337-340 | the daily cross is None for fewer than two rows, and otherwise true exactly when `macd - signal` is positive on the last row and not positive on the row before |
| `GenerateReport.CrossesAgree` | scripts/generate_report.py:337-340 | every strict cross of the crypto script is also a cross of the report generator |
| `GenerateReport.CrossesDiffer` | scripts/generate_report.py:337-340 | the converse fails: a MACD level with its signal followed by a rise counts here and not in the crypto script |
| `GenerateReport.AssetEntry` | scripts/generate_report.py:360-367 | an asset summary holds exactly `last`, the 52-week range, the two distances, `rsi14_last` and `macd_cross`: the last daily close, the given high and low, `DistTo` of the weekly and of the monthly frame, the last daily RSI with NaN as None, and `DailyCross` of the daily rows |
| `GenerateReport.BuildAssets` | scripts/generate_report.py:312-367 | the main loop yields the reference summaries of its tickers |
| `GenerateReport.AssetsKeys` | scripts/generate_report.py:350-367 | a ticker gets a summary exactly when it is listed and has daily data, and the summary is that of its data |
| `GenerateReport.ChartList` | scripts/generate_report.py:491 | the file list is strictly ascending and holds `charts/<name>` exactly for the names ending in `.png`, one entry per name |
| `GenerateReport.PrefixedCount` | scripts/generate_report.py:491 | prefixing names with `charts/` keeps them distinct |
| `GenerateReport.InjectiveCount` | scripts/generate_report.py:491 | an injective map keeps the number of names |

## Left out

- Indicator numerics: moving averages, RSI, MACD, resampling and rolling
  maxima and minima are pandas floating point. Their last values are inputs to
  the model (`Bar`, `TfData`, `Frames`), and real arithmetic is exact, without
  rounding.
- Plotting: every matplotlib call is left out. The crypto step records only the
  chart file it writes; its bytes are a parameter.
- Network and scraping: yfinance, the RSS and HTML fetches, BeautifulSoup and
  feedparser are oracles passed in as functions (`Env`, `CryptoEnv`, the
  `get`/`head` outcome functions of `LibNet`). The image download is an
  oracle giving the bytes it writes to its destination, or None when the
  request or the write raises. A write that raises part-way is treated as
  writing nothing.
- `build_session`: urllib3's retry and back-off configuration is library
  configuration, and its retries happen in code outside these scripts.
  `time.sleep(0.2)` between attempts is left out.
- Clocks: `datetime.now`, `time.time` and the ISO timestamps are parameters.
- JSON serialisation and parsing (`json.dumps`, `json.loads`), `_round`, `str()`
  of a non-string stamp and the whole Markdown report are parameters (`dumps`,
  `parse`, `Format`, `Render.markdown`). Key order in a JSON object is not
  modelled.
- URLs: `urlsplit` is modelled on characters (scheme, netloc, path, query,
  fragment), but `parse_qsl`'s percent-decoding and `urlencode`'s
  `quote_plus` are parameters.
- `LibNet.UrlSplit`: `_checknetloc`'s `unicodedata.normalize("NFKC", ...)` is
  modelled only for the characters whose compatibility form holds one of
  `/?#@:` (fullwidth, small and vertical forms, `⁇ ⁈ ⁉`, `⩴` and `℀ ℁ ℅ ℆`). Every
  other character is its own form here. Canonical composition cannot yield
  those delimiters, so the refusal is as in Python as long as the table
  lists every such character. The validation of a bracketed IPv6 or IPvFuture
  netloc (`_check_bracketed_netloc`) is not modelled, so such a netloc is
  accepted.
- Character classes: `\s` is `str.isspace` over the characters Python
  counts as whitespace, and `lower()`/`upper()` and `re.IGNORECASE` map ASCII
  letters only. In a replacement template, a group name counts as an
  identifier only when it is ASCII.
- Floating point: numbers are exact reals with NaN and the two infinities.
  Rounding and the sign of zero are not modelled. JSON integers and floats
  are one number kind, so the difference between how `_round` and `str()`
  print an int and a float is not modelled. For example, a falsy percentage
  gives the int `0` and Python prints `0%`, while `1.0` prints as `100.0%`
  where `True` prints as `100%`.
- Regexes are hand-written scanners over literal patterns.
  `$` in `_choose_best_compact`'s pattern also accepts a final newline, and the
  model does too.
- `dedup_news` is modelled although no script calls it.
- `Northstar.Merge`: two or more posts where some `published` is not a
  string are treated as a TypeError. Python raises there too when the keys
  mix strings with other values, or hold a dict or None. It sorts without
  error in two cases the model still rejects: every key is a number or a
  boolean, in any mix; or every key is a list whose compared elements are
  comparable. A `news.json` written by this script never has such keys:
  every post it writes has a string `published`.
- `Northstar.ImageExt`: the extension is the text after the last `.` of the
  whole URL before `?`. When the URL's last path segment has no dot, that text
  can contain `/`; the model keeps this, like the code.
- `generate_report.py` beyond its helpers is left out: the HTML page and its
  links, the run log, FRED, the ratio series, volume filters and market
  temperature. Its hourly series and charts are also left out, as is the
  SPY 200-day figure.
- `GenerateReport.AssetEntry`: the 52-week high and low are taken as given
  inputs instead of as the maximum and minimum of the last 252 closes.
- `_safe_read_json` and the read of the files: the exporter takes the parsed
  documents, with `JNull` standing for a missing or unparseable file.
- Directory creation (`mkdir`, `os.makedirs`) and the atomicity of `os.replace`
  beyond its effect on the map from path to contents are not modelled; nothing
  here runs concurrently.
