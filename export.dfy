/**
 * The feed exporter: reads the report index, the chart file list and the
 * news file (each already parsed, or None when missing or unreadable) and
 * assembles the `chatgpt-feed-v1` document with per-ticker metrics, chart
 * mirror URLs and normalised news entries.
 */
module Export {
  import opened Wrappers
  import opened JsonValues
  import opened Text
  import opened StrOrder

  // ---------------------------------------------------------------------------
  // Mirrors.
  // ---------------------------------------------------------------------------

  const Owner: string := "regg92s-hub"
  const RepoName: string := "market-daily-report"
  const Repo: string := Owner + "/" + RepoName
  const Branch: string := "gh-pages"

  const PagesBase: string := "https://" + Owner + ".github.io/" + RepoName
  const RawBase: string := "https://raw.githubusercontent.com/" + Repo + "/" + Branch
  const JsBase: string := "https://cdn.jsdelivr.net/gh/" + Repo + "@" + Branch

  /** `MIRRORS`: the base URL of each mirror. */
  const Mirrors: MirrorUrls := MirrorUrls(RawBase, JsBase, PagesBase)

  /** One file on the three mirrors (the dict with keys "raw", "jsdelivr" and "pages"). */
  datatype MirrorUrls = MirrorUrls(raw: string, jsdelivr: string, pages: string)

  /**
   * `_abspath_for`: the file's URL on every mirror, with all leading slashes
   * of the relative path removed.
   */
  function AbspathFor(rel: string): (r: MirrorUrls)
    ensures r.raw == RawBase + "/" + TrimLeft(rel, '/')
    ensures r.jsdelivr == JsBase + "/" + TrimLeft(rel, '/')
    ensures r.pages == PagesBase + "/" + TrimLeft(rel, '/')
  {
    var tail := TrimLeft(rel, '/');
    MirrorUrls(RawBase + "/" + tail, JsBase + "/" + tail, PagesBase + "/" + tail)
  }

  // ---------------------------------------------------------------------------
  // Numbers and the news container.
  // ---------------------------------------------------------------------------

  /** `_num`: numbers (booleans included) pass through, everything else becomes None. */
  function Num(x: Json): (r: Json)
    ensures r == JNull || (IsNumber(r) && r == x)
    ensures IsNumber(x) ==> r == x
  {
    if IsNumber(x) then x else JNull
  }

  const NewsKeys: seq<string> := ["items", "news", "data"]

  /** `_normalize_news_container`. */
  function NormalizeNewsContainer(nw: Json): (r: seq<Json>)
    ensures nw.JNull? ==> r == []
    ensures nw.JArr? ==> r == nw.items
    ensures nw.JObj? && ListAt(nw.fields, "items") ==> r == nw.fields["items"].items
    ensures nw.JObj? && !ListAt(nw.fields, "items") && ListAt(nw.fields, "news") ==> r == nw.fields["news"].items
    ensures nw.JObj? && !ListAt(nw.fields, "items") && !ListAt(nw.fields, "news") && ListAt(nw.fields, "data") ==>
      r == nw.fields["data"].items
    ensures nw.JObj? && !ListAt(nw.fields, "items") && !ListAt(nw.fields, "news") && !ListAt(nw.fields, "data") ==>
      r == []
    ensures !(nw.JNull? || nw.JArr? || nw.JObj?) ==> r == []
  {
    match nw
    case JObj(m) =>
      assert NewsKeys[0] == "items" && NewsKeys[1] == "news" && NewsKeys[2] == "data";
      FirstListUnder(m, NewsKeys).GetOr([])
    case JArr(items) => items
    case _ => []
  }

  // ---------------------------------------------------------------------------
  // Choosing the compact chart per timeframe.
  // ---------------------------------------------------------------------------

  /** The timeframes of the compact charts. */
  datatype Frame = Daily | Weekly | Monthly | Hourly

  function FrameName(fr: Frame): string {
    match fr
    case Daily => "daily"
    case Weekly => "weekly"
    case Monthly => "monthly"
    case Hourly => "hourly"
  }

  /** The timeframes in the priority order of the "best" chart. */
  const Frames: seq<Frame> := [Daily, Weekly, Monthly, Hourly]

  /** The position of a timeframe in `Frames`. */
  function Priority(fr: Frame): (i: nat)
    ensures i < |Frames| && Frames[i] == fr
  {
    match fr
    case Daily => 0
    case Weekly => 1
    case Monthly => 2
    case Hourly => 3
  }

  /** `Frames` lists every timeframe once. */
  lemma PriorityOfFrames()
    ensures forall i :: 0 <= i < |Frames| ==> Priority(Frames[i]) == i
  {
  }

  /**
   * `re.search(rf"_{frame}_compact\.png$", f, re.IGNORECASE)`: `$` also
   * matches just before a final newline.
   */
  predicate MatchesFrame(f: string, fr: Frame) {
    var suffix := "_" + FrameName(fr) + "_compact.png";
    EndsWith(Lower(f), suffix)
    || (f != [] && f[|f| - 1] == '\n' && EndsWith(Lower(f[..|f| - 1]), suffix))
  }

  /** The position of the first element of `xs` that `p` accepts. */
  function FirstIndex<T>(xs: seq<T>, p: T -> bool): (r: Option<nat>)
    ensures r.None? <==> forall i :: 0 <= i < |xs| ==> !p(xs[i])
    ensures r.Some? ==> r.value < |xs| && p(xs[r.value])
    ensures r.Some? ==> forall j :: 0 <= j < r.value ==> !p(xs[j])
    decreases |xs|
  {
    if xs == [] then None
    else if p(xs[0]) then Some(0)
    else
      var rest := FirstIndex(xs[1..], p);
      assert forall j :: 1 <= j < |xs| ==> xs[1..][j - 1] == xs[j];
      if rest.None? then None else Some(rest.value + 1)
  }

  /** A scan that stops at the first element `p` accepts. */
  method FindFirst<T>(xs: seq<T>, p: T -> bool) returns (r: Option<nat>)
    ensures r == FirstIndex(xs, p)
  {
    var i := 0;
    while i < |xs|
      invariant 0 <= i <= |xs|
      invariant forall j :: 0 <= j < i ==> !p(xs[j])
    {
      if p(xs[i]) {
        return Some(i);
      }
      i := i + 1;
    }
    return None;
  }

  /** The position of the first file that matches `fr`. */
  function FirstMatch(files: seq<string>, fr: Frame): Option<nat> {
    FirstIndex(files, f => MatchesFrame(f, fr))
  }

  /** The first file of the list that matches `fr`, if any. */
  function Hit(files: seq<string>, fr: Frame): Option<string>
    decreases |files|
  {
    if files == [] then None
    else if MatchesFrame(files[0], fr) then Some(files[0])
    else Hit(files[1..], fr)
  }

  /** `Hit` is the file at the position `FirstMatch` finds. */
  lemma {:induction false} HitAtFirstMatch(files: seq<string>, fr: Frame)
    ensures var i := FirstMatch(files, fr); Hit(files, fr) == if i.None? then None else Some(files[i.value])
    decreases |files|
  {
    if files != [] && !MatchesFrame(files[0], fr) {
      HitAtFirstMatch(files[1..], fr);
      var p := f => MatchesFrame(f, fr);
      assert FirstMatch(files, fr) == FirstIndex(files, p);
      assert FirstMatch(files[1..], fr) == FirstIndex(files[1..], p);
    }
  }

  /** A hit is a matching file of the list, and there is none only when no file matches. */
  lemma HitMatches(files: seq<string>, fr: Frame)
    ensures Hit(files, fr).Some? ==> MatchesFrame(Hit(files, fr).value, fr) && Hit(files, fr).value in files
    ensures Hit(files, fr).None? <==> forall f :: f in files ==> !MatchesFrame(f, fr)
  {
    HitAtFirstMatch(files, fr);
  }

  /** `find_for`: scan the files in order and return the first match. */
  method FindFor(files: seq<string>, fr: Frame) returns (hit: Option<string>)
    ensures hit == Hit(files, fr)
  {
    var i := FindFirst(files, f => MatchesFrame(f, fr));
    HitAtFirstMatch(files, fr);
    hit := if i.None? then None else Some(files[i.value]);
  }

  /** The first match comes before every other file that matches. */
  lemma HitIsFirst(files: seq<string>, fr: Frame, j: nat)
    requires j < |files| && MatchesFrame(files[j], fr)
    ensures FirstMatch(files, fr).Some? && FirstMatch(files, fr).value <= j
    ensures Hit(files, fr) == Some(files[FirstMatch(files, fr).value])
  {
    HitAtFirstMatch(files, fr);
  }

  /** A matching name is at least as long as its suffix, so never empty. */
  lemma MatchIsNonEmpty(f: string, fr: Frame)
    requires MatchesFrame(f, fr)
    ensures f != []
  {
  }

  /**
   * The dict `_choose_best_compact` returns: the keys "daily", "weekly",
   * "monthly" and "hourly" as `byFrame`, and the key "best".
   */
  datatype Charts = Charts(byFrame: map<Frame, MirrorUrls>, best: Option<MirrorUrls>)

  const NoCharts: Charts := Charts(map[], None)

  /**
   * What `_choose_best_compact` promises: one chart per timeframe that has a
   * match (built from the first matching file), and "best" as the chart of the
   * first present timeframe in priority order, absent when none is present.
   */
  ghost predicate BestCompactChoice(files: seq<string>, out: Charts) {
    && (forall fr :: fr in out.byFrame <==> Hit(files, fr).Some?)
    && (forall fr :: fr in out.byFrame ==> Hit(files, fr).Some? && out.byFrame[fr] == AbspathFor(Hit(files, fr).value))
    && (out.best.None? <==> out.byFrame == map[])
    && (forall i :: 0 <= i < |Frames| && Frames[i] in out.byFrame && (forall j :: 0 <= j < i ==> Frames[j] !in out.byFrame) ==>
          out.best == Some(out.byFrame[Frames[i]]))
  }

  const FrameSet: set<Frame> := {Daily, Weekly, Monthly, Hourly}

  /** The charts of the timeframes with a match, each built by `url` from its first matching file. */
  function FoundBy(files: seq<string>, url: string -> MirrorUrls): map<Frame, MirrorUrls> {
    map fr | fr in FrameSet && Hit(files, fr).Some? :: url(Hit(files, fr).value)
  }

  /** The chart of the first timeframe from position `k` of `Frames` on that `found` holds. */
  function FirstPresent(found: map<Frame, MirrorUrls>, k: nat): Option<MirrorUrls>
    decreases |Frames| - k
  {
    if k >= |Frames| then None
    else if Frames[k] in found then Some(found[Frames[k]])
    else FirstPresent(found, k + 1)
  }

  /** `_choose_best_compact` as a value: the reference the method is proved against. */
  function CompactCharts(files: seq<string>): Charts {
    var found := FoundBy(files, AbspathFor);
    Charts(found, FirstPresent(found, 0))
  }

  /** `FirstPresent` is the chart of the first timeframe from `k` on that is present, and none only when none is. */
  lemma {:induction false} FirstPresentIsFirst(found: map<Frame, MirrorUrls>, k: nat)
    requires k <= |Frames|
    ensures FirstPresent(found, k).None? <==> forall j :: k <= j < |Frames| ==> Frames[j] !in found
    ensures forall i :: k <= i < |Frames| && Frames[i] in found && (forall j :: k <= j < i ==> Frames[j] !in found) ==>
      FirstPresent(found, k) == Some(found[Frames[i]])
    decreases |Frames| - k
  {
    if k < |Frames| && Frames[k] !in found {
      FirstPresentIsFirst(found, k + 1);
    }
  }

  /** Every timeframe is one of `Frames`. */
  lemma FramesCover(fr: Frame)
    ensures fr in FrameSet && Frames[Priority(fr)] == fr
  {
  }

  /** The reference charts meet the promise of `_choose_best_compact`. */
  lemma CompactChartsChoice(files: seq<string>)
    ensures BestCompactChoice(files, CompactCharts(files))
  {
    var out := CompactCharts(files);
    FirstPresentIsFirst(out.byFrame, 0);
    forall fr | fr in out.byFrame
      ensures Frames[Priority(fr)] in out.byFrame
    {
      FramesCover(fr);
    }
    forall fr
      ensures fr in out.byFrame <==> Hit(files, fr).Some?
    {
      FramesCover(fr);
    }
  }

  /**
   * The first loop of `_choose_best_compact`: the chart of every timeframe with a match,
   * written for any function from a path to its URLs.
   */
  method ChartsByFrame(files: seq<string>, url: string -> MirrorUrls) returns (found: map<Frame, MirrorUrls>)
    ensures forall fr :: fr in found <==> Hit(files, fr).Some?
    ensures forall fr :: fr in found ==> Hit(files, fr).Some? && found[fr] == url(Hit(files, fr).value)
    ensures found == FoundBy(files, url)
  {
    found := map[];
    var k := 0;
    while k < |Frames|
      invariant 0 <= k <= |Frames|
      invariant forall fr :: Priority(fr) < k ==> (fr in found <==> Hit(files, fr).Some?)
      invariant forall fr :: fr in found ==> Priority(fr) < k
      invariant forall fr :: fr in found ==> Hit(files, fr).Some? && found[fr] == url(Hit(files, fr).value)
    {
      var fr := Frames[k];
      assert Priority(fr) == k;
      var hit := FindFor(files, fr);
      if hit.Some? {
        HitMatches(files, fr);
        MatchIsNonEmpty(hit.value, fr);
      }
      if hit.Some? && hit.value != "" {
        found := found[fr := url(hit.value)];
      }
      k := k + 1;
    }
    forall fr | fr in FoundBy(files, url)
      ensures fr in found
    {
      FramesCover(fr);
    }
  }

  /** The second loop of `_choose_best_compact`: the chart of the first present timeframe. */
  method BestOf(found: map<Frame, MirrorUrls>) returns (best: Option<MirrorUrls>)
    ensures best.None? <==> found == map[]
    ensures forall i :: 0 <= i < |Frames| && Frames[i] in found && (forall j :: 0 <= j < i ==> Frames[j] !in found) ==>
      best == Some(found[Frames[i]])
    ensures best == FirstPresent(found, 0)
  {
    var k := 0;
    while k < |Frames|
      invariant 0 <= k <= |Frames|
      invariant forall j :: 0 <= j < k ==> Frames[j] !in found
      invariant FirstPresent(found, 0) == FirstPresent(found, k)
      invariant forall fr :: fr in found ==> Priority(fr) >= k
    {
      if Frames[k] in found {
        return Some(found[Frames[k]]);
      }
      k := k + 1;
    }
    assert found == map[];
    return None;
  }

  /** `_choose_best_compact`. */
  method ChooseBestCompact(files: seq<string>) returns (out: Charts)
    ensures out == CompactCharts(files)
    ensures BestCompactChoice(files, out)
  {
    var found := ChartsByFrame(files, AbspathFor);
    var best := BestOf(found);
    out := Charts(found, best);
    CompactChartsChoice(files);
  }

  // ---------------------------------------------------------------------------
  // Bucketing compact charts by ticker.
  // ---------------------------------------------------------------------------

  const FileListKeys: seq<string> := ["files", "all", "charts"]

  /** The raw list `_collect_compacts_by_ticker` starts from. */
  function SourceFiles(filelist: Json): (r: seq<Json>)
    ensures filelist.JArr? ==> r == filelist.items
    ensures filelist.JObj? && FirstListKey(filelist.fields, FileListKeys).Some? ==>
      r == filelist.fields[FileListKeys[FirstListKey(filelist.fields, FileListKeys).value]].items
    ensures filelist.JObj? && FirstListKey(filelist.fields, FileListKeys).None? ==> r == []
    ensures !(filelist.JArr? || filelist.JObj?) ==> r == []
  {
    match filelist
    case JArr(items) => items
    case JObj(m) => FirstListUnder(m, FileListKeys).GetOr([])
    case _ => []
  }

  /** `isinstance(f, str) and f.lower().endswith("_compact.png")`. */
  predicate IsCompactName(f: Json) {
    f.JStr? && EndsWith(Lower(f.s), "_compact.png")
  }

  /** The surviving file names, in input order. */
  function CompactNames(files: seq<Json>): (r: seq<string>)
    ensures |r| <= |files|
    ensures forall i :: 0 <= i < |r| ==> EndsWith(Lower(r[i]), "_compact.png")
    decreases |files|
  {
    if files == [] then []
    else (if IsCompactName(files[0]) then [files[0].s] else []) + CompactNames(files[1..])
  }

  /** Every string of the list that passes the filter survives. */
  lemma {:induction false} CompactNamesComplete(files: seq<Json>, i: nat)
    requires i < |files| && IsCompactName(files[i])
    ensures files[i].s in CompactNames(files)
    decreases |files|
  {
    if i > 0 {
      CompactNamesComplete(files[1..], i - 1);
    }
  }

  /** The "ensure a charts/ prefix" step. */
  function NormalizePath(f: string): string {
    if !StartsWith(f, "charts/") && !Contains(f, "charts/") then
      if StartsWith(f, "/") then "charts" + f else "charts/" + f
    else TrimLeft(f, '/')
  }

  /** Removing leading slashes keeps every occurrence of a pattern that does not start with one. */
  lemma {:induction false} TrimLeftKeepsContains(s: string, p: string)
    requires Contains(s, p) && p != [] && p[0] != '/'
    ensures Contains(TrimLeft(s, '/'), p)
    decreases |s|
  {
    if s != [] && s[0] == '/' {
      var i := IndexOf(s, p).value;
      assert s[i..i + |p|][0] == s[i];
      OccursAtTail(s, p, i - 1);
      assert Contains(s[1..], p) by {
        assert OccursAt(s[1..], p, i - 1);
      }
      TrimLeftKeepsContains(s[1..], p);
    }
  }

  /**
   * Every normalised path contains "charts/", has no leading slash, and ends
   * with the original name stripped of its leading slashes.
   */
  lemma NormalizePathShape(f: string)
    ensures Contains(NormalizePath(f), "charts/")
    ensures NormalizePath(f) != [] && NormalizePath(f)[0] != '/'
    ensures EndsWith(NormalizePath(f), TrimLeft(f, '/'))
  {
    var r := NormalizePath(f);
    if !StartsWith(f, "charts/") && !Contains(f, "charts/") {
      assert OccursAt(r, "charts/", 0);
      assert r[|r| - |f|..] == f;
      TrimLeftSuffix(f, '/');
      SuffixOfSuffix(r, f, TrimLeft(f, '/'));
    } else {
      assert StartsWith(f, "charts/") ==> OccursAt(f, "charts/", 0);
      TrimLeftKeepsContains(f, "charts/");
      var i := IndexOf(r, "charts/").value;
      assert r[i..i + 7] == "charts/";
      assert r != [];
    }
  }

  /** The normalised paths the buckets are built from, in input order. */
  function NormalizedPaths(filelist: Json): seq<string> {
    var names := CompactNames(SourceFiles(filelist));
    seq(|names|, i requires 0 <= i < |names| => NormalizePath(names[i]))
  }

  /** `Path(f).name` for a path that does not end in a slash. */
  function BaseName(f: string): string {
    AfterLast(f, '/')
  }

  /** The character class `[A-Za-z0-9\-\._]`. */
  predicate TickerChar(c: char) {
    IsAsciiLetter(c) || IsDigit(c) || c == '-' || c == '.' || c == '_'
  }

  /** Length of the longest prefix made of ticker characters. */
  function ClassRun(s: string): (n: nat)
    ensures n <= |s|
    ensures forall i :: 0 <= i < n ==> TickerChar(s[i])
    ensures n < |s| ==> !TickerChar(s[n])
    decreases |s|
  {
    if s != [] && TickerChar(s[0]) then 1 + ClassRun(s[1..]) else 0
  }

  /** The largest `j` with `1 <= j < n` and `s[j] == '_'`. */
  function LastUnderscore(s: string, n: nat): (r: Option<nat>)
    requires n <= |s|
    ensures r.Some? ==> 1 <= r.value < n && s[r.value] == '_'
    ensures r.Some? ==> forall k :: r.value < k < n ==> s[k] != '_'
    ensures r.None? ==> forall k :: 1 <= k < n ==> s[k] != '_'
    decreases n
  {
    if n <= 1 then None
    else if s[n - 1] == '_' then Some(n - 1)
    else LastUnderscore(s, n - 1)
  }

  /**
   * `re.match(r"^([A-Za-z0-9\-\._]+)_", base).group(1)`: the greedy group
   * backtracks to the last underscore inside the leading run of ticker
   * characters, so the key is the basename up to its last such underscore.
   */
  function TickerOf(base: string): (r: Option<string>)
    ensures r.Some? ==> 1 <= |r.value| < |base| && r.value == base[..|r.value|] && base[|r.value|] == '_'
    ensures r.Some? ==> forall i :: 0 <= i < |r.value| ==> TickerChar(r.value[i])
    ensures r.Some? ==> forall k :: |r.value| < k < ClassRun(base) ==> base[k] != '_'
    ensures r.None? <==> forall k :: 1 <= k < ClassRun(base) ==> base[k] != '_'
  {
    var j := LastUnderscore(base, ClassRun(base));
    if j.None? then None else Some(base[..j.value])
  }

  /** A string made of ticker characters only is one whole run. */
  lemma {:induction false} ClassRunAll(s: string)
    requires forall i :: 0 <= i < |s| ==> TickerChar(s[i])
    ensures ClassRun(s) == |s|
    decreases |s|
  {
    if s != [] {
      ClassRunAll(s[1..]);
    }
  }

  /** `LastUnderscore` finds the underscore after which there are no more. */
  lemma {:induction false} LastUnderscoreAt(s: string, n: nat, j: nat)
    requires 1 <= j < n <= |s| && s[j] == '_'
    requires forall k :: j < k < n ==> s[k] != '_'
    ensures LastUnderscore(s, n) == Some(j)
    decreases n
  {
    if n - 1 != j {
      LastUnderscoreAt(s, n - 1, j);
    }
  }

  /**
   * A run of ticker characters followed by a tail that starts with the only
   * underscore of the tail is keyed by the run.
   */
  lemma TickerOfTail(key: string, tail: string)
    requires key != [] && forall i :: 0 <= i < |key| ==> TickerChar(key[i])
    requires tail != [] && tail[0] == '_'
    requires forall i :: 0 <= i < |tail| ==> TickerChar(tail[i])
    requires forall i :: 1 <= i < |tail| ==> tail[i] != '_'
    ensures TickerOf(key + tail) == Some(key)
  {
    var base := key + tail;
    var j := |key|;
    assert forall i :: 0 <= i < |base| ==> TickerChar(base[i]) by {
      forall i | 0 <= i < |base| ensures TickerChar(base[i]) {
        if i < j {
          assert base[i] == key[i];
        } else {
          assert base[i] == tail[i - j];
        }
      }
    }
    ClassRunAll(base);
    assert forall k :: j < k < |base| ==> base[k] == tail[k - j];
    LastUnderscoreAt(base, |base|, j);
    assert base[..j] == key;
  }

  /** "_compact.png" is made of ticker characters, with its only underscore in front. */
  lemma CompactTailShape()
    ensures forall i :: 0 <= i < |"_compact.png"| ==> TickerChar("_compact.png"[i])
    ensures forall i :: 1 <= i < |"_compact.png"| ==> "_compact.png"[i] != '_'
  {
  }

  /**
   * The bucket key of a chart named `<ticker>_<frame>_compact.png` keeps the
   * frame: the greedy group runs to the last underscore of the name, so the
   * key is `<ticker>_<frame>`, not the part before the first underscore.
   */
  lemma TickerOfChartName(ticker: string, frame: string)
    requires ticker != []
    requires forall i :: 0 <= i < |ticker| ==> TickerChar(ticker[i])
    requires forall i :: 0 <= i < |frame| ==> TickerChar(frame[i]) && frame[i] != '_'
    ensures TickerOf(ticker + "_" + frame + "_compact.png") == Some(ticker + "_" + frame)
  {
    var key := ticker + "_" + frame;
    assert forall i :: 0 <= i < |key| ==> TickerChar(key[i]) by {
      forall i | 0 <= i < |key| ensures TickerChar(key[i]) {
        if i < |ticker| {
          assert key[i] == ticker[i];
        } else if i > |ticker| {
          assert key[i] == frame[i - |ticker| - 1];
        }
      }
    }
    CompactTailShape();
    TickerOfTail(key, "_compact.png");
  }

  /** The bucket key of a chart path: the ticker its basename yields. */
  function TickerKey(path: string): Option<string> {
    TickerOf(BaseName(path))
  }

  /** The paths of `paths` whose key is `ticker`, in order. */
  function Bucket(paths: seq<string>, key: string -> Option<string>, ticker: string): seq<string>
    decreases |paths|
  {
    if paths == [] then []
    else (if key(paths[0]) == Some(ticker) then [paths[0]] else []) + Bucket(paths[1..], key, ticker)
  }

  lemma BucketSingle(p: string, key: string -> Option<string>, ticker: string)
    ensures Bucket([p], key, ticker) == if key(p) == Some(ticker) then [p] else []
  {
    assert [p][1..] == [];
  }

  /** A path lands in a bucket exactly when its key is that bucket's ticker. */
  lemma {:induction false} BucketMembers(paths: seq<string>, key: string -> Option<string>, ticker: string, p: string)
    ensures p in Bucket(paths, key, ticker) <==> p in paths && key(p) == Some(ticker)
    decreases |paths|
  {
    if paths != [] {
      BucketMembers(paths[1..], key, ticker, p);
      assert paths == [paths[0]] + paths[1..];
    }
  }

  lemma {:induction false} BucketAppend(a: seq<string>, b: seq<string>, key: string -> Option<string>, ticker: string)
    ensures Bucket(a + b, key, ticker) == Bucket(a, key, ticker) + Bucket(b, key, ticker)
    decreases |a|
  {
    if a == [] {
      assert a + b == b;
    } else {
      var h := if key(a[0]) == Some(ticker) then [a[0]] else [];
      assert (a + b)[0] == a[0];
      assert (a + b)[1..] == a[1..] + b;
      assert Bucket(a + b, key, ticker) == h + Bucket(a[1..] + b, key, ticker);
      BucketAppend(a[1..], b, key, ticker);
      assert Bucket(a, key, ticker) == h + Bucket(a[1..], key, ticker);
      assert h + (Bucket(a[1..], key, ticker) + Bucket(b, key, ticker))
          == (h + Bucket(a[1..], key, ticker)) + Bucket(b, key, ticker);
    }
  }

  /** The buckets of different tickers are disjoint, so every path is in at most one. */
  lemma BucketsDisjoint(paths: seq<string>, key: string -> Option<string>, t1: string, t2: string, p: string)
    requires t1 != t2 && p in Bucket(paths, key, t1)
    ensures p !in Bucket(paths, key, t2)
  {
    BucketMembers(paths, key, t1, p);
    BucketMembers(paths, key, t2, p);
  }

  /** The "ensure a charts/ prefix" loop of `_collect_compacts_by_ticker`. */
  method NormalizeAll(files: seq<string>) returns (normalized: seq<string>)
    ensures |normalized| == |files|
    ensures forall j :: 0 <= j < |files| ==> normalized[j] == NormalizePath(files[j])
  {
    normalized := [];
    var i := 0;
    while i < |files|
      invariant 0 <= i <= |files|
      invariant |normalized| == i
      invariant forall j :: 0 <= j < i ==> normalized[j] == NormalizePath(files[j])
    {
      normalized := normalized + [NormalizePath(files[i])];
      i := i + 1;
    }
  }

  /**
   * The bucketing loop of `_collect_compacts_by_ticker`,
   * `buckets.setdefault(key(f), []).append(f)` for every path with a key,
   * written for any key function.
   */
  method BucketBy(paths: seq<string>, key: string -> Option<string>) returns (buckets: map<string, seq<string>>)
    ensures forall t :: t in buckets <==> Bucket(paths, key, t) != []
    ensures forall t :: t in buckets ==> buckets[t] == Bucket(paths, key, t)
  {
    buckets := map[];
    var i := 0;
    while i < |paths|
      invariant 0 <= i <= |paths|
      invariant forall t :: t in buckets <==> Bucket(paths[..i], key, t) != []
      invariant forall t :: t in buckets ==> buckets[t] == Bucket(paths[..i], key, t)
    {
      var f := paths[i];
      var ticker := key(f);
      assert paths[..i + 1] == paths[..i] + [f];
      forall t
        ensures Bucket(paths[..i + 1], key, t) == Bucket(paths[..i], key, t) + (if ticker == Some(t) then [f] else [])
      {
        BucketAppend(paths[..i], [f], key, t);
        BucketSingle(f, key, t);
      }
      if ticker.Some? {
        var bucket := if ticker.value in buckets then buckets[ticker.value] else [];
        buckets := buckets[ticker.value := bucket + [f]];
      }
      i := i + 1;
    }
    assert paths[..i] == paths;
  }

  /**
   * `_collect_compacts_by_ticker`: select the list, keep the compact PNG
   * names, give each a "charts/" prefix, and append each path to the bucket
   * of its ticker (paths without one are dropped).
   */
  method CollectCompactsByTicker(filelist: Json) returns (buckets: map<string, seq<string>>)
    ensures forall t :: t in buckets <==> Bucket(NormalizedPaths(filelist), TickerKey, t) != []
    ensures forall t :: t in buckets ==> buckets[t] == Bucket(NormalizedPaths(filelist), TickerKey, t)
  {
    var files := CompactNames(SourceFiles(filelist));
    var normalized := NormalizeAll(files);
    assert normalized == NormalizedPaths(filelist);
    buckets := BucketBy(normalized, TickerKey);
  }

  // ---------------------------------------------------------------------------
  // Per-ticker metrics.
  // ---------------------------------------------------------------------------

  /** `_num(out_src)` as a relation: numbers pass through, anything else becomes None. */
  predicate Coerced(out: Json, src: Json) {
    if IsNumber(src) then out == src else out == JNull
  }

  /** The metrics of one timeframe, in the order of the exported keys. */
  datatype FrameMetrics = FrameMetrics(
    closeAboveSma36: Json,
    distTo36MA: Json,
    rsi14: Json,
    macd: Json,
    macdSignal: Json,
    macdHist: Json,
    macdCross: Json)

  /** The metrics of one ticker, in the order of the exported keys. */
  datatype Metrics = Metrics(
    last: Json,
    is52wHigh: Json,
    is52wLow: Json,
    high52w: Json,
    low52w: Json,
    distTo36WMA: Json,
    distTo36MMA: Json,
    weeklyCloseCountAbove36WMA: Json,
    gdxGldRatioVs50dma: Json,
    silSlvRatioVs50dma: Json,
    vol20UpOk: Json,
    hourly: FrameMetrics,
    daily: FrameMetrics,
    weekly: FrameMetrics,
    monthly: FrameMetrics)

  /** The metrics of one timeframe read from its dict `f`. */
  function FrameMetricsOf(f: map<string, Json>): FrameMetrics {
    FrameMetrics(
      Field(f, "close_above_sma36"),
      Num(Field(f, "dist_to_36MA")),
      Num(Field(f, "rsi14")),
      Num(Field(f, "macd")),
      Num(Field(f, "macd_signal")),
      Num(Field(f, "macd_hist")),
      Field(f, "macd_cross"))
  }

  /** The asset record `_metrics_from_index` reads: `_get(idx, "summary", "assets", ticker, default={}) or {}`. */
  function AssetRecord(idx: Json, ticker: string): Json {
    Or(Lookup(idx, ["summary", "assets", ticker], JObj(map[])), JObj(map[]))
  }

  /** The dicts `.get` is called on: the asset record and its frames. */
  datatype Sources = Sources(
    asset: map<string, Json>,
    hourly: map<string, Json>,
    daily: map<string, Json>,
    weekly: map<string, Json>,
    monthly: map<string, Json>)

  /** The dicts of the extraction, or None when one of them is a truthy non-dict (AttributeError). */
  function MetricSources(idx: Json, ticker: string): Option<Sources> {
    var a := DictOrEmpty(AssetRecord(idx, ticker));
    if a.None? then None
    else
      var frames := DictOrEmpty(Field(a.value, "frames"));
      if frames.None? then None
      else
        var d := DictOrEmpty(Field(frames.value, "daily"));
        var w := DictOrEmpty(Field(frames.value, "weekly"));
        var m := DictOrEmpty(Field(frames.value, "monthly"));
        var h := DictOrEmpty(Field(frames.value, "hourly"));
        if d.None? || w.None? || m.None? || h.None? then None
        else Some(Sources(a.value, h.value, d.value, w.value, m.value))
  }

  /**
   * `_metrics_from_index`: AttributeError when the asset record, its frames or
   * one frame is a truthy non-dict; otherwise the fixed fields, the numeric
   * ones coerced by `_num`, "last" taken from the daily frame.
   */
  function MetricsFromIndex(idx: Json, ticker: string): (r: Result<Metrics>)
    ensures r.Err? <==> MetricSources(idx, ticker).None?
  {
    var src := MetricSources(idx, ticker);
    if src.None? then Err("AttributeError")
    else
      var a := src.value.asset;
      Ok(Metrics(
        Num(Field(src.value.daily, "last")),
        Field(a, "is_52w_high"),
        Field(a, "is_52w_low"),
        Num(Field(a, "52w_high")),
        Num(Field(a, "52w_low")),
        Num(Field(a, "dist_to_36WMA")),
        Num(Field(a, "dist_to_36MMA")),
        Num(Field(a, "weekly_close_count_above_36WMA")),
        Field(a, "gdx_gld_ratio_vs_50dma"),
        Field(a, "sil_slv_ratio_vs_50dma"),
        Field(a, "vol20_up_ok"),
        FrameMetricsOf(src.value.hourly),
        FrameMetricsOf(src.value.daily),
        FrameMetricsOf(src.value.weekly),
        FrameMetricsOf(src.value.monthly)))
  }

  /**
   * The fields `_metrics_from_index` passes through `_num` keep a number and
   * become None otherwise; the others are copied as they are.
   */
  lemma MetricsCoerced(idx: Json, ticker: string)
    requires MetricSources(idx, ticker).Some?
    ensures MetricsFromIndex(idx, ticker).Ok?
    ensures var r := MetricsFromIndex(idx, ticker).value; var src := MetricSources(idx, ticker).value; var a := src.asset;
      && Coerced(r.last, Field(src.daily, "last"))
      && Coerced(r.high52w, Field(a, "52w_high")) && Coerced(r.low52w, Field(a, "52w_low"))
      && Coerced(r.distTo36WMA, Field(a, "dist_to_36WMA")) && Coerced(r.distTo36MMA, Field(a, "dist_to_36MMA"))
      && Coerced(r.weeklyCloseCountAbove36WMA, Field(a, "weekly_close_count_above_36WMA"))
      && r.is52wHigh == Field(a, "is_52w_high") && r.is52wLow == Field(a, "is_52w_low")
      && r.gdxGldRatioVs50dma == Field(a, "gdx_gld_ratio_vs_50dma")
      && r.silSlvRatioVs50dma == Field(a, "sil_slv_ratio_vs_50dma")
      && r.vol20UpOk == Field(a, "vol20_up_ok")
      && FramesCoerced(r.hourly, src.hourly) && FramesCoerced(r.daily, src.daily)
      && FramesCoerced(r.weekly, src.weekly) && FramesCoerced(r.monthly, src.monthly)
  {
    var src := MetricSources(idx, ticker).value;
    FrameMetricsCoerced(src.hourly);
    FrameMetricsCoerced(src.daily);
    FrameMetricsCoerced(src.weekly);
    FrameMetricsCoerced(src.monthly);
  }

  /** The timeframe metrics read from `f`: the `_num` fields coerced, the others copied. */
  predicate FramesCoerced(r: FrameMetrics, f: map<string, Json>) {
    && Coerced(r.distTo36MA, Field(f, "dist_to_36MA")) && Coerced(r.rsi14, Field(f, "rsi14"))
    && Coerced(r.macd, Field(f, "macd")) && Coerced(r.macdSignal, Field(f, "macd_signal"))
    && Coerced(r.macdHist, Field(f, "macd_hist"))
    && r.closeAboveSma36 == Field(f, "close_above_sma36") && r.macdCross == Field(f, "macd_cross")
  }

  lemma FrameMetricsCoerced(f: map<string, Json>)
    ensures FramesCoerced(FrameMetricsOf(f), f)
  {
  }

  /** Every field of a timeframe is None. */
  predicate AllNullFrame(f: FrameMetrics) {
    f.closeAboveSma36 == JNull && f.distTo36MA == JNull && f.rsi14 == JNull && f.macd == JNull
    && f.macdSignal == JNull && f.macdHist == JNull && f.macdCross == JNull
  }

  /**
   * A ticker the index does not know (it came from the chart files only) gets
   * metrics whose every value is None.
   */
  lemma MetricsOfUnknownTicker(idx: Json, ticker: string)
    requires Walk(idx, ["summary", "assets", ticker]).None?
    ensures MetricsFromIndex(idx, ticker).Ok?
    ensures var m := MetricsFromIndex(idx, ticker).value;
      && m.last == JNull && m.is52wHigh == JNull && m.is52wLow == JNull && m.high52w == JNull && m.low52w == JNull
      && m.distTo36WMA == JNull && m.distTo36MMA == JNull && m.weeklyCloseCountAbove36WMA == JNull
      && m.gdxGldRatioVs50dma == JNull && m.silSlvRatioVs50dma == JNull && m.vol20UpOk == JNull
      && AllNullFrame(m.hourly) && AllNullFrame(m.daily) && AllNullFrame(m.weekly) && AllNullFrame(m.monthly)
  {
  }

  // ---------------------------------------------------------------------------
  // News payload.
  // ---------------------------------------------------------------------------

  datatype NewsItem = NewsItem(title: Json, url: Json, timestamp: Json, summary: Json, image: Json, source: Json)

  const TitleKeys: seq<string> := ["title", "headline"]
  const UrlKeys: seq<string> := ["url", "link"]
  const TimestampKeys: seq<string> := ["timestamp", "published_at", "pubDate", "date"]
  const SummaryKeys: seq<string> := ["summary", "description"]
  const ImageKeys: seq<string> := ["image", "image_url", "thumb"]
  const SourceKeys: seq<string> := ["source", "site"]

  /** A field that fell back to "" or holds a truthy value. */
  predicate TextOrEmpty(x: Json) { x == JStr("") || Truthy(x) }

  /**
   * One news entry: dropped when it is not a dict or has neither a title
   * nor a url; otherwise every field is its first truthy alias, else "" (None
   * for the image).
   */
  function NewsEntry(it: Json): (r: Option<NewsItem>)
    ensures r.Some? <==> it.JObj? && (FirstTruthyKey(it.fields, TitleKeys).Some? || FirstTruthyKey(it.fields, UrlKeys).Some?)
    ensures r.Some? ==> Truthy(r.value.title) || Truthy(r.value.url)
    ensures r.Some? ==> r.value.image == JNull || Truthy(r.value.image)
    ensures r.Some? ==> TextOrEmpty(r.value.title) && TextOrEmpty(r.value.url) && TextOrEmpty(r.value.timestamp)
    ensures r.Some? ==> TextOrEmpty(r.value.summary) && TextOrEmpty(r.value.source)
  {
    if !it.JObj? then None
    else
      var m := it.fields;
      var title := Alias(m, TitleKeys, JStr(""));
      var url := Alias(m, UrlKeys, JStr(""));
      if !Truthy(title) && !Truthy(url) then None
      else Some(NewsItem(title, url, Alias(m, TimestampKeys, JStr("")), Alias(m, SummaryKeys, JStr("")),
                         Alias(m, ImageKeys, JNull), Alias(m, SourceKeys, JStr(""))))
  }

  /** The values `f` yields for the elements it keeps, in order. */
  function FilterMap<T, U>(xs: seq<T>, f: T -> Option<U>): (r: seq<U>)
    ensures |r| <= |xs|
    decreases |xs|
  {
    if xs == [] then []
    else (if f(xs[0]).Some? then [f(xs[0]).value] else []) + FilterMap(xs[1..], f)
  }

  /** Every kept value comes from some element, in order. */
  lemma {:induction false} FilterMapFrom<T, U>(xs: seq<T>, f: T -> Option<U>, i: nat)
    requires i < |FilterMap(xs, f)|
    ensures exists j :: 0 <= j < |xs| && f(xs[j]) == Some(FilterMap(xs, f)[i])
    decreases |xs|
  {
    var h := if f(xs[0]).Some? then [f(xs[0]).value] else [];
    if f(xs[0]).Some? && i == 0 {
      assert f(xs[0]) == Some(FilterMap(xs, f)[0]);
    } else {
      var k := i - |h|;
      assert FilterMap(xs, f)[i] == FilterMap(xs[1..], f)[k];
      FilterMapFrom(xs[1..], f, k);
      var j :| 0 <= j < |xs[1..]| && f(xs[1..][j]) == Some(FilterMap(xs[1..], f)[k]);
      assert xs[1..][j] == xs[j + 1];
    }
  }

  /** A loop that appends `f`'s value for every element `f` keeps. */
  method FilterMapLoop<T, U>(xs: seq<T>, f: T -> Option<U>) returns (out: seq<U>)
    ensures out == FilterMap(xs, f)
  {
    out := [];
    var i := 0;
    while i < |xs|
      invariant 0 <= i <= |xs|
      invariant out + FilterMap(xs[i..], f) == FilterMap(xs, f)
    {
      assert xs[i..][1..] == xs[i + 1..];
      var e := f(xs[i]);
      if e.Some? {
        out := out + [e.value];
      }
      i := i + 1;
    }
  }

  /** The kept entries, in input order. */
  function NewsPayload(items: seq<Json>): seq<NewsItem> {
    FilterMap(items, NewsEntry)
  }

  /**
   * Every entry of the news payload comes from an input entry that is a dict
   * with a truthy title or url alias, and has a truthy title or url itself.
   */
  lemma NewsPayloadEntries(items: seq<Json>, i: nat)
    requires i < |NewsPayload(items)|
    ensures var e := NewsPayload(items)[i];
      && (Truthy(e.title) || Truthy(e.url))
      && exists j :: 0 <= j < |items| && items[j].JObj? && NewsEntry(items[j]) == Some(e)
  {
    FilterMapFrom(items, NewsEntry, i);
  }

  /** The news loop of `main`. */
  method BuildNewsPayload(items: seq<Json>) returns (out: seq<NewsItem>)
    ensures out == NewsPayload(items)
  {
    out := FilterMapLoop(items, NewsEntry);
  }

  // ---------------------------------------------------------------------------
  // The feed.
  // ---------------------------------------------------------------------------

  /** One entry of "tickers"; `metrics` is None where the exporter writes an empty dict. */
  datatype TickerPayload = TickerPayload(symbol: string, metrics: Option<Metrics>, charts: Charts)

  datatype Feed = Feed(
    spec: string,
    generatedUtc: string,
    mirrors: MirrorUrls,
    tickers: seq<TickerPayload>,
    news: seq<NewsItem>)

  /** The asset keys of the index, or None when `summary.assets` is a truthy non-dict (`.keys()` raises). */
  function IndexTickers(idx: Json): Option<set<string>> {
    var assets := DictOrEmpty(Lookup(idx, ["summary", "assets"], JObj(map[])));
    if assets.None? then None else Some(assets.value.Keys)
  }

  /** `t` is a key of the index's assets or the key of a non-empty chart bucket. */
  ghost predicate InUniverse(idx: Json, paths: seq<string>, t: string)
    requires IndexTickers(idx).Some?
  {
    t in IndexTickers(idx).value || Bucket(paths, TickerKey, t) != []
  }

  /** Reading the metrics of `t` raises: the index is non-empty and one of its records is not a dict. */
  ghost predicate MetricsFail(idx: Json, t: string) {
    Truthy(idx) && MetricsFromIndex(idx, t).Err?
  }

  /** The "tickers" entry of `p.symbol` as `main` builds it from the index and the chart paths. */
  ghost predicate PayloadOf(idx: Json, paths: seq<string>, p: TickerPayload) {
    && p.metrics == (if Truthy(idx) && MetricsFromIndex(idx, p.symbol).Ok? then Some(MetricsFromIndex(idx, p.symbol).value) else None)
    && var bucket := Bucket(paths, TickerKey, p.symbol);
       if bucket == [] then p.charts == NoCharts else BestCompactChoice(bucket, p.charts)
  }

  /** The "tickers" entry of `t` as the reference: its metrics when they read, and the charts of its bucket. */
  ghost function EntryOf(idx: Json, paths: seq<string>, t: string): TickerPayload {
    var bucket := Bucket(paths, TickerKey, t);
    TickerPayload(t,
      if Truthy(idx) && MetricsFromIndex(idx, t).Ok? then Some(MetricsFromIndex(idx, t).value) else None,
      if bucket == [] then NoCharts else CompactCharts(bucket))
  }

  /** The reference entry is one `main` may write for its ticker. */
  lemma EntryOfPayload(idx: Json, paths: seq<string>, t: string)
    ensures EntryOf(idx, paths, t).symbol == t && PayloadOf(idx, paths, EntryOf(idx, paths, t))
  {
    var bucket := Bucket(paths, TickerKey, t);
    if bucket != [] {
      CompactChartsChoice(bucket);
    }
  }

  /** `compacts` holds the bucket of every ticker that has charts among `paths`, and nothing else. */
  ghost predicate BucketsOf(paths: seq<string>, compacts: map<string, seq<string>>) {
    && (forall u {:trigger u in compacts} :: u in compacts <==> Bucket(paths, TickerKey, u) != [])
    && (forall u {:trigger u in compacts} :: u in compacts ==> compacts[u] == Bucket(paths, TickerKey, u))
  }

  /** The body of the loop over the tickers in `main`: the entry of one ticker. */
  method TickerEntry(idx: Json, ghost paths: seq<string>, compacts: map<string, seq<string>>, t: string)
    returns (r: Result<TickerPayload>)
    requires BucketsOf(paths, compacts)
    ensures r.Err? <==> MetricsFail(idx, t)
    ensures r.Ok? ==> r.value.symbol == t && r.value == EntryOf(idx, paths, t)
  {
    var metrics := None;
    if Truthy(idx) {
      var m := MetricsFromIndex(idx, t);
      if m.Err? {
        return Err(m.error);
      }
      metrics := Some(m.value);
    }
    var chartFiles := if t in compacts then compacts[t] else [];
    var charts := NoCharts;
    if chartFiles != [] {
      charts := ChooseBestCompact(chartFiles);
    }
    r := Ok(TickerPayload(t, metrics, charts));
  }

  /** The loop over the sorted tickers in `main`: it stops at the first ticker whose metrics raise. */
  method BuildTickersPayload(idx: Json, ghost paths: seq<string>, compacts: map<string, seq<string>>, tickers: seq<string>)
    returns (r: Result<seq<TickerPayload>>)
    requires BucketsOf(paths, compacts)
    ensures r.Err? <==> exists j :: 0 <= j < |tickers| && MetricsFail(idx, tickers[j])
    ensures r.Ok? ==> |r.value| == |tickers|
    ensures r.Ok? ==> forall j :: 0 <= j < |tickers| ==> r.value[j].symbol == tickers[j] && r.value[j] == EntryOf(idx, paths, tickers[j])
  {
    var payload: seq<TickerPayload> := [];
    var i := 0;
    while i < |tickers|
      invariant 0 <= i <= |tickers|
      invariant |payload| == i
      invariant forall j :: 0 <= j < i ==> payload[j].symbol == tickers[j] && payload[j] == EntryOf(idx, paths, tickers[j])
      invariant forall j :: 0 <= j < i ==> !MetricsFail(idx, tickers[j])
    {
      var entry := TickerEntry(idx, paths, compacts, tickers[i]);
      if entry.Err? {
        return Err(entry.error);
      }
      payload := payload + [entry.value];
      i := i + 1;
    }
    return Ok(payload);
  }

  /**
   * The "tickers" list of the feed: one entry per ticker of the universe, in
   * ascending order of symbol, each the reference entry of its symbol.
   */
  ghost predicate FeedTickers(idx: Json, paths: seq<string>, ts: seq<TickerPayload>)
    requires IndexTickers(idx).Some?
  {
    && (forall i, j :: 0 <= i < j < |ts| ==> Less(ts[i].symbol, ts[j].symbol))
    && (forall t :: InUniverse(idx, paths, t) <==> exists i :: 0 <= i < |ts| && ts[i].symbol == t)
    && (forall i :: 0 <= i < |ts| ==> ts[i] == EntryOf(idx, paths, ts[i].symbol))
  }

  /** The entries built for the sorted universe form the feed's "tickers" list. */
  lemma EntriesFormFeed(idx: Json, paths: seq<string>, tickers: seq<string>, ts: seq<TickerPayload>)
    requires IndexTickers(idx).Some?
    requires forall i, j :: 0 <= i < j < |tickers| ==> Less(tickers[i], tickers[j])
    requires forall t :: InUniverse(idx, paths, t) <==> t in tickers
    requires |ts| == |tickers|
    requires forall j :: 0 <= j < |tickers| ==> ts[j].symbol == tickers[j] && ts[j] == EntryOf(idx, paths, tickers[j])
    ensures FeedTickers(idx, paths, ts)
  {
    forall t | InUniverse(idx, paths, t)
      ensures exists i :: 0 <= i < |ts| && ts[i].symbol == t
    {
      var j :| 0 <= j < |tickers| && tickers[j] == t;
      assert ts[j].symbol == t;
    }
    forall i | 0 <= i < |ts|
      ensures InUniverse(idx, paths, ts[i].symbol)
    {
      assert tickers[i] in tickers;
    }
  }

  /**
   * `main` of the exporter. `indexDoc`, `filelistDoc` and `newsDoc` are the
   * parsed files (JNull when missing or invalid) and `generatedUtc` the clock
   * reading. The tickers are the union of the index's assets and the chart
   * buckets, in ascending order; the run fails with AttributeError when the
   * assets or the metrics of one ticker cannot be read as dicts.
   */
  method ExportFeed(indexDoc: Json, filelistDoc: Json, newsDoc: Json, generatedUtc: string) returns (r: Result<Feed>)
    ensures var idx := Or(indexDoc, JObj(map[])); var paths := NormalizedPaths(Or(filelistDoc, JArr([])));
      r.Err? <==> (IndexTickers(idx).None? || exists t :: InUniverse(idx, paths, t) && MetricsFail(idx, t))
    ensures r.Ok? ==> r.value.spec == "chatgpt-feed-v1" && r.value.generatedUtc == generatedUtc && r.value.mirrors == Mirrors
    ensures r.Ok? ==> var idx := Or(indexDoc, JObj(map[])); var paths := NormalizedPaths(Or(filelistDoc, JArr([])));
      IndexTickers(idx).Some? && FeedTickers(idx, paths, r.value.tickers)
    ensures r.Ok? ==> r.value.news == NewsPayload(NormalizeNewsContainer(newsDoc))
  {
    var idx := Or(indexDoc, JObj(map[]));
    var fl := Or(filelistDoc, JArr([]));
    var compacts := CollectCompactsByTicker(fl);
    ghost var paths := NormalizedPaths(fl);
    assert BucketsOf(paths, compacts);

    var indexTickers := IndexTickers(idx);
    if indexTickers.None? {
      return Err("AttributeError");
    }
    var tickers := SortedFromSet(indexTickers.value + compacts.Keys);
    assert forall t :: InUniverse(idx, paths, t) <==> t in tickers;
    var payload := BuildTickersPayload(idx, paths, compacts, tickers);
    if payload.Err? {
      ghost var j :| 0 <= j < |tickers| && MetricsFail(idx, tickers[j]);
      assert InUniverse(idx, paths, tickers[j]);
      return Err(payload.error);
    }
    forall t | InUniverse(idx, paths, t)
      ensures !MetricsFail(idx, t)
    {
      var j :| 0 <= j < |tickers| && tickers[j] == t;
    }
    EntriesFormFeed(idx, paths, tickers, payload.value);
    var news := BuildNewsPayload(NormalizeNewsContainer(newsDoc));
    r := Ok(Feed("chatgpt-feed-v1", generatedUtc, Mirrors, payload.value, news));
  }
}
