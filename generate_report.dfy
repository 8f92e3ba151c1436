/**
 * The decisions of the daily report generator: the run window, the
 * `ALLOWED_TICKERS` filter, file names for news images, the guarded
 * distances and MACD cross stored per asset, the asset summary loop and the
 * sorted chart file list. Downloads, indicators and plotting are given.
 */
module GenerateReport {
  import opened Wrappers
  import opened JsonValues
  import opened Text
  import opened StrOrder
  import opened FileStore
  import CryptoCompacts

  type Bar = CryptoCompacts.Bar

  /** `VERSION`. */
  const Version: string := "2025-09-14d"

  const RunModePath: string := "docs/run_mode.json"
  const HeartbeatPath: string := "docs/heartbeat.json"
  const PagePath: string := "docs/index.html"

  // ---------------------------------------------------------------------------
  // The run window.
  // ---------------------------------------------------------------------------

  /** `os.environ.get("FORCE_RUN", "false").lower() == "true"`. */
  predicate ForceRun(v: Option<string>) {
    Lower(v.GetOr("false")) == "true"
  }

  /** 19:45 to 19:59, or 20:00 to 20:10, local time. */
  predicate InWindow(hour: nat, minute: nat) {
    (hour == 19 && minute >= 45) || (hour == 20 && minute <= 10)
  }

  /** On a clock, the window is the 26 minutes from 19:45 through 20:10. */
  lemma WindowMinutes(hour: nat, minute: nat)
    requires hour < 24 && minute < 60
    ensures InWindow(hour, minute) <==> 19 * 60 + 45 <= hour * 60 + minute <= 20 * 60 + 10
  {
  }

  /** `{"force": ..., "now": ..., "version": ...}`. */
  function RunMode(force: bool, nowIso: string): Json {
    JObj(map["force" := JBool(force), "now" := JStr(nowIso), "version" := JStr(Version)])
  }

  /** `{"last_run_local": ..., "version": ...}`. */
  function Heartbeat(nowIso: string): Json {
    JObj(map["last_run_local" := JStr(nowIso), "version" := JStr(Version)])
  }

  /** The placeholder page written outside the window. */
  function WaitPage(nowIso: string): string {
    "<!doctype html><meta charset='utf-8'><title>Market Daily Report</title>"
    + "<h1>Market Daily Report</h1>"
    + "<p>Generert: " + nowIso + "</p>"
    + "<p>Full rapport genereres kl. 20:00 Europe/Oslo.</p>"
  }

  /**
   * The start of the script: record the run mode, and outside the window
   * (unless forced) write a heartbeat and the placeholder page and stop.
   */
  method Gate(disk: Disk, force: bool, hour: nat, minute: nat, nowIso: string, dumps: Json -> string) returns (full: bool)
    modifies disk
    ensures full <==> force || InWindow(hour, minute)
    ensures full ==> disk.files == old(disk.files)[RunModePath := dumps(RunMode(force, nowIso))]
    ensures !full ==> disk.files == old(disk.files)[RunModePath := dumps(RunMode(force, nowIso))]
      [HeartbeatPath := dumps(Heartbeat(nowIso))][PagePath := WaitPage(nowIso)]
  {
    disk.WriteText(RunModePath, dumps(RunMode(force, nowIso)));
    if !force && !InWindow(hour, minute) {
      disk.WriteText(HeartbeatPath, dumps(Heartbeat(nowIso)));
      disk.WriteText(PagePath, WaitPage(nowIso));
      return false;
    }
    full := true;
  }

  // ---------------------------------------------------------------------------
  // ALLOWED_TICKERS
  // ---------------------------------------------------------------------------

  /** `TICKERS`, in insertion order. */
  const Tickers: seq<string> := [
    "GLD", "SLV", "USO", "GDX", "GDXJ", "SIL", "SILJ",
    "URNM", "ACWI", "SPY", "HYG", "LQD", "BTC-USD", "ETH-USD"]

  /** `{s.strip() for s in allow.split(",") if s.strip()}`. */
  function Tokens(allow: string): (keep: set<string>)
    ensures forall k :: k in keep ==> k != [] && !IsSpace(k[0]) && !IsSpace(k[|k| - 1])
    ensures forall p :: p in SplitOn(allow, ',') && Strip(p) != [] ==> Strip(p) in keep
    ensures forall k :: k in keep ==> exists p :: p in SplitOn(allow, ',') && Strip(p) == k
  {
    StripShape();
    set p | p in SplitOn(allow, ',') && Strip(p) != [] :: Strip(p)
  }

  /** Stripped text does not begin or end with whitespace. */
  lemma StripShape()
    ensures forall p :: Strip(p) != [] ==> !IsSpace(Strip(p)[0]) && !IsSpace(Strip(p)[|Strip(p)| - 1])
  {
    forall p | Strip(p) != [] ensures !IsSpace(Strip(p)[0]) && !IsSpace(Strip(p)[|Strip(p)| - 1]) {
      var l := LStrip(p);
      assert Strip(p) == RStrip(l);
      assert RStrip(l)[0] == l[0];
    }
  }

  /** `[t for t in ALL if t.upper() in keep]`. */
  function KeepAllowed(all: seq<string>, keep: set<string>): (r: seq<string>)
    ensures |r| <= |all|
    decreases |all|
  {
    if all == [] then []
    else (if Upper(all[0]) in keep then [all[0]] else []) + KeepAllowed(all[1..], keep)
  }

  /** The filter keeps exactly the tickers whose upper case is allowed. */
  lemma {:induction false} KeepAllowedMembers(all: seq<string>, keep: set<string>)
    ensures forall t :: t in KeepAllowed(all, keep) <==> t in all && Upper(t) in keep
    decreases |all|
  {
    if all != [] {
      KeepAllowedMembers(all[1..], keep);
      assert all == [all[0]] + all[1..];
    }
  }

  /** When every ticker is allowed the list is unchanged, order included. */
  lemma {:induction false} KeepAllowedAll(all: seq<string>, keep: set<string>)
    requires forall i :: 0 <= i < |all| ==> Upper(all[i]) in keep
    ensures KeepAllowed(all, keep) == all
    decreases |all|
  {
    if all != [] {
      KeepAllowedAll(all[1..], keep);
      assert [all[0]] + all[1..] == all;
    }
  }

  /** A kept ticker is found in the filtered list, no later than in the input. */
  lemma {:induction false} KeepAllowedAt(all: seq<string>, keep: set<string>, j: nat) returns (q: nat)
    requires j < |all| && Upper(all[j]) in keep
    ensures q <= j && q < |KeepAllowed(all, keep)| && KeepAllowed(all, keep)[q] == all[j]
    decreases |all|
  {
    var rest := KeepAllowed(all[1..], keep);
    var h := if Upper(all[0]) in keep then [all[0]] else [];
    assert KeepAllowed(all, keep) == h + rest;
    if j == 0 {
      q := 0;
    } else {
      assert all[1..][j - 1] == all[j];
      var q' := KeepAllowedAt(all[1..], keep, j - 1);
      q := |h| + q';
    }
  }

  /** The filter keeps the relative order of what it keeps: it never puts a later ticker before an earlier one. */
  lemma {:induction false} KeepAllowedOrder(all: seq<string>, keep: set<string>, i: nat, j: nat) returns (p: nat, q: nat)
    requires i < j < |all| && Upper(all[i]) in keep && Upper(all[j]) in keep
    ensures p < q < |KeepAllowed(all, keep)|
    ensures KeepAllowed(all, keep)[p] == all[i] && KeepAllowed(all, keep)[q] == all[j]
    decreases |all|
  {
    var rest := KeepAllowed(all[1..], keep);
    var h := if Upper(all[0]) in keep then [all[0]] else [];
    assert KeepAllowed(all, keep) == h + rest;
    assert all[1..][j - 1] == all[j];
    if i == 0 {
      var q' := KeepAllowedAt(all[1..], keep, j - 1);
      p, q := 0, 1 + q';
    } else {
      assert all[1..][i - 1] == all[i];
      var p', q' := KeepAllowedOrder(all[1..], keep, i - 1, j - 1);
      p, q := |h| + p', |h| + q';
    }
  }

  /**
   * The `ALLOWED_TICKERS` step: an unset or blank variable leaves the list
   * alone; otherwise only tickers whose upper case is a listed token stay.
   */
  function AllowedFilter(all: seq<string>, allowVar: Option<string>): (r: seq<string>)
    ensures Strip(Upper(allowVar.GetOr(""))) == [] ==> r == all
    ensures Strip(Upper(allowVar.GetOr(""))) != [] ==>
      forall t :: t in r <==> t in all && Upper(t) in Tokens(Strip(Upper(allowVar.GetOr(""))))
  {
    var allow := Strip(Upper(allowVar.GetOr("")));
    if allow == [] then all
    else
      KeepAllowedMembers(all, Tokens(allow));
      KeepAllowed(all, Tokens(allow))
  }

  // ---------------------------------------------------------------------------
  // News image file names.
  // ---------------------------------------------------------------------------

  /** The class `[a-zA-Z0-9_-]`. */
  predicate SlugChar(c: char) { IsAsciiLetter(c) || IsDigit(c) || c == '_' || c == '-' }

  /** `safe_slug(s)`: each run outside the class becomes one `_`, cut to 80. */
  function SafeSlug(s: string): (r: string)
    ensures |r| <= 80
    ensures forall i :: 0 <= i < |r| ==> SlugChar(r[i])
    ensures r == [] <==> s == []
  {
    var u := ReplaceRuns(s, SlugChar, '_');
    ReplaceRunsChars(s, SlugChar, '_');
    var t := Take(u, 80);
    assert forall i :: 0 <= i < |t| ==> t[i] == u[i];
    t
  }

  /** Slugging a slug changes nothing. */
  lemma SafeSlugIdempotent(s: string)
    ensures SafeSlug(SafeSlug(s)) == SafeSlug(s)
  {
    var r := SafeSlug(s);
    ReplaceRunsFixed(r, SlugChar, '_');
  }

  /** Nothing but dots. */
  predicate OnlyDots(s: string) { forall i :: 0 <= i < |s| ==> s[i] == '.' }

  /**
   * `os.path.splitext(path)[1]`: from the last dot of the last path segment,
   * unless only dots precede that dot in the segment.
   */
  function SplitExt(path: string): (ext: string)
    ensures ext == [] || (ext[0] == '.' && '.' !in ext[1..] && '/' !in ext && EndsWith(path, ext))
  {
    var base := AfterLast(path, '/');
    var tail := AfterLast(base, '.');
    if |tail| < |base| && !OnlyDots(base[..|base| - |tail| - 1]) then
      ExtOfPath(path);
      ['.'] + tail
    else []
  }

  /** When the last segment has a dot, a dot and what follows the last one end the path and hold no other dot or slash. */
  lemma ExtOfPath(path: string)
    requires var base := AfterLast(path, '/'); |AfterLast(base, '.')| < |base|
    ensures var ext := ['.'] + AfterLast(AfterLast(path, '/'), '.');
      '.' !in ext[1..] && '/' !in ext && EndsWith(path, ext)
  {
    var base := AfterLast(path, '/');
    AfterLastSuffix(path, '/');
    AfterLastSuffix(base, '.');
    ExtShape(path, base, AfterLast(base, '.'));
  }

  /** A dot and the text after the last dot of the last segment: a dot-free, slash-free suffix of the path. */
  lemma ExtShape(path: string, base: string, tail: string)
    requires '/' !in base && EndsWith(path, base)
    requires '.' !in tail && |tail| < |base| && base[|base| - |tail| - 1] == '.' && EndsWith(base, tail)
    ensures var ext := ['.'] + tail; '.' !in ext[1..] && '/' !in ext && EndsWith(path, ext)
  {
    var ext := ['.'] + tail;
    assert ext[1..] == tail;
    assert EndsWith(base, ext) by {
      assert base[|base| - |ext|..] == [base[|base| - |ext|]] + base[|base| - |tail|..];
    }
    SuffixChars(base, ext, '/');
    SuffixOfSuffix(path, base, ext);
  }

  /** The extensions kept as they are. */
  predicate KnownExt(e: string) { e == ".jpg" || e == ".jpeg" || e == ".png" }

  /** `ext = splitext(path)[1].lower() or ".jpg"`, then `.jpg` unless it is a known one. */
  function ImageExt(urlPath: string): (ext: string)
    ensures KnownExt(ext)
  {
    var e := Lower(SplitExt(urlPath));
    if KnownExt(e) then e else ".jpg"
  }

  /** A known extension, in any letter case, is kept in lower case; any other is replaced by `.jpg`. */
  lemma ImageExtChoice(urlPath: string)
    ensures KnownExt(Lower(SplitExt(urlPath))) ==> ImageExt(urlPath) == Lower(SplitExt(urlPath))
    ensures !KnownExt(Lower(SplitExt(urlPath))) ==> ImageExt(urlPath) == ".jpg"
  {
  }

  /** A path without an extension gets `.jpg`. */
  lemma ImageExtMissing(urlPath: string)
    requires SplitExt(urlPath) == []
    ensures ImageExt(urlPath) == ".jpg"
  {
  }

  /** `f"news_{safe_slug(t)}{ext}"`: always inside the news folder. */
  function NewsImageName(title: string, urlPath: string): (name: string)
    ensures StartsWith(name, "news_")
    ensures '/' !in name
  {
    var slug := SafeSlug(title);
    var ext := ImageExt(urlPath);
    NoSlash(slug, ext);
    "news_" + slug + ext
  }

  lemma NoSlash(slug: string, ext: string)
    requires forall i :: 0 <= i < |slug| ==> SlugChar(slug[i])
    requires KnownExt(ext)
    ensures '/' !in "news_" + slug + ext && StartsWith("news_" + slug + ext, "news_")
  {
    var name := "news_" + slug + ext;
    forall i | 0 <= i < |name| ensures name[i] != '/' {
      if i < 5 {
      } else if i < 5 + |slug| {
        assert name[i] == slug[i - 5];
      } else {
        assert name[i] == ext[i - 5 - |slug|];
      }
    }
  }

  /** The extension of `<dir>/<stem>.<e>` is `.<e>` when `stem` does not start with a dot. */
  lemma SplitExtOf(dir: string, stem: string, e: string)
    requires stem != [] && stem[0] != '.' && '/' !in stem && '/' !in e && '.' !in e
    ensures SplitExt(dir + ['/'] + (stem + ['.'] + e)) == ['.'] + e
  {
    var base := stem + ['.'] + e;
    assert '/' !in base;
    AfterLastAt(dir, base, '/');
    AfterLastAt(stem, e, '.');
    SplitExtAt(dir + ['/'] + base, base, stem, e);
  }

  lemma SplitExtAt(path: string, base: string, stem: string, e: string)
    requires AfterLast(path, '/') == base && AfterLast(base, '.') == e
    requires base == stem + ['.'] + e && stem != [] && stem[0] != '.'
    ensures SplitExt(path) == ['.'] + e
  {
    assert base[..|base| - |e| - 1] == stem;
    assert !OnlyDots(stem);
  }

  /** An image at `<dir>/<stem>.jpg`, `.jpeg` or `.png` keeps its extension. */
  lemma ImageExtOf(dir: string, stem: string, e: string)
    requires stem != [] && stem[0] != '.' && '/' !in stem
    requires e == "jpg" || e == "jpeg" || e == "png"
    ensures ImageExt(dir + ['/'] + (stem + ['.'] + e)) == ['.'] + e
  {
    SplitExtOf(dir, stem, e);
    KnownDot(e);
    ImageExtKnown(dir + ['/'] + (stem + ['.'] + e), ['.'] + e);
  }

  lemma ImageExtKnown(urlPath: string, ext: string)
    requires SplitExt(urlPath) == ext && KnownExt(ext)
    ensures ImageExt(urlPath) == ext
  {
    KnownLower(ext);
    ImageExtChoice(urlPath);
  }

  lemma KnownLower(ext: string)
    requires KnownExt(ext)
    ensures Lower(ext) == ext
  {
  }

  lemma KnownDot(e: string)
    requires e == "jpg" || e == "jpeg" || e == "png"
    ensures KnownExt(['.'] + e)
  {
  }

  // ---------------------------------------------------------------------------
  // Per-asset numbers.
  // ---------------------------------------------------------------------------

  /** `pct(a, b)`: NaN when `b` is None or 0. */
  function Pct(a: Float, b: Option<Float>): (r: Float)
    ensures b.None? || b == Some(Fin(0.0)) ==> r == NaN
    ensures r.Fin? <==> a.Fin? && b.Some? && b.value.Fin? && b.value != Fin(0.0)
    ensures r.Fin? ==> r.v * b.value.v == a.v - b.value.v
  {
    if b.Some? && b.value != Fin(0.0) then RelDist(a, b.value) else NaN
  }

  /**
   * `dist_to_36WMA` / `dist_to_36MMA`: the distance of the frame's last close
   * to its 36-period average, stored as None whenever it is NaN, which is
   * when the close is NaN or the average is NaN, zero or infinite.
   */
  function DistTo(frame: seq<Bar>): (r: Json)
    ensures r != JNum(NaN)
    ensures r == JNull || r.JNum?
    ensures r.JNum? <==> (frame != [] && !frame[|frame| - 1].close.NaN? && frame[|frame| - 1].sma36.Fin?
                          && frame[|frame| - 1].sma36 != Fin(0.0))
    ensures r.JNum? ==> r.x == RelDist(frame[|frame| - 1].close, frame[|frame| - 1].sma36)
    ensures r.JNum? && r.x.Fin? ==> r.x.v * frame[|frame| - 1].sma36.v == frame[|frame| - 1].close.v - frame[|frame| - 1].sma36.v
  {
    if frame == [] then JNull
    else
      var b := frame[|frame| - 1];
      if b.sma36.NaN? then JNull
      else
        var p := Pct(b.close, Some(b.sma36));
        if p.NaN? then JNull else JNum(p)
  }

  /** `float(x) if notna(x) else None`: NaN is None, and a finite or infinite value is kept. */
  function NoneIfNaN(x: Float): (r: Json)
    ensures r != JNum(NaN)
    ensures !x.NaN? ==> r == JNum(x)
    ensures x.NaN? ==> r == JNull
  {
    if x.NaN? then JNull else JNum(x)
  }

  /**
   * The daily `macd_cross`: with at least two rows, whether MACD minus signal
   * is above 0 at the last row and at most 0 at the one before.
   */
  function DailyCross(s: seq<Bar>): (r: Json)
    ensures r == JNull <==> |s| < 2
    ensures |s| >= 2 ==> r == JBool(
      Gt(Sub(s[|s| - 1].macd, s[|s| - 1].signal), Fin(0.0)) && Le(Sub(s[|s| - 2].macd, s[|s| - 2].signal), Fin(0.0)))
  {
    if |s| >= 2 then
      var last := Sub(s[|s| - 1].macd, s[|s| - 1].signal);
      var prev := Sub(s[|s| - 2].macd, s[|s| - 2].signal);
      JBool(Gt(last, Fin(0.0)) && Le(prev, Fin(0.0)))
    else JNull
  }

  /**
   * Every cross the crypto step reports, the report step reports too; the
   * converse fails because the report step also counts a previous row where
   * MACD equals its signal.
   */
  lemma CrossesAgree(s: seq<Bar>)
    requires CryptoCompacts.MacdCross(s) == JBool(true)
    ensures DailyCross(s) == JBool(true)
  {
  }

  lemma CrossesDiffer()
    ensures var row := CryptoCompacts.Bar(Fin(1.0), Fin(1.0), Fin(50.0), Fin(0.0), Fin(0.0), Fin(0.0));
      var up := CryptoCompacts.Bar(Fin(1.0), Fin(1.0), Fin(50.0), Fin(1.0), Fin(0.0), Fin(1.0));
      DailyCross([row, row, up]) == JBool(true) && CryptoCompacts.MacdCross([row, row, up]) == JBool(false)
  {
  }

  /** What the downloads give for one symbol; an absent or empty frame is `[]`. */
  datatype Frames = Frames(daily: seq<Bar>, weekly: seq<Bar>, monthly: seq<Bar>, high52: Float, low52: Float)

  /** `summary["assets"][sym]`, written only when there are daily rows. */
  function AssetEntry(f: Frames): (r: Json)
    requires f.daily != []
    ensures r.JObj?
    ensures r.fields.Keys == {"last", "52w_high", "52w_low", "dist_to_36WMA", "dist_to_36MMA", "rsi14_last", "macd_cross"}
    ensures r.fields["last"] == JNum(f.daily[|f.daily| - 1].close)
    ensures r.fields["52w_high"] == JNum(f.high52) && r.fields["52w_low"] == JNum(f.low52)
    ensures r.fields["dist_to_36WMA"] == DistTo(f.weekly) && r.fields["dist_to_36MMA"] == DistTo(f.monthly)
    ensures r.fields["rsi14_last"] == NoneIfNaN(f.daily[|f.daily| - 1].rsi14)
    ensures r.fields["macd_cross"] == DailyCross(f.daily)
  {
    var d := f.daily[|f.daily| - 1];
    JObj(map[
      "last" := JNum(d.close),
      "52w_high" := JNum(f.high52),
      "52w_low" := JNum(f.low52),
      "dist_to_36WMA" := DistTo(f.weekly),
      "dist_to_36MMA" := DistTo(f.monthly),
      "rsi14_last" := NoneIfNaN(d.rsi14),
      "macd_cross" := DailyCross(f.daily)])
  }

  /** The asset records after the main loop has seen `syms`. */
  function Assets(syms: seq<string>, data: string -> Frames): map<string, Json>
    decreases |syms|
  {
    if syms == [] then map[]
    else
      var prev := Assets(syms[..|syms| - 1], data);
      var t := syms[|syms| - 1];
      if data(t).daily != [] then prev[t := AssetEntry(data(t))] else prev
  }

  /** The main loop over `ALL`, filling `summary["assets"]`. */
  method BuildAssets(syms: seq<string>, data: string -> Frames) returns (assets: map<string, Json>)
    ensures assets == Assets(syms, data)
  {
    assets := map[];
    for i := 0 to |syms|
      invariant assets == Assets(syms[..i], data)
    {
      assert syms[..i + 1][..i] == syms[..i];
      var sym := syms[i];
      var f := data(sym);
      if f.daily != [] {
        assets := assets[sym := AssetEntry(f)];
      }
    }
    assert syms[..|syms|] == syms;
  }

  /** A symbol has a record exactly when it has daily rows, and the record is built from its own data. */
  lemma {:induction false} AssetsKeys(syms: seq<string>, data: string -> Frames)
    ensures forall t :: t in Assets(syms, data) <==> t in syms && data(t).daily != []
    ensures forall t :: t in Assets(syms, data) ==> Assets(syms, data)[t] == AssetEntry(data(t))
    decreases |syms|
  {
    if syms != [] {
      AssetsKeys(syms[..|syms| - 1], data);
      assert syms == syms[..|syms| - 1] + [syms[|syms| - 1]];
    }
  }

  // ---------------------------------------------------------------------------
  // The chart file list.
  // ---------------------------------------------------------------------------

  /**
   * `sorted([f"charts/{fn}" for fn in os.listdir("docs/charts") if fn.endswith(".png")])`:
   * each PNG name once, prefixed, in ascending order.
   */
  method ChartList(names: set<string>) returns (files: seq<string>)
    ensures StrictlyAscending(files)
    ensures forall f :: f in files <==> exists n :: n in names && EndsWith(n, ".png") && f == "charts/" + n
    ensures |files| == |set n | n in names && EndsWith(n, ".png")|
  {
    var pngs := set n | n in names && EndsWith(n, ".png");
    var chosen := set n | n in pngs :: "charts/" + n;
    PrefixedCount(pngs, "charts/");
    files := SortedFromSet(chosen);
  }

  /** Prefixing is one-to-one, so it keeps the number of names. */
  lemma PrefixedCount(names: set<string>, p: string)
    ensures |set n | n in names :: p + n| == |names|
  {
    var f := (n: string) => p + n;
    forall a, b | a in names && b in names && f(a) == f(b) ensures a == b {
      assert a == f(a)[|p|..] && b == f(b)[|p|..];
    }
    InjectiveCount(names, f);
    assert (set n | n in names :: f(n)) == (set n | n in names :: p + n);
  }

  lemma {:induction false} InjectiveCount(names: set<string>, f: string -> string)
    requires forall a, b :: a in names && b in names && f(a) == f(b) ==> a == b
    ensures |set n | n in names :: f(n)| == |names|
    decreases |names|
  {
    if names != {} {
      var x :| x in names;
      var rest := names - {x};
      InjectiveCount(rest, f);
      assert (set n | n in names :: f(n)) == (set n | n in rest :: f(n)) + {f(x)};
      assert f(x) !in (set n | n in rest :: f(n));
    }
  }
}
