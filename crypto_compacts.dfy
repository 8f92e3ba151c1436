/**
 * The crypto augmentation step: for each crypto ticker with price data, build
 * an index entry (52-week range, distances to the 36-week and 36-month
 * moving averages, the weekly run above the 36-week average and the three
 * timeframe blocks), draw its compact chart and merge the entry into the
 * ticker's record in `docs/index.json`, which is rewritten only when some
 * ticker got data. The indicator series themselves are given.
 */
module CryptoCompacts {
  import opened Wrappers
  import opened JsonValues
  import opened Text
  import opened FileStore
  import Export

  /** `INDEX` and `CHARTS`. */
  const IndexPath: string := "docs/index.json"
  const ChartsDir: string := "docs/charts"

  /** `CRYPTOS`. */
  const Cryptos: seq<string> := ["BTC-USD", "ETH-USD"]

  /** One row of a price frame with its indicator columns. */
  datatype Bar = Bar(close: Float, sma36: Float, rsi14: Float, macd: Float, signal: Float, hist: Float)

  /**
   * What `get_tf_data` yields: the daily, weekly and monthly rows, and the
   * 252-row rolling maximum and minimum of the daily close at the last row.
   */
  datatype TfData = TfData(d: seq<Bar>, w: seq<Bar>, m: seq<Bar>, high52: Float, low52: Float)

  // ---------------------------------------------------------------------------
  // weekly_close_count_above_36WMA
  // ---------------------------------------------------------------------------

  /** `(w["Close"] > w["SMA36"]).fillna(False)`: a comparison with NaN is False. */
  function AboveFlags(w: seq<Bar>): (r: seq<bool>)
    ensures |r| == |w|
    ensures forall i :: 0 <= i < |w| ==> (r[i] <==> Gt(w[i].close, w[i].sma36))
  {
    seq(|w|, i requires 0 <= i < |w| => Gt(w[i].close, w[i].sma36))
  }

  /** The length of the trailing run of True. */
  function TrailingRun(xs: seq<bool>): (n: nat)
    ensures n <= |xs|
    ensures forall i :: |xs| - n <= i < |xs| ==> xs[i]
    ensures n < |xs| ==> !xs[|xs| - 1 - n]
    decreases |xs|
  {
    if xs == [] || !xs[|xs| - 1] then 0 else TrailingRun(xs[..|xs| - 1]) + 1
  }

  /** The three facts of `TrailingRun`'s contract determine it. */
  lemma TrailingRunUnique(xs: seq<bool>, n: nat)
    requires n <= |xs|
    requires forall i :: |xs| - n <= i < |xs| ==> xs[i]
    requires n < |xs| ==> !xs[|xs| - 1 - n]
    ensures n == TrailingRun(xs)
  {
    var m := TrailingRun(xs);
    if n < |xs| {
      assert !xs[|xs| - 1 - n];
    }
    if m < |xs| {
      assert !xs[|xs| - 1 - m];
    }
  }

  /** The run is empty exactly when the list is or ends in False, and covers the list exactly when all are True. */
  lemma TrailingRunEnds(xs: seq<bool>)
    ensures TrailingRun(xs) == 0 <==> xs == [] || !xs[|xs| - 1]
    ensures TrailingRun(xs) == |xs| <==> forall i :: 0 <= i < |xs| ==> xs[i]
  {
    if TrailingRun(xs) < |xs| {
      assert !xs[|xs| - 1 - TrailingRun(xs)];
    }
  }

  /** `weekly_close_count_above_36WMA(w)`: counts back from the last week and stops at the first False. */
  method WeeklyCloseCountAbove(w: seq<Bar>) returns (cnt: nat)
    ensures cnt == TrailingRun(AboveFlags(w))
  {
    var above := AboveFlags(w);
    cnt := 0;
    var i := |above|;
    while i > 0
      invariant 0 <= i <= |above| && cnt == |above| - i
      invariant forall k :: i <= k < |above| ==> above[k]
    {
      if above[i - 1] {
        cnt := cnt + 1;
        i := i - 1;
      } else {
        break;
      }
    }
    TrailingRunUnique(above, cnt);
  }

  // ---------------------------------------------------------------------------
  // upsert_index_for
  // ---------------------------------------------------------------------------

  /** The distance to a 36-period average: None when the average is NaN or 0. */
  function Dist(close: Float, sma: Float): (r: Json)
    ensures r == JNull <==> sma == NaN || sma == Fin(0.0)
    ensures r != JNull ==> r.JNum? && (r.x.Fin? <==> close.Fin? && sma.Fin?)
    ensures r != JNull ==> (r.x.NaN? <==> close.NaN? || sma.Inf?)
    ensures r != JNull && r.x.Fin? ==> r.x.v * sma.v == close.v - sma.v
  {
    if sma.NaN? || sma == Fin(0.0) then JNull else JNum(RelDist(close, sma))
  }

  /** A close above a positive finite average is a positive distance, plus infinity for an infinite close. */
  lemma DistPositiveAbove(close: Float, sma: Float)
    requires Gt(close, sma) && Gt(sma, Fin(0.0)) && sma.Fin?
    ensures Dist(close, sma).JNum? && Gt(Dist(close, sma).x, Fin(0.0))
    ensures close.Fin? ==> Dist(close, sma).x.Fin? && Dist(close, sma).x.v > 0.0
    ensures close.Inf? ==> Dist(close, sma).x == Inf(false)
  {
    if close.Fin? {
      assert Dist(close, sma) == JNum(Fin((close.v - sma.v) / sma.v));
    }
  }

  /**
   * `macd_cross`: None for at most two rows, else whether the MACD was below
   * its signal at the previous row and is above it at the last row.
   */
  function MacdCross(s: seq<Bar>): (r: Json)
    ensures r == JNull <==> |s| <= 2
    ensures r != JNull ==> r.JBool?
    ensures |s| > 2 ==>
      (r == JBool(true) <==> Lt(s[|s| - 2].macd, s[|s| - 2].signal) && Gt(s[|s| - 1].macd, s[|s| - 1].signal))
  {
    if |s| > 2 then
      JBool(Lt(s[|s| - 2].macd, s[|s| - 2].signal) && Gt(s[|s| - 1].macd, s[|s| - 1].signal))
    else JNull
  }

  /** A cross at the last row rules out a cross one row earlier. */
  lemma NoCrossTwiceInARow(s: seq<Bar>)
    requires |s| > 3 && MacdCross(s) == JBool(true)
    ensures MacdCross(s[..|s| - 1]) == JBool(false)
  {
    var p := s[..|s| - 1];
    assert p[|p| - 1] == s[|s| - 2];
  }

  /** One timeframe block of the entry, read at the last row. */
  function FrameJson(s: seq<Bar>): Json
    requires s != []
  {
    var b := s[|s| - 1];
    JObj(map[
      "last" := JNum(b.close),
      "sma36" := JNum(b.sma36),
      "close_above_sma36" := JBool(Gt(b.close, b.sma36)),
      "rsi14" := JNum(b.rsi14),
      "macd" := JNum(b.macd),
      "macd_signal" := JNum(b.signal),
      "macd_hist" := JNum(b.hist),
      "macd_cross" := MacdCross(s)])
  }

  /** A block has its eight keys; `close_above_sma36` is the strict comparison at the last row. */
  lemma FrameShape(s: seq<Bar>)
    requires s != []
    ensures var r := FrameJson(s);
      && r.JObj? && r.fields.Keys == {"last", "sma36", "close_above_sma36", "rsi14", "macd", "macd_signal", "macd_hist", "macd_cross"}
      && r.fields["close_above_sma36"] == JBool(Gt(s[|s| - 1].close, s[|s| - 1].sma36))
      && r.fields["macd_cross"] == MacdCross(s)
  {
  }

  /** The keys of an entry. */
  const EntryKeys: set<string> := {"52w_high", "52w_low", "dist_to_36WMA", "dist_to_36MMA", "weekly_close_count_above_36WMA", "frames"}

  /**
   * `upsert_index_for(t, d, w, m)`: reading the last row of an empty frame
   * raises IndexError.
   */
  function EntryFor(data: TfData): (r: Result<map<string, Json>>)
    ensures r.Err? <==> data.d == [] || data.w == [] || data.m == []
  {
    if data.d == [] || data.w == [] || data.m == [] then Err("IndexError")
    else
      var wl := data.w[|data.w| - 1];
      var ml := data.m[|data.m| - 1];
      Ok(map[
        "52w_high" := JNum(data.high52),
        "52w_low" := JNum(data.low52),
        "dist_to_36WMA" := Dist(wl.close, wl.sma36),
        "dist_to_36MMA" := Dist(ml.close, ml.sma36),
        "weekly_close_count_above_36WMA" := JNum(Fin(TrailingRun(AboveFlags(data.w)) as real)),
        "frames" := JObj(map["daily" := FrameJson(data.d), "weekly" := FrameJson(data.w), "monthly" := FrameJson(data.m)])])
  }

  /**
   * An entry has exactly its six keys; the distances are guarded, the weekly
   * count is the trailing run, and `frames` holds the three blocks.
   */
  lemma EntryShape(data: TfData)
    requires EntryFor(data).Ok?
    ensures var r := EntryFor(data);
      && r.value.Keys == EntryKeys
      && r.value["dist_to_36WMA"] == Dist(data.w[|data.w| - 1].close, data.w[|data.w| - 1].sma36)
      && r.value["dist_to_36MMA"] == Dist(data.m[|data.m| - 1].close, data.m[|data.m| - 1].sma36)
      && r.value["weekly_close_count_above_36WMA"] == JNum(Fin(TrailingRun(AboveFlags(data.w)) as real))
      && r.value["frames"] == JObj(map["daily" := FrameJson(data.d), "weekly" := FrameJson(data.w), "monthly" := FrameJson(data.m)])
  {
  }

  // ---------------------------------------------------------------------------
  // The compact chart's file name.
  // ---------------------------------------------------------------------------

  /** `ticker.replace('/', '-')` changes every slash and nothing else. */
  lemma {:induction false} SlashesReplaced(t: string)
    ensures |ReplaceAll(t, "/", "-")| == |t|
    ensures forall i :: 0 <= i < |t| ==> ReplaceAll(t, "/", "-")[i] == if t[i] == '/' then '-' else t[i]
    decreases |t|
  {
    if t != [] {
      SlashesReplaced(t[1..]);
      if StartsWith(t, "/") {
        assert t[0] == '/';
      } else {
        assert t[0] != '/';
      }
    }
  }

  /** `f"{ticker.replace('/','-')}_daily_compact.png"`. */
  function CompactName(ticker: string): string {
    ReplaceAll(ticker, "/", "-") + "_daily_compact.png"
  }

  /** The chart name has no slash left, so it stays in the charts folder, and it ends in `_daily_compact.png`. */
  lemma CompactNameShape(ticker: string)
    ensures '/' !in CompactName(ticker)
    ensures EndsWith(CompactName(ticker), "_daily_compact.png")
  {
    SlashesReplaced(ticker);
    var stem := ReplaceAll(ticker, "/", "-");
    assert forall i :: 0 <= i < |stem| ==> stem[i] != '/';
    assert (stem + "_daily_compact.png")[|stem|..] == "_daily_compact.png";
  }

  /** Where the chart is saved. */
  function ChartPath(ticker: string): string {
    ChartsDir + "/" + CompactName(ticker)
  }

  /**
   * The exporter files the chart under `<ticker>_daily` (its bucket key runs
   * to the last underscore), not under the ticker itself.
   */
  lemma CompactNameBucket(ticker: string)
    requires ticker != []
    requires forall i :: 0 <= i < |ticker| ==> Export.TickerChar(ticker[i]) || ticker[i] == '/'
    ensures Export.TickerOf(CompactName(ticker)) == Some(ReplaceAll(ticker, "/", "-") + "_daily")
  {
    StemChars(ticker);
    CompactSplit(ticker);
    DailyBucket(ReplaceAll(ticker, "/", "-"));
  }

  lemma DailyBucket(stem: string)
    requires stem != [] && forall i :: 0 <= i < |stem| ==> Export.TickerChar(stem[i])
    ensures Export.TickerOf(stem + "_" + "daily" + "_compact.png") == Some(stem + "_daily")
  {
    DailyChars();
    Export.TickerOfChartName(stem, "daily");
    assert stem + "_" + "daily" == stem + "_daily";
  }

  lemma StemChars(ticker: string)
    requires forall i :: 0 <= i < |ticker| ==> Export.TickerChar(ticker[i]) || ticker[i] == '/'
    ensures |ReplaceAll(ticker, "/", "-")| == |ticker|
    ensures forall i :: 0 <= i < |ReplaceAll(ticker, "/", "-")| ==> Export.TickerChar(ReplaceAll(ticker, "/", "-")[i])
  {
    SlashesReplaced(ticker);
  }

  lemma DailyChars()
    ensures forall i :: 0 <= i < |"daily"| ==> Export.TickerChar("daily"[i]) && "daily"[i] != '_'
  {
  }

  lemma CompactSplit(ticker: string)
    ensures CompactName(ticker) == ReplaceAll(ticker, "/", "-") + "_" + "daily" + "_compact.png"
  {
  }

  // ---------------------------------------------------------------------------
  // main: the per-ticker loop.
  // ---------------------------------------------------------------------------

  /** `{**old, **entry}`: every key of `entry` takes its new value, the others keep theirs. */
  function MergeRecord(prev: map<string, Json>, entry: map<string, Json>): (r: map<string, Json>)
    ensures r.Keys == prev.Keys + entry.Keys
    ensures forall k :: k in entry ==> r[k] == entry[k]
    ensures forall k :: k in prev && k !in entry ==> r[k] == prev[k]
  {
    prev + entry
  }

  /**
   * `assets[t] = {**assets.get(t, {}), **entry}`: `assets` that is not a dict
   * fails at `.get`, a record that is not a dict fails at `**`.
   */
  function Upsert(assets: Json, t: string, entry: map<string, Json>): (r: Result<Json>)
    ensures r.Err? <==> !assets.JObj? || (t in assets.fields && !assets.fields[t].JObj?)
    ensures r.Ok? ==> r.value.JObj? && r.value.fields.Keys == assets.fields.Keys + {t}
    ensures r.Ok? ==> forall k :: k in assets.fields && k != t ==> r.value.fields[k] == assets.fields[k]
    ensures r.Ok? ==> r.value.fields[t] == JObj(MergeRecord(if t in assets.fields then assets.fields[t].fields else map[], entry))
  {
    if !assets.JObj? then Err("AttributeError")
    else
      var prev := if t in assets.fields then assets.fields[t] else JObj(map[]);
      if !prev.JObj? then Err("TypeError")
      else Ok(JObj(assets.fields[t := JObj(MergeRecord(prev.fields, entry))]))
  }

  /**
   * The outside world: price data per ticker (None when the download is
   * empty), the chart image drawn from the daily rows, JSON parsing and
   * dumping, and the local time stamp.
   */
  datatype CryptoEnv = CryptoEnv(
    data: string -> Option<TfData>,
    chart: (string, seq<Bar>) -> string,
    parse: string -> Option<Json>,
    dumps: Json -> string,
    now: string)

  /** The loop's state: the files, the assets, the `changed` flag and the exception that stopped the run, if any. */
  datatype State = State(files: map<string, string>, assets: Json, changed: bool, error: Option<string>)

  /** One iteration for ticker `t`. */
  function Apply(s: State, t: string, env: CryptoEnv): State {
    if s.error.Some? then s
    else match env.data(t)
      case None => s
      case Some(data) =>
        match EntryFor(data)
        case Err(e) => s.(error := Some(e))
        case Ok(entry) =>
          var files := s.files[ChartPath(t) := env.chart(t, data.d)];
          match Upsert(s.assets, t, entry)
          case Err(e) => State(files, s.assets, s.changed, Some(e))
          case Ok(a) => State(files, a, true, None)
  }

  /** The iterations for `ts` in order. */
  function ApplyAll(s: State, ts: seq<string>, env: CryptoEnv): State
    decreases |ts|
  {
    if ts == [] then s else Apply(ApplyAll(s, ts[..|ts| - 1], env), ts[|ts| - 1], env)
  }

  /** One iteration writes only its own chart file. */
  lemma ApplyFiles(s: State, t: string, env: CryptoEnv)
    ensures var s' := Apply(s, t, env);
      forall q :: q != ChartPath(t) ==> (q in s'.files <==> q in s.files) && (q in s.files ==> s'.files[q] == s.files[q])
  {
    if s.error.None? && env.data(t).Some? {
      var e := EntryFor(env.data(t).value);
      if e.Ok? {
        var up := Upsert(s.assets, t, e.value);
      }
    }
  }

  /** One iteration changes only its own ticker's record. */
  lemma ApplyAssets(s: State, t: string, env: CryptoEnv)
    requires s.assets.JObj?
    ensures var s' := Apply(s, t, env);
      && s'.assets.JObj?
      && forall k :: k != t ==> (k in s'.assets.fields <==> k in s.assets.fields) && (k in s.assets.fields ==> s'.assets.fields[k] == s.assets.fields[k])
  {
    if s.error.None? && env.data(t).Some? {
      var e := EntryFor(env.data(t).value);
      if e.Ok? {
        var up := Upsert(s.assets, t, e.value);
      }
    }
  }

  /** An iteration after an exception, or for a ticker without data, changes nothing. */
  lemma ApplyIdle(s: State, t: string, env: CryptoEnv)
    requires s.error.Some? || env.data(t).None?
    ensures Apply(s, t, env) == s
  {
  }

  /** An iteration that raises nothing sets `changed` exactly when its ticker had data. */
  lemma ApplyChanged(s: State, t: string, env: CryptoEnv)
    requires Apply(s, t, env).error.None?
    ensures s.error.None? && (Apply(s, t, env).changed <==> s.changed || env.data(t).Some?)
  {
  }

  /** Once an exception is raised, the later iterations do not happen. */
  lemma {:induction false} CrashedStays(s: State, ts: seq<string>, j: nat, env: CryptoEnv)
    requires j <= |ts| && ApplyAll(s, ts[..j], env).error.Some?
    ensures ApplyAll(s, ts, env) == ApplyAll(s, ts[..j], env)
    decreases |ts|
  {
    if j < |ts| {
      var init := ts[..|ts| - 1];
      assert init[..j] == ts[..j];
      CrashedStays(s, init, j, env);
    } else {
      assert ts[..j] == ts;
    }
  }

  /** The `for t in CRYPTOS` loop: chart files are written as it goes, and an exception ends it. */
  method UpdateAssets(disk: Disk, tickers: seq<string>, assets0: Json, env: CryptoEnv)
    returns (assets: Json, changed: bool, error: Option<string>)
    modifies disk
    ensures State(disk.files, assets, changed, error) == ApplyAll(State(old(disk.files), assets0, false, None), tickers, env)
  {
    ghost var s0 := State(disk.files, assets0, false, None);
    assets, changed, error := assets0, false, None;
    for i := 0 to |tickers|
      invariant State(disk.files, assets, changed, None) == ApplyAll(s0, tickers[..i], env)
    {
      assert tickers[..i + 1][..i] == tickers[..i];
      var t := tickers[i];
      var got := env.data(t);
      if got.Some? {
        var data := got.value;
        var entry := EntryFor(data);
        if entry.Err? {
          error := Some(entry.error);
          CrashedStays(s0, tickers, i + 1, env);
          return;
        }
        disk.WriteText(ChartPath(t), env.chart(t, data.d));
        var up := Upsert(assets, t, entry.value);
        if up.Err? {
          error := Some(up.error);
          CrashedStays(s0, tickers, i + 1, env);
          return;
        }
        assets := up.value;
        changed := true;
      }
    }
    assert tickers[..|tickers|] == tickers;
  }

  /** A ticker without data keeps its record, whatever the other iterations do. */
  lemma {:induction false} NoDataUntouched(s: State, ts: seq<string>, env: CryptoEnv, t: string)
    requires env.data(t).None? && s.assets.JObj?
    ensures ApplyAll(s, ts, env).assets.JObj?
    ensures t in ApplyAll(s, ts, env).assets.fields <==> t in s.assets.fields
    ensures t in s.assets.fields ==> ApplyAll(s, ts, env).assets.fields[t] == s.assets.fields[t]
    decreases |ts|
  {
    if ts != [] {
      NoDataUntouched(s, ts[..|ts| - 1], env, t);
      ApplyAssets(ApplyAll(s, ts[..|ts| - 1], env), ts[|ts| - 1], env);
    }
  }

  /** The loop sets `changed` exactly when some ticker got data (when no exception stopped it). */
  lemma {:induction false} ChangedIffData(s: State, ts: seq<string>, env: CryptoEnv)
    requires ApplyAll(s, ts, env).error.None?
    ensures ApplyAll(s, ts, env).changed <==> s.changed || exists i :: 0 <= i < |ts| && env.data(ts[i]).Some?
    decreases |ts|
  {
    if ts != [] {
      var init := ts[..|ts| - 1];
      ApplyChanged(ApplyAll(s, init, env), ts[|ts| - 1], env);
      ChangedIffData(s, init, env);
      if exists i :: 0 <= i < |init| && env.data(init[i]).Some? {
        var i :| 0 <= i < |init| && env.data(init[i]).Some?;
        assert ts[i] == init[i];
      }
      if exists i :: 0 <= i < |ts| && env.data(ts[i]).Some? {
        var i :| 0 <= i < |ts| && env.data(ts[i]).Some?;
        if i < |init| {
          assert init[i] == ts[i];
        }
      }
    }
  }

  /** The loop writes chart files only: every other path is as it was. */
  lemma {:induction false} OnlyChartsWritten(s: State, ts: seq<string>, env: CryptoEnv, q: string)
    requires forall t :: t in ts ==> q != ChartPath(t)
    ensures q in ApplyAll(s, ts, env).files <==> q in s.files
    ensures q in s.files ==> ApplyAll(s, ts, env).files[q] == s.files[q]
    decreases |ts|
  {
    if ts != [] {
      OnlyChartsWritten(s, ts[..|ts| - 1], env, q);
      assert ts[|ts| - 1] in ts;
      ApplyFiles(ApplyAll(s, ts[..|ts| - 1], env), ts[|ts| - 1], env);
    }
  }

  /** The index is not a chart path. */
  lemma IndexIsNoChart(t: string)
    ensures IndexPath != ChartPath(t)
  {
    assert IndexPath[5] == 'i';
    assert ChartPath(t)[5] == 'c';
  }

  // ---------------------------------------------------------------------------
  // main
  // ---------------------------------------------------------------------------

  /** What `main` reads before the loop. */
  datatype Loaded = Loaded(idx: map<string, Json>, summary: map<string, Json>, assets: Json)

  /**
   * A missing index stops with SystemExit, unparseable text with a decoding
   * error, and `idx.get("summary", {}).get("assets", {})` fails unless the
   * index and its summary are dicts.
   */
  function ReadIndex(files: map<string, string>, parse: string -> Option<Json>): (r: Result<Loaded>)
    ensures IndexPath !in files ==> r == Err("SystemExit")
    ensures r.Ok? ==> IndexPath in files && parse(files[IndexPath]) == Some(JObj(r.value.idx))
    ensures r.Ok? ==> ("summary" in r.value.idx ==> r.value.idx["summary"] == JObj(r.value.summary))
    ensures r.Ok? ==> ("summary" !in r.value.idx ==> r.value.summary == map[])
    ensures r.Ok? ==> r.value.assets == if "assets" in r.value.summary then r.value.summary["assets"] else JObj(map[])
  {
    if IndexPath !in files then Err("SystemExit")
    else match parse(files[IndexPath])
      case None => Err("JSONDecodeError")
      case Some(j) =>
        if !j.JObj? then Err("AttributeError")
        else
          var summary := if "summary" in j.fields then j.fields["summary"] else JObj(map[]);
          if !summary.JObj? then Err("AttributeError")
          else Ok(Loaded(j.fields, summary.fields,
                    if "assets" in summary.fields then summary.fields["assets"] else JObj(map[])))
  }

  /** The rewritten index: `summary.assets` replaced, the stamp set, everything else kept. */
  function NewIndex(l: Loaded, assets: Json, now: string): (idx: map<string, Json>)
    ensures idx.Keys == l.idx.Keys + {"summary", "generated_local"}
    ensures idx["summary"] == JObj(l.summary["assets" := assets]) && idx["generated_local"] == JStr(now)
    ensures forall k :: k in l.idx && k != "summary" && k != "generated_local" ==> idx[k] == l.idx[k]
  {
    l.idx["summary" := JObj(l.summary["assets" := assets])]["generated_local" := JStr(now)]
  }

  /**
   * `main()`: read the index, run the loop over `CRYPTOS`, and rewrite the
   * index only when some ticker got data.
   */
  method RunCrypto(disk: Disk, env: CryptoEnv) returns (r: Result<bool>)
    modifies disk
    ensures var pre := ReadIndex(old(disk.files), env.parse);
      pre.Err? ==> r == Err(pre.error) && disk.files == old(disk.files)
    ensures var pre := ReadIndex(old(disk.files), env.parse);
      pre.Ok? ==>
        var s := ApplyAll(State(old(disk.files), pre.value.assets, false, None), Cryptos, env);
        && (s.error.Some? ==> r == Err(s.error.value) && disk.files == s.files)
        && (s.error.None? && !s.changed ==> r == Ok(false) && disk.files == s.files)
        && (s.error.None? && s.changed ==>
              r == Ok(true) && disk.files == s.files[IndexPath := env.dumps(JObj(NewIndex(pre.value, s.assets, env.now)))])
  {
    var pre := ReadIndex(disk.files, env.parse);
    if pre.Err? {
      return Err(pre.error);
    }
    var assets, changed, error := UpdateAssets(disk, Cryptos, pre.value.assets, env);
    if error.Some? {
      return Err(error.value);
    }
    if changed {
      disk.WriteText(IndexPath, env.dumps(JObj(NewIndex(pre.value, assets, env.now))));
    }
    r := Ok(changed);
  }

  /**
   * The index file is left as it was unless the run succeeded with some
   * ticker's data, and then it holds the new index.
   */
  lemma IndexWrittenOnlyIfChanged(files: map<string, string>, env: CryptoEnv, l: Loaded)
    requires ReadIndex(files, env.parse) == Ok(l)
    ensures var s := ApplyAll(State(files, l.assets, false, None), Cryptos, env);
      IndexPath in s.files && s.files[IndexPath] == files[IndexPath]
    ensures var s := ApplyAll(State(files, l.assets, false, None), Cryptos, env);
      s.error.None? ==> (s.changed <==> exists i :: 0 <= i < |Cryptos| && env.data(Cryptos[i]).Some?)
  {
    var s0 := State(files, l.assets, false, None);
    forall t | t in Cryptos ensures IndexPath != ChartPath(t) {
      IndexIsNoChart(t);
    }
    OnlyChartsWritten(s0, Cryptos, env, IndexPath);
    if ApplyAll(s0, Cryptos, env).error.None? {
      ChangedIffData(s0, Cryptos, env);
    }
  }
}
