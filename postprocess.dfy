/**
 * The report builders of the post-processing step: reading the index
 * document, normalising each timeframe, and recomputing the 52-week flags
 * with their 0.1% tolerance band.
 */
module Postprocess {
  import opened Wrappers
  import opened JsonValues
  import opened Text
  import opened StrOrder

  // ---------------------------------------------------------------------------
  // `load_json_file`.
  // ---------------------------------------------------------------------------

  /**
   * `load_json_file(path)`: a missing file, a file holding only whitespace
   * and text that does not parse each stop the program; `parse` is
   * `json.loads`.
   */
  function LoadJsonFile(files: map<string, string>, path: string, parse: string -> Option<Json>): (r: Result<Json>)
    ensures path !in files ==> r == Err("MISSING")
    ensures path in files && Strip(files[path]) == "" ==> r == Err("EMPTY")
    ensures path in files && Strip(files[path]) != "" ==>
      (r.Ok? <==> parse(files[path]).Some?) && (r.Ok? ==> r.value == parse(files[path]).value)
    ensures r.Err? ==> r.error in {"MISSING", "EMPTY", "INVALID JSON"}
  {
    if path !in files then Err("MISSING")
    else if Strip(files[path]) == "" then Err("EMPTY")
    else
      var parsed := parse(files[path]);
      if parsed.None? then Err("INVALID JSON") else Ok(parsed.value)
  }

  // ---------------------------------------------------------------------------
  // `_bool_to_ja_nei` and `_tf`.
  // ---------------------------------------------------------------------------

  /** `_bool_to_ja_nei`: only the booleans themselves map to a word; 1, 0 and None do not. */
  function BoolToJaNei(v: Json): (r: string)
    ensures r == "Ja" <==> v == JBool(true)
    ensures r == "Nei" <==> v == JBool(false)
    ensures r == "" <==> !v.JBool?
  {
    if v == JBool(true) then "Ja" else if v == JBool(false) then "Nei" else ""
  }

  /** The normalised fields of one timeframe. */
  datatype TfRecord = TfRecord(
    last: Json, sma36: Json, closeAboveSma36: Json, distTo36MA: Json,
    rsi14: Json, macd: Json, macdSignal: Json, macdHist: Json, macdCross: Json)

  /** The frame as a dict: a non-dict frame is treated as `{}`. */
  function FrameFields(frame: Json): map<string, Json> {
    if frame.JObj? then frame.fields else map[]
  }

  /**
   * `_tf(frame)`: `last` and `sma36` kept only when numeric, the relative
   * distance only when both are numeric and `sma36` is non-zero, every other
   * field copied.
   */
  function Tf(frame: Json): (r: TfRecord)
    ensures var m := FrameFields(frame);
      && (IsNumber(Field(m, "last")) ==> r.last == Field(m, "last"))
      && (!IsNumber(Field(m, "last")) ==> r.last == JNull)
      && (IsNumber(Field(m, "sma36")) ==> r.sma36 == Field(m, "sma36"))
      && (!IsNumber(Field(m, "sma36")) ==> r.sma36 == JNull)
    ensures var m := FrameFields(frame); var last := Field(m, "last"); var sma := Field(m, "sma36");
      && (r.distTo36MA != JNull <==> IsNumber(last) && IsNumber(sma) && Truthy(sma))
      && (r.distTo36MA != JNull ==>
            r.distTo36MA.JNum? && AsFloat(sma) != Fin(0.0)
            && r.distTo36MA.x == RelDist(AsFloat(last), AsFloat(sma)))
    ensures var m := FrameFields(frame);
      && r.closeAboveSma36 == Field(m, "close_above_sma36") && r.rsi14 == Field(m, "rsi14")
      && r.macd == Field(m, "macd") && r.macdSignal == Field(m, "macd_signal")
      && r.macdHist == Field(m, "macd_hist") && r.macdCross == Field(m, "macd_cross")
  {
    var m := FrameFields(frame);
    var last := Field(m, "last");
    var sma := Field(m, "sma36");
    var dist := if IsNumber(last) && IsNumber(sma) && Truthy(sma) then FromFloat(RelDist(AsFloat(last), AsFloat(sma))) else JNull;
    TfRecord(
      if IsNumber(last) then last else JNull,
      if IsNumber(sma) then sma else JNull,
      Field(m, "close_above_sma36"),
      dist,
      Field(m, "rsi14"),
      Field(m, "macd"),
      Field(m, "macd_signal"),
      Field(m, "macd_hist"),
      Field(m, "macd_cross"))
  }

  /** A frame that is not a dict normalises like an empty one: every field None. */
  lemma TfNonDict(frame: Json)
    requires !frame.JObj?
    ensures Tf(frame) == TfRecord(JNull, JNull, JNull, JNull, JNull, JNull, JNull, JNull, JNull)
  {
  }

  /** A zero moving average never yields a distance, whatever `last` is. */
  lemma TfZeroSma(frame: Json)
    requires frame.JObj? && "sma36" in frame.fields && frame.fields["sma36"] in {JNum(Fin(0.0)), JBool(false)}
    ensures Tf(frame).distTo36MA == JNull
  {
  }

  // ---------------------------------------------------------------------------
  // `build_assets`.
  // ---------------------------------------------------------------------------

  /** The four normalised timeframes; the record always has exactly these. */
  datatype Frames = Frames(hourly: TfRecord, daily: TfRecord, weekly: TfRecord, monthly: TfRecord)

  /** One record of the report. */
  datatype AssetRow = AssetRow(
    ticker: string,
    is52wHigh: Json, is52wLow: Json, high52w: Json, low52w: Json,
    distTo36WMA: Json, distTo36MMA: Json, weeklyCloseCountAbove36WMA: Json,
    gdxGldRatioVs50dma: Json, silSlvRatioVs50dma: Json, vol20UpOk: Json,
    frames: Frames)

  /** `_tf(_get(a, "frames", name, default={}))`. */
  function FrameOf(a: map<string, Json>, name: string): TfRecord {
    Tf(Lookup(JObj(a), ["frames", name], JObj(map[])))
  }

  /** The price the flags use: the numeric daily `last`, else the numeric top-level `last`, else None. */
  function LastOf(daily: TfRecord, a: map<string, Json>): (r: Json)
    ensures IsNumber(daily.last) ==> r == daily.last
    ensures !IsNumber(daily.last) && IsNumber(Field(a, "last")) ==> r == Field(a, "last")
    ensures !IsNumber(daily.last) && !IsNumber(Field(a, "last")) ==> r == JNull
  {
    if IsNumber(daily.last) then daily.last
    else if IsNumber(Field(a, "last")) then Field(a, "last")
    else JNull
  }

  /**
   * `last >= hi52 * 0.999`, or None unless both are numeric; a NaN operand
   * gives False, an infinite close is at or above every high, and every
   * close is at or above an infinitely low high.
   */
  function Is52wHigh(last: Json, hi52: Json): (r: Json)
    ensures r == JNull <==> !(IsNumber(last) && IsNumber(hi52))
    ensures r != JNull ==> r.JBool? && (r.b <==>
      var l, h := AsFloat(last), AsFloat(hi52);
      || (l.Fin? && h.Fin? && l.v >= h.v * 0.999)
      || (l == Inf(false) && !h.NaN?)
      || (h == Inf(true) && !l.NaN?))
  {
    if IsNumber(last) && IsNumber(hi52) then JBool(Ge(AsFloat(last), Mul(AsFloat(hi52), 0.999))) else JNull
  }

  /**
   * `last <= lo52 * 1.001`, or None unless both are numeric; a NaN operand
   * gives False, and the infinities compare as in `Is52wHigh`.
   */
  function Is52wLow(last: Json, lo52: Json): (r: Json)
    ensures r == JNull <==> !(IsNumber(last) && IsNumber(lo52))
    ensures r != JNull ==> r.JBool? && (r.b <==>
      var l, m := AsFloat(last), AsFloat(lo52);
      || (l.Fin? && m.Fin? && l.v <= m.v * 1.001)
      || (l == Inf(true) && !m.NaN?)
      || (m == Inf(false) && !l.NaN?))
  {
    if IsNumber(last) && IsNumber(lo52) then JBool(Le(AsFloat(last), Mul(AsFloat(lo52), 1.001))) else JNull
  }

  /** Within 0.1% below a positive 52-week high counts as at the high. */
  lemma HighToleranceBand(last: real, hi: real)
    requires hi > 0.0 && last >= hi - hi / 1000.0
    ensures Is52wHigh(JNum(Fin(last)), JNum(Fin(hi))) == JBool(true)
  {
  }

  /** Further than 0.1% below the high does not: 190.2 against a high of 192.0 is not a 52-week high. */
  lemma HighOutsideBand()
    ensures Is52wHigh(JNum(Fin(190.2)), JNum(Fin(192.0))) == JBool(false)
  {
  }

  /** Within 0.1% above a positive 52-week low counts as at the low. */
  lemma LowToleranceBand(last: real, lo: real)
    requires lo > 0.0 && last <= lo + lo / 1000.0
    ensures Is52wLow(JNum(Fin(last)), JNum(Fin(lo))) == JBool(true)
  {
  }

  /** The record `build_assets` emits for one ticker whose entry is a dict. */
  function AssetOf(ticker: string, a: map<string, Json>): (r: AssetRow)
    ensures r.ticker == ticker
    ensures r.frames == Frames(FrameOf(a, "hourly"), FrameOf(a, "daily"), FrameOf(a, "weekly"), FrameOf(a, "monthly"))
    ensures var last := LastOf(r.frames.daily, a);
      r.is52wHigh == Is52wHigh(last, Field(a, "52w_high")) && r.is52wLow == Is52wLow(last, Field(a, "52w_low"))
    ensures r.high52w == Field(a, "52w_high") && r.low52w == Field(a, "52w_low")
    ensures r.distTo36WMA == Field(a, "dist_to_36WMA") && r.distTo36MMA == Field(a, "dist_to_36MMA")
    ensures r.weeklyCloseCountAbove36WMA == Field(a, "weekly_close_count_above_36WMA")
    ensures r.gdxGldRatioVs50dma == Field(a, "gdx_gld_ratio_vs_50dma")
    ensures r.silSlvRatioVs50dma == Field(a, "sil_slv_ratio_vs_50dma")
    ensures r.vol20UpOk == Field(a, "vol20_up_ok")
  {
    var frames := Frames(FrameOf(a, "hourly"), FrameOf(a, "daily"), FrameOf(a, "weekly"), FrameOf(a, "monthly"));
    var last := LastOf(frames.daily, a);
    AssetRow(
      ticker,
      Is52wHigh(last, Field(a, "52w_high")),
      Is52wLow(last, Field(a, "52w_low")),
      Field(a, "52w_high"),
      Field(a, "52w_low"),
      Field(a, "dist_to_36WMA"),
      Field(a, "dist_to_36MMA"),
      Field(a, "weekly_close_count_above_36WMA"),
      Field(a, "gdx_gld_ratio_vs_50dma"),
      Field(a, "sil_slv_ratio_vs_50dma"),
      Field(a, "vol20_up_ok"),
      frames)
  }

  /**
   * `_get(idx, "summary", "assets", default={}) or {}` as a dict, or None
   * when it is a truthy non-dict whose `.items()` raises.
   */
  function AssetsIn(idx: Json): Option<map<string, Json>> {
    DictOrEmpty(Lookup(idx, ["summary", "assets"], JObj(map[])))
  }

  /**
   * Rows built from a dict of dicts: one per key, in ascending key order,
   * each the image under `f` of its key and that key's dict.
   */
  ghost predicate SortedImage<R>(m: map<string, Json>, rows: seq<R>, key: R -> string, f: (string, map<string, Json>) -> R) {
    && |rows| == |m.Keys|
    && (forall t :: t in m <==> exists i :: 0 <= i < |rows| && key(rows[i]) == t)
    && (forall i, j :: 0 <= i < j < |rows| ==> Less(key(rows[i]), key(rows[j])))
    && (forall i :: 0 <= i < |rows| ==>
          (key(rows[i]) in m && m[key(rows[i])].JObj? && rows[i] == f(key(rows[i]), m[key(rows[i])].fields)))
  }

  /** Some key's value is not a dict, so `a.get(...)` raises. */
  ghost predicate HasNonDictEntry(m: map<string, Json>) {
    exists t :: t in m && !m[t].JObj?
  }

  /**
   * `for t, a in sorted(m.items())`, building one row per entry and raising
   * AttributeError at the first entry that is not a dict.
   */
  method MapSortedDicts<R>(m: map<string, Json>, key: R -> string, f: (string, map<string, Json>) -> R)
    returns (r: Result<seq<R>>)
    requires forall t, a :: key(f(t, a)) == t
    ensures r.Err? <==> HasNonDictEntry(m)
    ensures r.Err? ==> r.error == "AttributeError"
    ensures r.Ok? ==> SortedImage(m, r.value, key, f)
  {
    var tickers := SortedFromSet(m.Keys);
    var out: seq<R> := [];
    var i := 0;
    while i < |tickers|
      invariant 0 <= i <= |tickers|
      invariant |out| == i
      invariant forall j :: 0 <= j < i ==> m[tickers[j]].JObj? && out[j] == f(tickers[j], m[tickers[j]].fields)
    {
      var a := m[tickers[i]];
      if !a.JObj? {
        assert HasNonDictEntry(m);
        return Err("AttributeError");
      }
      out := out + [f(tickers[i], a.fields)];
      i := i + 1;
    }
    assert forall i :: 0 <= i < |out| ==> key(out[i]) == tickers[i];
    forall t | t in m ensures m[t].JObj? && exists i :: 0 <= i < |out| && key(out[i]) == t {
      var j :| 0 <= j < |tickers| && tickers[j] == t;
      assert key(out[j]) == t;
    }
    r := Ok(out);
  }

  /** The ticker a record is for. */
  function TickerOf(row: AssetRow): string { row.ticker }

  /**
   * `build_assets(idx)`: one record per ticker in ascending ticker order;
   * AttributeError when the assets value is a truthy non-dict or an entry
   * is not a dict.
   */
  method BuildAssets(idx: Json) returns (r: Result<seq<AssetRow>>)
    ensures r.Err? <==> AssetsIn(idx).None? || HasNonDictEntry(AssetsIn(idx).value)
    ensures r.Err? ==> r.error == "AttributeError"
    ensures r.Ok? ==> SortedImage(AssetsIn(idx).value, r.value, TickerOf, AssetOf)
  {
    var assets := AssetsIn(idx);
    if assets.None? {
      return Err("AttributeError");
    }
    r := MapSortedDicts(assets.value, TickerOf, AssetOf);
  }
}
