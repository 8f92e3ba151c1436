/**
 * The rows of the report table: one line of cells per record, in the
 * column order of the header.
 */
module TableRows {
  import opened JsonValues
  import opened Text
  import opened Postprocess
  import opened TableText
  import opened ReportTable

  /**
   * How values become cell text: `str` is Python's `str()` of a value and
   * `round` is `round(x, n)` followed by `str()`.
   */
  datatype Format = Format(str: Json -> string, round: (Float, nat) -> string)

  /** `_round(x, n)` inside an f-string: empty unless `x` is a number. */
  function RoundCell(x: Json, n: nat, fmt: Format): (r: string)
    ensures !IsNumber(x) ==> r == ""
  {
    if IsNumber(x) then fmt.round(AsFloat(x), n) else ""
  }

  /** The percentage cells: `_round((v or 0)*100, 2)` when `v` is a number, then `%`. */
  function PctCell(v: Json, fmt: Format): (r: string)
    ensures EndsWith(r, "%")
    ensures !IsNumber(v) ==> r == "%"
    ensures IsNumber(v) && Truthy(v) ==> r == fmt.round(Mul(AsFloat(v), 100.0), 2) + "%"
    ensures IsNumber(v) && !Truthy(v) ==> r == fmt.round(Fin(0.0), 2) + "%"
  {
    if IsNumber(v) then fmt.round(Mul(if Truthy(v) then AsFloat(v) else Fin(0.0), 100.0), 2) + "%" else "%"
  }

  /** `H` for a truthy high flag followed by `L` for a truthy low flag. */
  function FlagsCell(a: AssetRow): (r: string)
    ensures |r| <= 2
    ensures 'H' in r <==> Truthy(a.is52wHigh)
    ensures 'L' in r <==> Truthy(a.is52wLow)
    ensures Truthy(a.is52wHigh) ==> r[0] == 'H'
  {
    (if Truthy(a.is52wHigh) then "H" else "") + (if Truthy(a.is52wLow) then "L" else "")
  }

  /** The fifteen cells of a record's row, in column order: the ticker first. */
  function Cells(a: AssetRow, fmt: Format): (r: seq<string>)
    ensures |r| == 15 && r[0] == a.ticker
  {
    var f := a.frames;
    [a.ticker,
     FlagsCell(a),
     if Truthy(a.weeklyCloseCountAbove36WMA) then fmt.str(a.weeklyCloseCountAbove36WMA) else "",
     PctCell(a.distTo36WMA, fmt),
     PctCell(a.distTo36MMA, fmt),
     BoolToJaNei(f.hourly.closeAboveSma36),
     BoolToJaNei(f.daily.closeAboveSma36),
     BoolToJaNei(f.weekly.closeAboveSma36),
     BoolToJaNei(f.monthly.closeAboveSma36),
     RoundCell(f.daily.rsi14, 2, fmt),
     RoundCell(f.daily.macd, 3, fmt),
     BoolToJaNei(f.daily.macdCross),
     BoolToJaNei(a.gdxGldRatioVs50dma),
     BoolToJaNei(a.silSlvRatioVs50dma),
     BoolToJaNei(a.vol20UpOk)]
  }

  /** `<td>` cells on one line. */
  function TdCells(cells: seq<string>): (r: string)
    ensures cells != [] ==> StartsWith(r, "<td>" + cells[0] + "</td>")
    decreases |cells|
  {
    if cells == [] then "" else "<td>" + cells[0] + "</td>" + TdCells(cells[1..])
  }

  /** One body row, which opens with the record's ticker cell. */
  function Row(a: AssetRow, fmt: Format): (r: string)
    ensures StartsWith(r, "<tr><td>" + a.ticker + "</td>")
  {
    var cells := Cells(a, fmt);
    var tds := TdCells(cells);
    assert tds[..|"<td>" + a.ticker + "</td>"|] == "<td>" + a.ticker + "</td>";
    "<tr>" + tds + "</tr>"
  }

  /** The rendered rows of the records, in order. */
  function Rows(assets: seq<AssetRow>, fmt: Format): (r: seq<string>)
    ensures |r| == |assets|
  {
    seq(|assets|, i requires 0 <= i < |assets| => Row(assets[i], fmt))
  }

  /** No row holds marker text or a line break. */
  ghost predicate PlainRows(assets: seq<AssetRow>, fmt: Format) {
    forall i :: 0 <= i < |assets| ==>
      && Occurrences(Row(assets[i], fmt), TableStart) == 0
      && Occurrences(Row(assets[i], fmt), TableEnd) == 0
      && '\n' !in Row(assets[i], fmt)
  }

  /** Rows free of marker text make a fragment with one marker pair. */
  lemma RowsFramed(assets: seq<AssetRow>, gen: string, fmt: Format)
    requires PlainRows(assets, fmt) && '!' !in gen
    ensures WellFramed(TableHtml(Rows(assets, fmt), gen))
  {
    var rows := Rows(assets, fmt);
    assert forall i :: 0 <= i < |rows| ==> rows[i] == Row(assets[i], fmt);
    TableMarkers(rows, gen);
  }

  /** Rows without a `!` hold no marker text, so rows without a `!` or a line break are plain. */
  lemma RowsUnmarked(assets: seq<AssetRow>, fmt: Format)
    requires forall i :: 0 <= i < |assets| ==> '!' !in Row(assets[i], fmt) && '\n' !in Row(assets[i], fmt)
    ensures PlainRows(assets, fmt)
  {
    forall i | 0 <= i < |assets|
      ensures Occurrences(Row(assets[i], fmt), TableStart) == 0 && Occurrences(Row(assets[i], fmt), TableEnd) == 0
    {
      NoMarkers(Row(assets[i], fmt));
    }
  }

  /**
   * One body row per record, in input order: the rows that the fragment
   * holds between its opening and its closing (see `Framed`) split at line
   * breaks into exactly one line per record, the i-th opening with the
   * i-th ticker.
   */
  lemma RowsInOrder(assets: seq<AssetRow>, fmt: Format)
    requires PlainRows(assets, fmt) && assets != []
    ensures var body := Join(Rows(assets, fmt), "\n");
      && |SplitOn(body, '\n')| == |assets|
      && forall i :: 0 <= i < |assets| ==> StartsWith(SplitOn(body, '\n')[i], "<tr><td>" + assets[i].ticker + "</td>")
  {
    var rows := Rows(assets, fmt);
    assert forall i :: 0 <= i < |rows| ==> '\n' !in rows[i];
    FramedBody(rows);
  }

  /**
   * `build_table_html(assets, gen)`: the header, the rows of the records in
   * order joined by line breaks, and the footer stamped with `gen`. When no
   * row and not the stamp holds marker text, the fragment holds exactly one
   * start marker before exactly one end marker, and the text between the
   * header and the footer splits into exactly one row per record, in order.
   */
  method BuildTableHtml(assets: seq<AssetRow>, gen: string, fmt: Format) returns (html: string)
    ensures html == TableHtml(Rows(assets, fmt), gen)
    ensures PlainRows(assets, fmt) && '!' !in gen ==> WellFramed(html)
  {
    var rows := RenderRows(assets, a => Row(a, fmt));
    assert rows == Rows(assets, fmt);
    html := TableHtml(rows, gen);
    if PlainRows(assets, fmt) && '!' !in gen {
      RowsFramed(assets, gen, fmt);
    }
  }

  /**
   * The loop of `build_table_html` that appends one rendered row per
   * record, for any rendering of a record.
   */
  method RenderRows<T>(assets: seq<T>, render: T -> string) returns (rows: seq<string>)
    ensures |rows| == |assets|
    ensures forall i :: 0 <= i < |assets| ==> rows[i] == render(assets[i])
  {
    rows := [];
    for i := 0 to |assets|
      invariant |rows| == i
      invariant forall j :: 0 <= j < i ==> rows[j] == render(assets[j])
    {
      rows := rows + [render(assets[i])];
    }
  }
}
