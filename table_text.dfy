/**
 * The fixed text of the report table: the sentinel comments, the header
 * with its stylesheet and column titles, and the footer around the
 * generation stamp.
 *
 * Long literal texts are written as concatenations of short pieces, each
 * a function whose postcondition says it holds no `!`: the verifier checks
 * such a fact cheaply on a short literal and combines the facts across `+`.
 * No `!` means no sentinel comment, since both sentinels hold one.
 */
module TableText {
  const CommentOpen: string := "<!-- "
  const CommentClose: string := " -->"
  const StartName: string := "REPORT_TABLE_START"
  const EndName: string := "REPORT_TABLE_END"

  /** The sentinel comments. */
  const TableStart: string := CommentOpen + StartName + CommentClose
  const TableEnd: string := CommentOpen + EndName + CommentClose

  // Facts about the characters of the sentinels, one per lemma: each is
  // cheap on its own and costly when several share one proof.

  lemma StartNoNewline() ensures '\n' !in TableStart {}
  lemma EndNoNewline() ensures '\n' !in TableEnd {}
  lemma StartLacksD() ensures 'D' !in TableStart {}
  lemma EndLacksS() ensures 'S' !in TableEnd {}

  lemma MarkerChars()
    ensures '\n' !in TableStart && '\n' !in TableEnd
    ensures '!' in TableStart && '!' in TableEnd && '_' in TableStart && '_' in TableEnd
    ensures 'D' in TableEnd && 'D' !in TableStart
    ensures 'S' in TableStart && 'S' !in TableEnd
  {
    StartNoNewline();
    EndNoNewline();
    StartLacksD();
    EndLacksS();
    assert TableStart[1] == '!' && TableEnd[1] == '!' && TableStart[11] == '_' && TableEnd[11] == '_';
    assert TableEnd[20] == 'D' && TableStart[18] == 'S';
  }

  // ---------------------------------------------------------------------------
  // Column titles.
  // ---------------------------------------------------------------------------

  /** No title of the run holds a `!`. */
  predicate NoBangIn(titles: seq<string>) {
    forall i :: 0 <= i < |titles| ==> '!' !in titles[i]
  }

  /**
   * The column titles, in order: five with a line of their own, then the
   * four close-above-36 titles, the three daily indicator titles and the
   * ratio and volume titles.
   */
  function ColumnTitles(): (r: seq<string>)
    ensures |r| == 15 && NoBangIn(r)
  {
    [ "Ticker", "52w", "Uker ≥36WMA", "Dist 36WMA", "Dist 36MMA",
      "H ≥36", "D ≥36", "W ≥36", "M ≥36",
      "RSI14 (D)", "MACD (D)", "MACD cross (D)",
      "GDX/GLD&gt;50DMA", "SIL/SLV&gt;50DMA", "Vol20 up OK" ]
  }

  /** A run of the column titles, with no `!` in any of them. */
  function Titles(from: nat, to: nat): (r: seq<string>)
    requires from <= to <= 15
    ensures |r| == to - from && NoBangIn(r)
  {
    ColumnTitles()[from..to]
  }

  /** `<th>` cells for a run of titles, on one line. */
  function ThCells(titles: seq<string>): (r: string)
    ensures NoBangIn(titles) ==> '!' !in r
    decreases |titles|
  {
    if titles == [] then "" else "<th>" + titles[0] + "</th>" + ThCells(titles[1..])
  }

  /** The title lines: one each for the first five columns, then the frame, daily and ratio groups. */
  function ThLines(): (r: string)
    ensures '!' !in r
  {
    SingleThLines() + ThCells(Titles(5, 9)) + "\n" + ThCells(Titles(9, 12)) + "\n" + ThCells(Titles(12, 15))
  }

  /** The first five title lines, each followed by a line break. */
  function SingleThLines(): (r: string)
    ensures '!' !in r
  {
    ThCells(Titles(0, 1)) + "\n" + ThCells(Titles(1, 2)) + "\n" + ThCells(Titles(2, 3)) + "\n"
    + ThCells(Titles(3, 4)) + "\n" + ThCells(Titles(4, 5)) + "\n"
  }

  // ---------------------------------------------------------------------------
  // Stylesheet.
  // ---------------------------------------------------------------------------

  function FontStack(): (r: string)
    ensures '!' !in r
  {
    "system-ui, " + "-apple-system, " + "Segoe UI, " + "Roboto, Arial; }"
  }

  function TableBox(): (r: string)
    ensures '!' !in r
  {
    "#report-table {" + "border-" + "collapse: " + "collapse; " + "width: 100%; "
  }

  function CssRule1(): (r: string)
    ensures '!' !in r
  {
    TableBox() + "font: " + "14px/1.4 " + FontStack()
  }

  function CssRule2(): (r: string)
    ensures '!' !in r
  {
    "#report-table th, " + "#report-table td { " + "border:1px solid #ddd; " + "padding:6px 8px; " + "text-align:center; }"
  }

  function CssRule3(): (r: string)
    ensures '!' !in r
  {
    "#report-table th { " + "background:#f5f5f7; " + "position:sticky; top:0; }"
  }

  function CssRule4(): (r: string)
    ensures '!' !in r
  {
    "#report-table tbody " + "tr:nth-child(even) { " + "background:#fafafa; }"
  }

  function CssRule5(): (r: string)
    ensures '!' !in r
  {
    "#report-wrap h2 { " + "font-family: " + FontStack()
  }

  function CssRule6(): (r: string)
    ensures '!' !in r
  {
    "#genstamp { color:#555; " + "font-size:12px; " + "margin-top:8px; }"
  }

  function StyleOpen(): (r: string)
    ensures '!' !in r
  {
    "<style>\n"
  }

  function StyleClose(): (r: string)
    ensures '!' !in r
  {
    "\n</style>"
  }

  /** The stylesheet block. */
  function Css(): (r: string)
    ensures '!' !in r
  {
    CssTop() + CssBottom()
  }

  function CssTop(): (r: string)
    ensures '!' !in r
  {
    StyleOpen() + CssRule1() + "\n" + CssRule2() + "\n" + CssRule3() + "\n"
  }

  function CssBottom(): (r: string)
    ensures '!' !in r
  {
    CssRule4() + "\n" + CssRule5() + "\n" + CssRule6() + StyleClose()
  }

  // ---------------------------------------------------------------------------
  // Header and footer.
  // ---------------------------------------------------------------------------

  function WrapOpen(): (r: string)
    ensures '!' !in r
  {
    "<div id=" + "\"report-wrap\">"
  }

  function Heading(): (r: string)
    ensures '!' !in r
  {
    "<h2>" + "Daglig tabell (numerisk)" + "</h2>"
  }

  function TableOpen(): (r: string)
    ensures '!' !in r
  {
    "<table id=" + "\"report-table\">"
  }

  function TheadOpen(): (r: string)
    ensures '!' !in r
  {
    "\n<thead>\n<tr>\n"
  }

  function TheadClose(): (r: string)
    ensures '!' !in r
  {
    "\n</tr>\n</thead>\n" + "<tbody>"
  }

  function HeadTop(): (r: string)
    ensures '!' !in r
  {
    HeadingLines() + Css() + "\n\n"
  }

  function HeadingLines(): (r: string)
    ensures '!' !in r
  {
    WrapOpen() + "\n" + Heading() + "\n\n"
  }

  function HeadBottom(): (r: string)
    ensures '!' !in r
  {
    TableOpen() + TheadOpen() + ThLines() + TheadClose()
  }

  /** The header lines between the start marker and the rows, without the line breaks around them. */
  function HeaderBody(): (r: string)
    ensures '!' !in r
  {
    HeadTop() + HeadBottom()
  }

  function StampOpen(): (r: string)
    ensures '!' !in r
  {
    "<div id=" + "\"genstamp\">" + "Generert: "
  }

  function BodyClose(): (r: string)
    ensures '!' !in r
  {
    "\n</tbody>\n" + "</table>\n"
  }

  function WrapClose(): (r: string)
    ensures '!' !in r
  {
    "</div>\n</div>"
  }

  /** The footer up to, not including, the line break before the end marker. */
  function FooterHead(gen: string): (r: string)
    ensures r != [] && r[0] == '\n'
    ensures '!' !in gen ==> '!' !in r
  {
    BodyClose() + StampOpen() + gen + WrapClose()
  }
}
