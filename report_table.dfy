/**
 * The HTML table fragment of the post-processing step: a header, the rows
 * and a footer, framed by the two sentinel comments that later runs use to
 * find and replace it.
 */
module ReportTable {
  import opened Text
  import opened TextSearch
  import opened TableText

  // ---------------------------------------------------------------------------
  // Where the markers are.
  // ---------------------------------------------------------------------------

  /** Exactly one `a` and exactly one `b`, the `a` first. */
  ghost predicate OnePairOf(s: string, a: string, b: string) {
    && a != [] && b != []
    && Occurrences(s, a) == 1
    && Occurrences(s, b) == 1
    && forall i, k :: OccursAt(s, a, i) && OccursAt(s, b, k) ==> i + |a| <= k
  }

  /** A text framed by `a` after its first line break and `b` before its last. */
  ghost predicate WellFramedBy(t: string, a: string, b: string) {
    OnePairOf(t, a, b) && StartsWith(t, "\n" + a) && EndsWith(t, b + "\n")
  }

  /** Exactly one start marker and exactly one end marker, the start one first. */
  ghost predicate OnePair(s: string) {
    OnePairOf(s, TableStart, TableEnd)
  }

  /** A fragment as `build_table_html` shapes it: one marker pair, a newline before the start marker and after the end marker. */
  ghost predicate WellFramed(t: string) {
    WellFramedBy(t, TableStart, TableEnd)
  }

  /** Texts with no `!` (or no `_`) hold neither marker. */
  lemma NoMarkers(s: string)
    requires '!' !in s || '_' !in s
    ensures Occurrences(s, TableStart) == 0 && Occurrences(s, TableEnd) == 0
  {
    if '!' !in s {
      MissingCharNoOccurrence(s, TableStart, '!');
      MissingCharNoOccurrence(s, TableEnd, '!');
    } else {
      MissingCharNoOccurrence(s, TableStart, '_');
      MissingCharNoOccurrence(s, TableEnd, '_');
    }
  }

  // ---------------------------------------------------------------------------
  // The fragment.
  // ---------------------------------------------------------------------------

  /** The text up to the first row: a line break, the start marker, and the header lines each ended by a line break. */
  function Opening(headerBody: string): string {
    ("\n" + TableStart) + ("\n" + headerBody + "\n")
  }

  /** The text after the last row: the footer head, then the end marker on a line of its own. */
  function Closing(footerHead: string): string {
    footerHead + ("\n" + TableEnd + "\n")
  }

  /** A fragment with the given header lines, rows and footer head, closed by the end marker. */
  function Framed(headerBody: string, rows: seq<string>, footerHead: string): string {
    Opening(headerBody) + Join(rows, "\n") + Closing(footerHead)
  }

  /** The fragment `build_table_html` returns for rendered rows and a stamp. */
  function TableHtml(rows: seq<string>, gen: string): string {
    Framed(HeaderBody(), rows, FooterHead(gen))
  }

  // ---------------------------------------------------------------------------
  // What the fragment promises.
  // ---------------------------------------------------------------------------

  lemma Regroup(a: string, b: string, c: string, d: string, e: string)
    ensures (a + b) + c + (d + e) == a + (b + (c + (d + e)))
  {
  }

  /** The rows between the opening and the closing split back into the rows, in order. */
  lemma FramedBody(rows: seq<string>)
    requires rows != []
    requires forall i :: 0 <= i < |rows| ==> '\n' !in rows[i]
    ensures SplitOn(Join(rows, "\n"), '\n') == rows
  {
    SplitJoin(rows, '\n');
  }

  /** Two non-empty one-line patterns that both hold a `!`. */
  predicate MarkerShape(a: string, b: string) {
    a != [] && b != [] && '\n' !in a && '\n' !in b && '!' in a && '!' in b
  }

  /** The start marker line holds `a` once and no `b`. */
  ghost predicate StartLineOnce(a: string, b: string)
    requires MarkerShape(a, b)
  {
    Occurrences("\n" + a, a) == 1 && Occurrences("\n" + a, b) == 0
  }

  /** The end marker line holds `b` once and no `a`. */
  ghost predicate EndLineOnce(a: string, b: string)
    requires MarkerShape(a, b)
  {
    Occurrences("\n" + b + "\n", b) == 1 && Occurrences("\n" + b + "\n", a) == 0
  }

  /** Two patterns each found once on its own marker line and never on the other's. */
  ghost predicate MarkerPair(a: string, b: string) {
    MarkerShape(a, b) && StartLineOnce(a, b) && EndLineOnce(a, b)
  }

  /** The marker lines: the start marker after a line break once, the end marker between line breaks once. */
  lemma StartLine()
    ensures Occurrences("\n" + TableStart, TableStart) == 1
    ensures Occurrences("\n" + TableStart, TableEnd) == 0
  {
    MarkerChars();
    OccurrencesSplit("\n", TableStart, TableStart);
    OccurrencesShort("\n", TableStart);
    OccurrencesSelf(TableStart);
    MissingCharNoOccurrence("\n" + TableStart, TableEnd, 'D');
  }

  lemma EndLine()
    ensures Occurrences("\n" + TableEnd + "\n", TableEnd) == 1
    ensures Occurrences("\n" + TableEnd + "\n", TableStart) == 0
  {
    MarkerChars();
    OccurrencesSplit(TableEnd, "\n", TableEnd);
    OccurrencesShort("\n", TableEnd);
    OccurrencesSelf(TableEnd);
    OccurrencesSplit("\n", TableEnd + "\n", TableEnd);
    assert "\n" + TableEnd + "\n" == "\n" + (TableEnd + "\n");
    MissingCharNoOccurrence("\n" + TableEnd + "\n", TableStart, 'S');
  }

  /** The sentinels of the table form a marker pair. */
  lemma TableMarkerPair()
    ensures MarkerPair(TableStart, TableEnd)
  {
    MarkerChars();
    StartLine();
    EndLine();
  }

  /** The sentinel comments have the shape of a marker pair. */
  lemma TableMarkerShape()
    ensures MarkerShape(TableStart, TableEnd)
  {
    MarkerChars();
  }

  /** Texts with no `!` hold neither pattern of a marker pair. */
  lemma NoPair(s: string, a: string, b: string)
    requires MarkerShape(a, b) && '!' !in s
    ensures Occurrences(s, a) == 0 && Occurrences(s, b) == 0
  {
    MissingCharNoOccurrence(s, a, '!');
    MissingCharNoOccurrence(s, b, '!');
  }

  /**
   * A text after the start pattern `a`: no `a`, one end pattern `b` at `k`,
   * and ending with `b` and a line break.
   */
  ghost predicate EndOnceAt(y: string, k: int, a: string, b: string)
    requires a != [] && b != []
  {
    && Occurrences(y, a) == 0
    && Occurrences(y, b) == 1
    && OccursAt(y, b, k)
    && EndsWith(y, b + "\n")
  }

  /** Prefixing text free of both patterns across a line break moves the end pattern and changes nothing else. */
  lemma PrependFree(x: string, y: string, k: int, a: string, b: string)
    requires a != [] && b != [] && '\n' !in a && '\n' !in b
    requires Occurrences(x, a) == 0 && Occurrences(x, b) == 0
    requires (x != [] && x[|x| - 1] == '\n') || (y != [] && y[0] == '\n')
    requires EndOnceAt(y, k, a, b)
    ensures EndOnceAt(x + y, |x| + k, a, b)
  {
    OccurrencesSplit(x, y, a);
    OccurrencesSplit(x, y, b);
    OccursInPart(x, y, b, k);
    EndsWithAppend(x, y, b + "\n");
  }

  /** The footer: its head, then the end pattern between line breaks. */
  lemma FooterEnd(footerHead: string, a: string, b: string)
    requires MarkerShape(a, b) && EndLineOnce(a, b)
    requires '!' !in footerHead
    requires footerHead != [] && footerHead[0] == '\n'
    ensures EndOnceAt(footerHead + ("\n" + b + "\n"), |footerHead| + 1, a, b)
  {
    var f2 := "\n" + b + "\n";
    BetweenNewlines(b);
    assert EndOnceAt(f2, 1, a, b);
    NoPair(footerHead, a, b);
    PrependFree(footerHead, f2, 1, a, b);
  }

  /** The rows and the footer. */
  lemma RowsEnd(rows: seq<string>, footerHead: string, a: string, b: string)
    requires MarkerShape(a, b) && EndLineOnce(a, b)
    requires '!' !in footerHead
    requires footerHead != [] && footerHead[0] == '\n'
    requires forall i :: 0 <= i < |rows| ==> Occurrences(rows[i], a) == 0 && Occurrences(rows[i], b) == 0
    ensures var y := Join(rows, "\n") + (footerHead + ("\n" + b + "\n"));
      EndOnceAt(y, |Join(rows, "\n")| + |footerHead| + 1, a, b)
  {
    FooterEnd(footerHead, a, b);
    JoinLinesNoOccurrence(rows, a);
    JoinLinesNoOccurrence(rows, b);
    PrependFree(Join(rows, "\n"), footerHead + ("\n" + b + "\n"), |footerHead| + 1, a, b);
  }

  /** A prefix without `b`, joined at a line break, keeps the only `b` and shifts it by its length. */
  lemma PrefixKeepsOnce(p1: string, rest: string, b: string, k: int)
    requires b != [] && '\n' !in b && Occurrences(p1, b) == 0
    requires rest != [] && rest[0] == '\n' && Occurrences(rest, b) == 1 && OccursAt(rest, b, k)
    ensures Occurrences(p1 + rest, b) == 1 && OccursAt(p1 + rest, b, |p1| + k)
  {
    OccurrencesSplit(p1, rest, b);
    OccursInPart(p1, rest, b, k);
  }

  /** With one occurrence of each pattern, the start one before the end one, the text has one pair. */
  lemma PairAt(t: string, a: string, b: string, i0: int, k0: int)
    requires a != [] && b != [] && Occurrences(t, a) == 1 && Occurrences(t, b) == 1
    requires OccursAt(t, a, i0) && OccursAt(t, b, k0) && i0 + |a| <= k0
    ensures OnePairOf(t, a, b)
  {
    OnlyOccurrence(t, a, i0);
    OnlyOccurrence(t, b, k0);
  }

  /** The start pattern on the first line, then a text with the end pattern once: one pair, the start one first. */
  lemma StartEndPair(rest: string, k: int, a: string, b: string)
    requires MarkerShape(a, b) && StartLineOnce(a, b)
    requires rest != [] && rest[0] == '\n'
    requires EndOnceAt(rest, k, a, b)
    ensures OnePairOf(("\n" + a) + rest, a, b)
  {
    var line := "\n" + a;
    assert line[1..1 + |a|] == a;
    PairAfterLine(line, rest, k, a, b);
  }

  /** A line holding `a` once at 1 and no `b`, then a text holding `b` once at `k` and no `a`: one pair. */
  lemma PairAfterLine(line: string, rest: string, k: int, a: string, b: string)
    requires a != [] && b != [] && '\n' !in a && '\n' !in b
    requires Occurrences(line, a) == 1 && Occurrences(line, b) == 0 && OccursAt(line, a, 1) && |line| == |a| + 1
    requires rest != [] && rest[0] == '\n' && Occurrences(rest, a) == 0
    requires Occurrences(rest, b) == 1 && OccursAt(rest, b, k)
    ensures OnePairOf(line + rest, a, b)
  {
    OccurrencesSplit(line, rest, a);
    OccursInPart(line, rest, a, 1);
    PrefixKeepsOnce(line, rest, b, k);
    PairAt(line + rest, a, b, 1, |line| + k);
  }

  /** The start pattern on the first line, then a text with the end pattern once. */
  lemma StartThenEnd(rest: string, k: int, a: string, b: string)
    requires MarkerShape(a, b) && StartLineOnce(a, b)
    requires rest != [] && rest[0] == '\n'
    requires EndOnceAt(rest, k, a, b)
    ensures WellFramedBy(("\n" + a) + rest, a, b)
  {
    StartEndPair(rest, k, a, b);
    EndsWithAppend("\n" + a, rest, b + "\n");
    assert (("\n" + a) + rest)[..|"\n" + a|] == "\n" + a;
  }

  /** The start marker line, then header lines free of `!`, then a text with the end pattern once. */
  lemma FramedAround(p2: string, y: string, k: int, a: string, b: string)
    requires MarkerShape(a, b) && StartLineOnce(a, b)
    requires '!' !in p2 && p2 != [] && p2[0] == '\n' && p2[|p2| - 1] == '\n'
    requires EndOnceAt(y, k, a, b)
    ensures WellFramedBy(("\n" + a) + (p2 + y), a, b)
  {
    NoPair(p2, a, b);
    PrependFree(p2, y, k, a, b);
    StartThenEnd(p2 + y, |p2| + k, a, b);
  }

  /**
   * A text holds exactly one `a`, right after its first line break, and
   * exactly one `b`, right before its last line break, provided its header,
   * rows and footer hold neither.
   */
  lemma FramedBy(headerBody: string, rows: seq<string>, footerHead: string, a: string, b: string)
    requires MarkerPair(a, b)
    requires '!' !in headerBody && '!' !in footerHead
    requires footerHead != [] && footerHead[0] == '\n'
    requires forall i :: 0 <= i < |rows| ==> Occurrences(rows[i], a) == 0 && Occurrences(rows[i], b) == 0
    ensures WellFramedBy(("\n" + a) + (("\n" + headerBody + "\n") + (Join(rows, "\n") + (footerHead + ("\n" + b + "\n")))), a, b)
  {
    var p2 := "\n" + headerBody + "\n";
    var y := Join(rows, "\n") + (footerHead + ("\n" + b + "\n"));
    RowsEnd(rows, footerHead, a, b);
    FramedAround(p2, y, |Join(rows, "\n")| + |footerHead| + 1, a, b);
  }

  /**
   * A fragment holds exactly one start marker, right after its first line
   * break, and exactly one end marker, right before its last line break,
   * provided its header, rows and footer hold no marker text.
   */
  lemma FramedMarkers(headerBody: string, rows: seq<string>, footerHead: string)
    requires '!' !in headerBody && '!' !in footerHead
    requires footerHead != [] && footerHead[0] == '\n'
    requires forall i :: 0 <= i < |rows| ==> Occurrences(rows[i], TableStart) == 0 && Occurrences(rows[i], TableEnd) == 0
    ensures WellFramed(Framed(headerBody, rows, footerHead))
  {
    TableMarkerPair();
    FramedBy(headerBody, rows, footerHead, TableStart, TableEnd);
    Regroup("\n" + TableStart, "\n" + headerBody + "\n", Join(rows, "\n"), footerHead, "\n" + TableEnd + "\n");
  }

  /** The table of `build_table_html` is well framed when no row holds marker text and the stamp holds no `!`. */
  lemma TableMarkers(rows: seq<string>, gen: string)
    requires '!' !in gen
    requires forall i :: 0 <= i < |rows| ==> Occurrences(rows[i], TableStart) == 0 && Occurrences(rows[i], TableEnd) == 0
    ensures WellFramed(TableHtml(rows, gen))
  {
    var hb, fh := HeaderBody(), FooterHead(gen);
    assert '!' !in hb && '!' !in fh && fh[0] == '\n';
    FramedMarkers(hb, rows, fh);
  }
}
