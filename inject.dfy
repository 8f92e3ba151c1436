/**
 * Putting the table fragment into the report page: replacing the region
 * between the sentinel markers when the page has both, otherwise removing
 * the old marker-free table section and inserting the fragment before
 * `</body>` (or appending it), and writing a minimal page when there is none.
 */
module Inject {
  import opened Wrappers
  import opened Text
  import opened TextSearch
  import opened TableText
  import opened ReportTable
  import opened ReTemplate

  // ---------------------------------------------------------------------------
  // Where a pattern can occur in a part of a text.
  // ---------------------------------------------------------------------------

  /** A pattern that occurs nowhere is counted zero times. */
  lemma ZeroIfNowhere(s: string, p: string)
    requires p != [] && forall m :: !OccursAt(s, p, m)
    ensures Occurrences(s, p) == 0
  {
    OccurrencesZero(s, p);
  }

  /** A pattern is counted once in a text it occurs in somewhere. */
  lemma SomewhereIfCounted(s: string, p: string)
    requires p != [] && Occurrences(s, p) >= 1
    ensures IndexOf(s, p).Some?
  {
    OccurrencesZero(s, p);
  }

  /** An occurrence in a prefix is an occurrence in the whole text. */
  lemma OccursInPrefix(s: string, d: nat, p: string, m: int)
    requires d <= |s| && OccursAt(s[..d], p, m)
    ensures OccursAt(s, p, m)
  {
    OccursInPart(s[..d], s[d..], p, m);
    assert s[..d] + s[d..] == s;
  }

  /** An occurrence in a suffix is an occurrence in the whole text, moved by the cut. */
  lemma OccursInSuffix(s: string, d: nat, p: string, m: int)
    requires d <= |s|
    ensures OccursAt(s[d..], p, m) <==> m >= 0 && OccursAt(s, p, d + m)
  {
    if 0 <= m && d + m + |p| <= |s| {
      assert s[d..][m..m + |p|] == s[d + m..d + m + |p|];
    }
  }

  /** Both parts of a text without a pattern are without it too. */
  lemma NoneInParts(a: string, b: string, p: string)
    requires p != [] && Occurrences(a + b, p) == 0
    ensures Occurrences(a, p) == 0 && Occurrences(b, p) == 0
  {
    NoOccurrenceAnywhere(a + b, p);
    forall m ensures !OccursAt(a, p, m) && !OccursAt(b, p, m) {
      OccursInPart(a, b, p, m);
    }
    ZeroIfNowhere(a, p);
    ZeroIfNowhere(b, p);
  }

  // ---------------------------------------------------------------------------
  // A framed fragment between two texts without markers.
  // ---------------------------------------------------------------------------

  /** Text without either pattern on both sides of a framed fragment adds no pattern. */
  lemma SurroundCounts(x: string, y: string, z: string, a: string, b: string)
    requires MarkerShape(a, b) && WellFramedBy(y, a, b)
    requires Occurrences(x, a) == 0 && Occurrences(x, b) == 0
    requires Occurrences(z, a) == 0 && Occurrences(z, b) == 0
    ensures Occurrences(x + y + z, a) == 1 && Occurrences(x + y + z, b) == 1
  {
    assert y[..|a| + 1] == "\n" + a;
    assert y[0] == '\n';
    assert y[|y| - |b| - 1..] == b + "\n";
    assert (x + y)[|x + y| - 1] == y[|y| - 1] == '\n';
    OccurrencesSplit(x, y, a);
    OccurrencesSplit(x, y, b);
    OccurrencesSplit(x + y, z, a);
    OccurrencesSplit(x + y, z, b);
  }

  /** Where the end pattern of a framed fragment is: after the start pattern. */
  lemma FragmentEnd(y: string, a: string, b: string) returns (kb: nat)
    requires MarkerShape(a, b) && WellFramedBy(y, a, b)
    ensures OccursAt(y, a, 1) && OccursAt(y, b, kb) && 1 + |a| <= kb
  {
    assert y[1..1 + |a|] == y[..|a| + 1][1..] == a;
    assert OccursAt(y, a, 1);
    SomewhereIfCounted(y, b);
    kb := IndexOf(y, b).value;
    assert OccursAt(y, b, kb);
  }

  /** An occurrence in the middle part is an occurrence in the whole, moved by the first part. */
  lemma InMiddle(x: string, y: string, z: string, p: string, m: int)
    requires OccursAt(y, p, m)
    ensures OccursAt(x + y + z, p, |x| + m)
  {
    OccursInPart(x, y, p, m);
    OccursInPart(x + y, z, p, |x| + m);
  }

  /**
   * A framed fragment between two texts that hold neither pattern leaves
   * exactly one pair, the start pattern first.
   */
  lemma SurroundKeepsPair(x: string, y: string, z: string, a: string, b: string)
    requires MarkerShape(a, b) && WellFramedBy(y, a, b)
    requires Occurrences(x, a) == 0 && Occurrences(x, b) == 0
    requires Occurrences(z, a) == 0 && Occurrences(z, b) == 0
    ensures OnePairOf(x + y + z, a, b)
  {
    assert Occurrences(x + y + z, a) == 1 && Occurrences(x + y + z, b) == 1 by {
      SurroundCounts(x, y, z, a, b);
    }
    var kb := FragmentEnd(y, a, b);
    PairAround(x, y, z, a, b, kb);
  }

  /** Once counted once each in the whole, the fragment's own pair is the whole text's pair. */
  lemma PairAround(x: string, y: string, z: string, a: string, b: string, kb: nat)
    requires a != [] && b != [] && Occurrences(x + y + z, a) == 1 && Occurrences(x + y + z, b) == 1
    requires OccursAt(y, a, 1) && OccursAt(y, b, kb) && 1 + |a| <= kb
    ensures OnePairOf(x + y + z, a, b)
  {
    var t := x + y + z;
    assert OccursAt(t, a, |x| + 1) by {
      InMiddle(x, y, z, a, 1);
    }
    assert OccursAt(t, b, |x| + kb) by {
      InMiddle(x, y, z, b, kb);
    }
    PairAt(t, a, b, |x| + 1, |x| + kb);
  }

  // ---------------------------------------------------------------------------
  // Replacing the marked region.
  // ---------------------------------------------------------------------------

  /**
   * `re.sub(A.*?B, table, html, flags=re.DOTALL)` for literal patterns:
   * from the first `a`, up to the first `b` after it, is replaced by the
   * table, and the scan goes on after that `b`; when no `b` follows the first
   * `a` there is no further match.
   */
  function ReplaceRegions(html: string, a: string, b: string, table: string): string
    requires a != [] && b != []
    decreases |html|
  {
    match FirstRegion(html, a, b)
    case None => html
    case Some((i, d)) => html[..i] + table + ReplaceRegions(html[d..], a, b, table)
  }

  /** Where the first match of `A.*?B` starts, and where it ends. */
  function FirstRegion(html: string, a: string, b: string): (r: Option<(nat, nat)>)
    requires a != [] && b != []
    ensures r.Some? ==> r.value.0 < r.value.1 <= |html|
  {
    match IndexOf(html, a)
    case None => None
    case Some(i) =>
      match IndexOf(html[i + |a|..], b)
      case None => None
      case Some(j) => Some((i, i + |a| + j + |b|))
  }

  /** A text without `a` is left as it is. */
  lemma ReplaceRegionsNone(html: string, a: string, b: string, table: string)
    requires a != [] && b != [] && forall m :: !OccursAt(html, a, m)
    ensures ReplaceRegions(html, a, b, table) == html
  {
    assert FirstRegion(html, a, b).None?;
  }

  /**
   * The same scan with the replacement read as a template: each region is
   * replaced by the template's pieces expanded for that region.
   */
  function SubRegions(html: string, a: string, b: string, ps: seq<Piece>): string
    requires a != [] && b != []
    decreases |html|
  {
    match FirstRegion(html, a, b)
    case None => html
    case Some((i, d)) => html[..i] + Expand(ps, html[i..d]) + SubRegions(html[d..], a, b, ps)
  }

  /** A template without a group reference replaces every region by the same text, as a literal replacement would. */
  lemma {:induction false} SubLiteral(html: string, a: string, b: string, ps: seq<Piece>)
    requires a != [] && b != [] && GroupFree(ps)
    ensures SubRegions(html, a, b, ps) == ReplaceRegions(html, a, b, Expand(ps, []))
    decreases |html|
  {
    match FirstRegion(html, a, b)
    case None =>
    case Some((i, d)) =>
      ExpandGroupFree(ps, html[i..d]);
      SubLiteral(html[d..], a, b, ps);
  }

  /** A template that is only the whole match puts every region back: the text is left as it is. */
  lemma {:induction false} WholeKept(html: string, a: string, b: string)
    requires a != [] && b != []
    ensures SubRegions(html, a, b, [Whole]) == html
    decreases |html|
  {
    match FirstRegion(html, a, b)
    case None =>
    case Some((i, d)) =>
      WholeKept(html[d..], a, b);
      assert Expand([Whole], html[i..d]) == html[i..d];
      assert html[..i] + html[i..d] + html[d..] == html;
  }

  /** Where the single pair of a text is. */
  lemma PairPositions(html: string, a: string, b: string) returns (i: nat, k: nat)
    requires OnePairOf(html, a, b)
    ensures OccursAt(html, a, i) && OccursAt(html, b, k) && i + |a| <= k
    ensures forall m :: OccursAt(html, a, m) ==> m == i
    ensures forall m :: OccursAt(html, b, m) ==> m == k
  {
    SomewhereIfCounted(html, a);
    SomewhereIfCounted(html, b);
    i := IndexOf(html, a).value;
    k := IndexOf(html, b).value;
    OnlyOccurrence(html, a, i);
    OnlyOccurrence(html, b, k);
  }

  /** The text before the only occurrences of two patterns holds neither. */
  lemma PrefixFree(html: string, a: string, b: string, i: nat, k: nat)
    requires a != [] && b != [] && i <= k && i <= |html|
    requires forall m :: OccursAt(html, a, m) ==> m == i
    requires forall m :: OccursAt(html, b, m) ==> m == k
    ensures Occurrences(html[..i], a) == 0 && Occurrences(html[..i], b) == 0
  {
    var pre := html[..i];
    forall m ensures !OccursAt(pre, a, m) && !OccursAt(pre, b, m) {
      if OccursAt(pre, a, m) {
        OccursInPrefix(html, i, a, m);
      }
      if OccursAt(pre, b, m) {
        OccursInPrefix(html, i, b, m);
      }
    }
    ZeroIfNowhere(pre, a);
    ZeroIfNowhere(pre, b);
  }

  /** The text after the end of the only occurrences of two patterns holds neither. */
  lemma SuffixFree(html: string, a: string, b: string, i: nat, d: nat)
    requires a != [] && b != [] && i < d <= |html|
    requires forall m :: OccursAt(html, a, m) ==> m == i
    requires forall m :: OccursAt(html, b, m) ==> m < d
    ensures Occurrences(html[d..], a) == 0 && Occurrences(html[d..], b) == 0
  {
    var suf := html[d..];
    forall m ensures !OccursAt(suf, a, m) && !OccursAt(suf, b, m) {
      OccursInSuffix(html, d, a, m);
      OccursInSuffix(html, d, b, m);
    }
    ZeroIfNowhere(suf, a);
    ZeroIfNowhere(suf, b);
  }

  /** The single pair of a text, and the text before and after it free of both patterns. */
  lemma PairParts(html: string, a: string, b: string) returns (i: nat, k: nat)
    requires OnePairOf(html, a, b)
    ensures OccursAt(html, a, i) && OccursAt(html, b, k) && i + |a| <= k
    ensures Occurrences(html[..i], a) == 0 && Occurrences(html[..i], b) == 0
    ensures Occurrences(html[k + |b|..], a) == 0 && Occurrences(html[k + |b|..], b) == 0
  {
    i, k := PairPositions(html, a, b);
    PrefixFree(html, a, b, i, k);
    SuffixFree(html, a, b, i, k + |b|);
  }

  /**
   * With exactly one pair, the start one first, the region from the start
   * pattern to the end pattern is replaced by the table and the text on
   * either side is kept as it is.
   */
  lemma ReplaceAt(html: string, a: string, b: string, table: string, i: nat, k: nat)
    requires a != [] && b != [] && Occurrences(html, a) == 1 && Occurrences(html, b) == 1
    requires OccursAt(html, a, i) && OccursAt(html, b, k) && i + |a| <= k
    ensures ReplaceRegions(html, a, b, table) == html[..i] + table + html[k + |b|..]
  {
    OnlyOccurrence(html, a, i);
    OnlyOccurrence(html, b, k);
    ReplaceOnly(html, a, b, table, i, k);
  }

  /** The same, for patterns known to occur at `i` and `k` and nowhere else. */
  lemma ReplaceOnly(html: string, a: string, b: string, table: string, i: nat, k: nat)
    requires a != [] && b != [] && OccursAt(html, a, i) && OccursAt(html, b, k) && i + |a| <= k
    requires forall m :: OccursAt(html, a, m) ==> m == i
    requires forall m :: OccursAt(html, b, m) ==> m == k
    ensures ReplaceRegions(html, a, b, table) == html[..i] + table + html[k + |b|..]
  {
    IndexOfOnly(html, a, i);
    EndIndex(html, b, i + |a|, k);
    AfterPairFree(html, a, i, k + |b|);
    FirstRegionAt(html, a, b, i, k - i - |a|);
    ReplaceRegionsStep(html, a, b, table, i, k + |b|);
    ReplaceRegionsNone(html[k + |b|..], a, b, table);
  }

  /** After the start pattern, the scan finds the single end pattern where it is. */
  lemma EndIndex(html: string, b: string, d: nat, k: nat)
    requires b != [] && OccursAt(html, b, k) && d <= k
    requires forall m :: OccursAt(html, b, m) ==> m == k
    ensures IndexOf(html[d..], b) == Some(k - d)
  {
    var after := html[d..];
    forall m | OccursAt(after, b, m) ensures m == k - d {
      OccursInSuffix(html, d, b, m);
    }
    OccursInSuffix(html, d, b, k - d);
    IndexOfOnly(after, b, k - d);
  }

  /** No start pattern follows the end of the single pair. */
  lemma AfterPairFree(html: string, a: string, i: nat, d: nat)
    requires a != [] && i < d <= |html| && forall m :: OccursAt(html, a, m) ==> m == i
    ensures forall m :: !OccursAt(html[d..], a, m)
  {
    var rest := html[d..];
    forall m ensures !OccursAt(rest, a, m) {
      OccursInSuffix(html, d, a, m);
    }
  }

  /** The only occurrence of a pattern is the first one. */
  lemma IndexOfOnly(s: string, p: string, i: nat)
    requires OccursAt(s, p, i) && forall m :: OccursAt(s, p, m) ==> m == i
    ensures IndexOf(s, p) == Some(i)
  {
  }

  /** The first region found by the two searches. */
  lemma FirstRegionAt(html: string, a: string, b: string, i: nat, j: nat)
    requires a != [] && b != [] && i + |a| <= |html|
    requires IndexOf(html, a) == Some(i) && IndexOf(html[i + |a|..], b) == Some(j)
    ensures FirstRegion(html, a, b) == Some((i, i + |a| + j + |b|))
  {
  }

  /** One match: the region is replaced by the table and the scan goes on after it. */
  lemma ReplaceRegionsStep(html: string, a: string, b: string, table: string, i: nat, d: nat)
    requires a != [] && b != [] && FirstRegion(html, a, b) == Some((i, d))
    ensures i < d <= |html|
    ensures ReplaceRegions(html, a, b, table) == html[..i] + table + ReplaceRegions(html[d..], a, b, table)
  {
  }

  /**
   * With a single pair, the region from its start pattern to its end pattern
   * is replaced by a framed fragment, the text on either side is kept, and a
   * single pair is left.
   */
  lemma ReplaceKeepsPair(html: string, a: string, b: string, table: string) returns (i: nat, k: nat)
    requires MarkerShape(a, b) && OnePairOf(html, a, b) && WellFramedBy(table, a, b)
    ensures OccursAt(html, a, i) && OccursAt(html, b, k) && i + |a| <= k
    ensures ReplaceRegions(html, a, b, table) == html[..i] + table + html[k + |b|..]
    ensures OnePairOf(ReplaceRegions(html, a, b, table), a, b)
  {
    i, k := PairParts(html, a, b);
    ReplaceAt(html, a, b, table, i, k);
    SurroundKeepsPair(html[..i], table, html[k + |b|..], a, b);
  }

  /** A framed fragment starts its start pattern at 1 and its end pattern one character before its end. */
  lemma FragmentEnds(t: string, a: string, b: string)
    requires MarkerShape(a, b) && WellFramedBy(t, a, b)
    ensures OccursAt(t, a, 1) && OccursAt(t, b, |t| - |b| - 1) && 1 + |a| <= |t| - |b| - 1
  {
    var kb := FragmentEnd(t, a, b);
    assert t[|t| - |b| - 1..] == b + "\n";
    assert t[|t| - |b| - 1..|t| - 1] == b;
    assert OccursAt(t, b, |t| - |b| - 1);
    OnlyOccurrence(t, b, kb);
  }

  /** A framed fragment starts and ends with a line break. */
  lemma FragmentLines(t: string, a: string, b: string)
    requires MarkerShape(a, b) && WellFramedBy(t, a, b)
    ensures t != [] && t[0] == '\n' && t[|t| - 1] == '\n'
  {
    assert t[..|a| + 1] == "\n" + a;
    assert t[|t| - |b| - 1..] == b + "\n";
  }

  /** The two cuts around a framed fragment's region. */
  lemma CutsAround(x: string, t: string, z: string)
    requires t != [] && t[0] == '\n' && t[|t| - 1] == '\n'
    ensures (x + t + z)[..|x| + 1] == x + "\n"
    ensures (x + t + z)[|x| + |t| - 1..] == "\n" + z
  {
  }

  /**
   * The region a framed fragment occupies runs from its start pattern to its
   * end pattern, one character in from each end: replacing it by the
   * fragment again keeps the line breaks around the old region, so the text
   * grows by two characters on every run.
   */
  lemma ReplaceGrows(x: string, table: string, z: string, a: string, b: string)
    requires MarkerShape(a, b) && WellFramedBy(table, a, b)
    requires Occurrences(x, a) == 0 && Occurrences(x, b) == 0
    requires Occurrences(z, a) == 0 && Occurrences(z, b) == 0
    ensures ReplaceRegions(x + table + z, a, b, table) == (x + "\n") + table + ("\n" + z)
    ensures |ReplaceRegions(x + table + z, a, b, table)| == |x + table + z| + 2
  {
    assert OnePairOf(x + table + z, a, b) by {
      SurroundKeepsPair(x, table, z, a, b);
    }
    assert OccursAt(table, a, 1) && OccursAt(table, b, |table| - |b| - 1) && 1 + |a| <= |table| - |b| - 1 by {
      FragmentEnds(table, a, b);
    }
    assert table[0] == '\n' && table[|table| - 1] == '\n' by {
      FragmentLines(table, a, b);
    }
    FramedOnly(x, table, z, a, b);
    FramedReplace(x, table, z, a, b);
  }

  /** The region of a fragment's own pair, one character in from each end, is what the scan replaces. */
  lemma FramedReplace(x: string, table: string, z: string, a: string, b: string)
    requires a != [] && b != [] && |table| >= 2 && table[0] == '\n' && table[|table| - 1] == '\n'
    requires var t := x + table + z; var k := |x| + |table| - |b| - 1;
      OccursAt(t, a, |x| + 1) && OccursAt(t, b, k) && |x| + 1 + |a| <= k &&
      (forall m :: OccursAt(t, a, m) ==> m == |x| + 1) && (forall m :: OccursAt(t, b, m) ==> m == k)
    ensures ReplaceRegions(x + table + z, a, b, table) == (x + "\n") + table + ("\n" + z)
  {
    var t := x + table + z;
    var i := |x| + 1;
    var k := |x| + |table| - |b| - 1;
    assert ReplaceRegions(t, a, b, table) == t[..i] + table + t[k + |b|..] by {
      ReplaceOnly(t, a, b, table, i, k);
    }
    assert t[..i] == x + "\n" && t[k + |b|..] == "\n" + z by {
      CutsAround(x, table, z);
    }
  }

  /** With a single pair around a fragment's own pair, each pattern occurs only where the fragment has it. */
  lemma FramedOnly(x: string, table: string, z: string, a: string, b: string)
    requires OnePairOf(x + table + z, a, b)
    requires OccursAt(table, a, 1) && OccursAt(table, b, |table| - |b| - 1) && 1 + |a| <= |table| - |b| - 1
    ensures var t := x + table + z; var k := |x| + |table| - |b| - 1;
      OccursAt(t, a, |x| + 1) && OccursAt(t, b, k) && |x| + 1 + |a| <= k &&
      (forall m :: OccursAt(t, a, m) ==> m == |x| + 1) && (forall m :: OccursAt(t, b, m) ==> m == k)
  {
    var i, k := PairPositions(x + table + z, a, b);
    InMiddle(x, table, z, a, 1);
    InMiddle(x, table, z, b, |table| - |b| - 1);
  }

  // ---------------------------------------------------------------------------
  // Removing the old marker-free section.
  // ---------------------------------------------------------------------------

  /** `(<div id="genstamp">.*?</div>)?`: the optional stamp, skipped when it is there in full. */
  function SkipOptional(s: string, so: string, sc: string): (r: string)
    requires so != [] && sc != []
    ensures |r| <= |s|
  {
    if StartsWith(s, so) then
      match IndexOf(s[|so|..], sc)
      case None => s
      case Some(j) => s[|so| + j + |sc|..]
    else s
  }

  /**
   * `re.sub(H.*?E\s*(SO.*?SC)?, "", html, flags=re.DOTALL)` for literal
   * patterns: from the first `h`, through the first `e` after it, the
   * whitespace after that and the optional stamp are removed, and the scan
   * goes on after them.
   */
  function RemoveBlocks(html: string, h: string, e: string, so: string, sc: string): (r: string)
    requires h != [] && e != [] && so != [] && sc != []
    ensures |r| <= |html|
    decreases |html|
  {
    match FirstRegion(html, h, e)
    case None => html
    case Some((i, d)) => html[..i] + RemoveBlocks(AfterSection(html[d..], so, sc), h, e, so, sc)
  }

  /** What follows a section: its trailing whitespace and then the optional stamp are skipped. */
  function AfterSection(s: string, so: string, sc: string): (r: string)
    requires so != [] && sc != []
    ensures |r| <= |s|
  {
    SkipOptional(TrimLeftWhere(s, IsSpace), so, sc)
  }

  /** What follows a section is a suffix of the text after it. */
  lemma AfterSectionSuffix(s: string, so: string, sc: string)
    requires so != [] && sc != []
    ensures var r := AfterSection(s, so, sc); r == s[|s| - |r|..]
  {
    TrimLeftShape(s, IsSpace);
    SkipOptionalSuffix(TrimLeftWhere(s, IsSpace), so, sc);
  }

  /** What `SkipOptional` keeps is a suffix of its input. */
  lemma SkipOptionalSuffix(s: string, so: string, sc: string)
    requires so != [] && sc != []
    ensures var r := SkipOptional(s, so, sc); r == s[|s| - |r|..]
  {
  }

  /** An occurrence that ends before a cut is an occurrence in the prefix. */
  lemma OccursBeforeCut(s: string, d: nat, p: string, m: int)
    requires d <= |s| && OccursAt(s, p, m) && m + |p| <= d
    ensures OccursAt(s[..d], p, m)
  {
    assert s[..d][m..m + |p|] == s[m..m + |p|];
  }

  /** The first occurrence of `p` in `pre + p + rest` is the one after `pre` when `pre + p` holds `p` once. */
  lemma FirstAt(pre: string, p: string, rest: string)
    requires p != [] && (forall m :: OccursAt(pre + p, p, m) ==> m == |pre|)
    ensures IndexOf(pre + p + rest, p) == Some(|pre|)
  {
    var t := pre + p + rest;
    assert OccursAt(pre + p, p, |pre|);
    OccursInPart(pre + p, rest, p, |pre|);
    var m := IndexOf(t, p).value;
    assert m <= |pre|;
    assert t[..|pre| + |p|] == pre + p;
    OccursBeforeCut(t, |pre| + |p|, p, m);
  }

  /** Dropping leading whitespace stops at the first other character. */
  lemma {:induction false} TrimSpaces(ws: string, x: string)
    requires forall i :: 0 <= i < |ws| ==> IsSpace(ws[i])
    requires x == [] || !IsSpace(x[0])
    ensures TrimLeftWhere(ws + x, IsSpace) == x
    decreases |ws|
  {
    if ws == [] {
      assert ws + x == x;
    } else {
      assert (ws + x)[1..] == ws[1..] + x;
      TrimSpaces(ws[1..], x);
    }
  }

  /** A full stamp is skipped. */
  lemma StampSkipped(so: string, stamp: string, sc: string, post: string)
    requires so != [] && sc != [] && (forall m :: OccursAt(stamp + sc, sc, m) ==> m == |stamp|)
    ensures SkipOptional(so + stamp + sc + post, so, sc) == post
  {
    var t := so + stamp + sc + post;
    assert t[..|so|] == so;
    assert t[|so|..] == stamp + sc + post;
    FirstAt(stamp, sc, post);
  }

  /** Text without the start pattern is left as it is. */
  lemma RemoveBlocksNone(html: string, h: string, e: string, so: string, sc: string)
    requires h != [] && e != [] && so != [] && sc != []
    requires forall m :: !OccursAt(html, h, m)
    ensures RemoveBlocks(html, h, e, so, sc) == html
  {
    assert FirstRegion(html, h, e).None?;
  }

  /** A character missing from a text is missing from its suffixes. */
  lemma SuffixMissing(s: string, t: string, ch: char)
    requires |t| <= |s| && t == s[|s| - |t|..] && ch !in s
    ensures ch !in t
  {
  }

  /** Removing sections only drops characters: a character missing from the text is missing from the result. */
  lemma {:induction false} RemoveBlocksMissing(html: string, h: string, e: string, so: string, sc: string, ch: char)
    requires h != [] && e != [] && so != [] && sc != [] && ch !in html
    ensures ch !in RemoveBlocks(html, h, e, so, sc)
    decreases |html|
  {
    match FirstRegion(html, h, e)
    case None =>
    case Some((i, d)) =>
      BlockStep(html, h, e, so, sc, i, d);
      var rest := AfterSection(html[d..], so, sc);
      AfterSectionSuffix(html[d..], so, sc);
      SuffixMissing(html, html[d..], ch);
      SuffixMissing(html[d..], rest, ch);
      RemoveBlocksMissing(rest, h, e, so, sc, ch);
      assert ch !in html[..i];
  }

  /** With no end pattern after the first start pattern, nothing is removed. */
  lemma RemoveNoEnd(html: string, h: string, e: string, so: string, sc: string, i: nat)
    requires h != [] && e != [] && so != [] && sc != []
    requires IndexOf(html, h) == Some(i) && IndexOf(html[i + |h|..], e).None?
    ensures RemoveBlocks(html, h, e, so, sc) == html
  {
    assert FirstRegion(html, h, e).None?;
  }

  /** One step of `RemoveBlocks`: the first section found is cut out and the scan goes on after it. */
  lemma BlockStep(html: string, h: string, e: string, so: string, sc: string, i: nat, d: nat)
    requires h != [] && e != [] && so != [] && sc != [] && FirstRegion(html, h, e) == Some((i, d))
    ensures i < d <= |html|
    ensures RemoveBlocks(html, h, e, so, sc) == html[..i] + RemoveBlocks(AfterSection(html[d..], so, sc), h, e, so, sc)
  {
  }

  /** The outer parts of a three-part text are its prefix and its suffix. */
  lemma ThreeParts(a: string, b: string, c: string)
    ensures (a + b + c)[..|a|] == a && (a + b + c)[|a| + |b|..] == c
  {
  }

  /** A pattern met once in `pre + p` is found where `pre` ends, with `rest` after it. */
  lemma FoundAt(t: string, pre: string, p: string, rest: string)
    requires p != [] && (forall m :: OccursAt(pre + p, p, m) ==> m == |pre|) && t == pre + p + rest
    ensures IndexOf(t, p) == Some(|pre|) && t[..|pre|] == pre && t[|pre| + |p|..] == rest
  {
    FirstAt(pre, p, rest);
    ThreeParts(pre, p, rest);
  }

  /** A section opened at `i` and closed at `j` of the text after its start pattern is the first region. */
  lemma SectionRegion(html: string, h: string, e: string, i: nat, after: string, j: nat)
    requires h != [] && e != [] && i + |h| <= |html|
    requires IndexOf(html, h) == Some(i) && html[i + |h|..] == after && IndexOf(after, e) == Some(j)
    ensures FirstRegion(html, h, e) == Some((i, i + |h| + j + |e|))
    ensures html[i + |h| + j + |e|..] == after[j + |e|..]
  {
    FirstRegionAt(html, h, e, i, j);
    DropDrop(html, i + |h|, j + |e|);
  }

  /** A first region whose remainder holds no more sections leaves the text before it and that remainder. */
  lemma RegionCut(html: string, h: string, e: string, so: string, sc: string, d: nat, pre: string, post: string)
    requires h != [] && e != [] && so != [] && sc != [] && |pre| <= d <= |html|
    requires FirstRegion(html, h, e) == Some((|pre|, d)) && html[..|pre|] == pre
    requires AfterSection(html[d..], so, sc) == post && RemoveBlocks(post, h, e, so, sc) == post
    ensures RemoveBlocks(html, h, e, so, sc) == pre + post
  {
    BlockStep(html, h, e, so, sc, |pre|, d);
  }

  /**
   * The section opened by the only `h` of `pre + h` and closed by the only
   * `e` of `mid + e` is the first region, and what follows it is `tail`.
   */
  lemma SectionLocated(html: string, pre: string, h: string, mid: string, e: string, tail: string, so: string, sc: string)
    requires h != [] && e != [] && so != [] && sc != []
    requires forall m :: OccursAt(pre + h, h, m) ==> m == |pre|
    requires forall m :: OccursAt(mid + e, e, m) ==> m == |mid|
    requires html == pre + h + (mid + e + tail)
    ensures FirstRegion(html, h, e) == Some((|pre|, |pre| + |h| + |mid| + |e|))
    ensures html[..|pre|] == pre
    ensures AfterSection(html[|pre| + |h| + |mid| + |e|..], so, sc) == AfterSection(tail, so, sc)
  {
    var after := mid + e + tail;
    assert IndexOf(html, h) == Some(|pre|) && html[|pre| + |h|..] == after && html[..|pre|] == pre by {
      FoundAt(html, pre, h, after);
    }
    assert IndexOf(after, e) == Some(|mid|) && after[|mid| + |e|..] == tail by {
      FoundAt(after, mid, e, tail);
    }
    SectionRegion(html, h, e, |pre|, after, |mid|);
  }

  /** Dropping twice is dropping once by the sum. */
  lemma DropDrop(s: string, a: nat, b: nat)
    requires a + b <= |s|
    ensures s[a..][b..] == s[a + b..]
  {
  }

  /** A section followed by `tail` is removed together with what `AfterSection` skips of `tail`. */
  lemma SectionRemoved(html: string, pre: string, h: string, mid: string, e: string, tail: string,
                       so: string, sc: string, post: string)
    requires h != [] && e != [] && so != [] && sc != []
    requires forall m :: OccursAt(pre + h, h, m) ==> m == |pre|
    requires forall m :: OccursAt(mid + e, e, m) ==> m == |mid|
    requires html == pre + h + (mid + e + tail)
    requires AfterSection(tail, so, sc) == post && forall m :: !OccursAt(post, h, m)
    ensures RemoveBlocks(html, h, e, so, sc) == pre + post
  {
    var d := |pre| + |h| + |mid| + |e|;
    SectionLocated(html, pre, h, mid, e, tail, so, sc);
    assert RemoveBlocks(post, h, e, so, sc) == post by {
      RemoveBlocksNone(post, h, e, so, sc);
    }
    RegionCut(html, h, e, so, sc, d, pre, post);
  }

  /**
   * One old section, its whitespace and its stamp are removed, and the text
   * on either side is kept: `pre` holds no `h`, `mid` no `e`, the stamp no
   * `sc`, and `post` no `h`.
   */
  lemma BlockRemoved(pre: string, h: string, mid: string, e: string, ws: string,
                     so: string, stamp: string, sc: string, post: string)
    requires h != [] && e != [] && so != [] && sc != [] && !IsSpace(so[0])
    requires forall m :: OccursAt(pre + h, h, m) ==> m == |pre|
    requires forall m :: OccursAt(mid + e, e, m) ==> m == |mid|
    requires forall i :: 0 <= i < |ws| ==> IsSpace(ws[i])
    requires forall m :: OccursAt(stamp + sc, sc, m) ==> m == |stamp|
    requires forall m :: !OccursAt(post, h, m)
    ensures RemoveBlocks(pre + h + (mid + e + (ws + (so + stamp + sc + post))), h, e, so, sc) == pre + post
  {
    var tail := ws + (so + stamp + sc + post);
    assert AfterSection(tail, so, sc) == post by {
      TrimSpaces(ws, so + stamp + sc + post);
      StampSkipped(so, stamp, sc, post);
    }
    SectionRemoved(pre + h + (mid + e + tail), pre, h, mid, e, tail, so, sc, post);
  }

  /** Without a stamp after it, the section and its whitespace are removed. */
  lemma BareBlockRemoved(pre: string, h: string, mid: string, e: string, ws: string,
                         so: string, sc: string, post: string)
    requires h != [] && e != [] && so != [] && sc != []
    requires forall m :: OccursAt(pre + h, h, m) ==> m == |pre|
    requires forall m :: OccursAt(mid + e, e, m) ==> m == |mid|
    requires forall i :: 0 <= i < |ws| ==> IsSpace(ws[i])
    requires post == [] || (!IsSpace(post[0]) && !StartsWith(post, so))
    requires forall m :: !OccursAt(post, h, m)
    ensures RemoveBlocks(pre + h + (mid + e + (ws + post)), h, e, so, sc) == pre + post
  {
    assert AfterSection(ws + post, so, sc) == post by {
      TrimSpaces(ws, post);
    }
    SectionRemoved(pre + h + (mid + e + (ws + post)), pre, h, mid, e, ws + post, so, sc, post);
  }

  // ---------------------------------------------------------------------------
  // Inserting before `</body>`.
  // ---------------------------------------------------------------------------

  /** Text without `p` is left as it is. */
  lemma {:induction false} ReplaceAllNone(s: string, p: string, r: string)
    requires p != [] && forall m :: !OccursAt(s, p, m)
    ensures ReplaceAll(s, p, r) == s
    decreases |s|
  {
    if |s| >= |p| {
      ReplaceAllPass(s, p, r);
      forall m | 0 <= m ensures !OccursAt(s[1..], p, m) {
        OccursAtTail(s, p, m);
      }
      ReplaceAllNone(s[1..], p, r);
      assert [s[0]] + s[1..] == s;
    }
  }

  /** Where `p` does not start the text, its first character is kept. */
  lemma ReplaceAllPass(s: string, p: string, r: string)
    requires p != [] && |s| >= |p| && !OccursAt(s, p, 0)
    ensures ReplaceAll(s, p, r) == [s[0]] + ReplaceAll(s[1..], p, r)
  {
    assert s[0..|p|] == s[..|p|];
  }

  /** Where `p` starts the text, it is replaced. */
  lemma ReplaceAllHere(s: string, p: string, r: string)
    requires p != [] && OccursAt(s, p, 0)
    ensures ReplaceAll(s, p, r) == r + ReplaceAll(s[|p|..], p, r)
  {
    assert s[0..|p|] == s[..|p|];
  }

  /** Where `p` occurs once, `s.replace(p, r)` puts `r` in its place and changes nothing else. */
  lemma {:induction false} ReplaceAllOnce(s: string, p: string, r: string, i: nat)
    requires p != [] && OccursAt(s, p, i) && forall m :: OccursAt(s, p, m) ==> m == i
    ensures ReplaceAll(s, p, r) == s[..i] + r + s[i + |p|..]
    decreases i
  {
    if i == 0 {
      ReplaceAllHere(s, p, r);
      forall m ensures !OccursAt(s[|p|..], p, m) {
        OccursInSuffix(s, |p|, p, m);
      }
      ReplaceAllNone(s[|p|..], p, r);
    } else {
      ReplaceAllPass(s, p, r);
      OccursAtTail(s, p, i - 1);
      forall m | OccursAt(s[1..], p, m) ensures m == i - 1 {
        OccursInSuffix(s, 1, p, m);
      }
      ReplaceAllOnce(s[1..], p, r, i - 1);
      ConsAround(s, r, i, i + |p|);
    }
  }

  /** Putting the first character back in front of a cut tail gives the cut text. */
  lemma ConsAround(s: string, r: string, i: nat, k: nat)
    requires 0 < i <= k <= |s|
    ensures [s[0]] + (s[1..][..i - 1] + r + s[1..][k - 1..]) == s[..i] + r + s[k..]
  {
    assert s[1..][..i - 1] == s[1..i];
    assert s[1..][k - 1..] == s[k..];
    assert [s[0]] + s[1..i] == s[..i];
  }

  // ---------------------------------------------------------------------------
  // The page update of `main`.
  // ---------------------------------------------------------------------------

  /** The heading that opens an old table section without markers. */
  const LegacyHead: string := "<h2>Daglig tabell"
  /** The tag that closes an old table section. */
  const LegacyEnd: string := "</table>"
  /** The opening tag of the optional stamp after an old section. */
  const StampTag: string := "<div id=\"genstamp\">"
  /** The tag that closes the stamp. */
  const DivEnd: string := "</div>"
  /** The closing body tag the fragment is put in front of. */
  const BodyEnd: string := "</body>"

  /** The old marker-free table sections, each with its trailing whitespace and stamp, removed. */
  function RemoveLegacy(html: string): (r: string)
    ensures |r| <= |html|
  {
    RemoveBlocks(html, LegacyHead, LegacyEnd, StampTag, DivEnd)
  }

  /** The fragment and a line break put in front of every `</body>`, or appended after a line break when there is none. */
  function InsertBeforeBody(html: string, table: string): string {
    if Contains(html, BodyEnd) then ReplaceAll(html, BodyEnd, table + "\n" + BodyEnd)
    else html + "\n" + table
  }

  /**
   * The new text of an existing `index.html`: with both markers, every
   * marked region is replaced by the fragment read as a template, and a
   * fragment that is not a valid template raises; otherwise the old sections
   * are removed and the fragment is inserted as it is.
   */
  function InjectTable(html: string, table: string): (r: Result<string>)
    ensures r.Err? <==> Contains(html, TableStart) && Contains(html, TableEnd) && Parse(table).Err?
    ensures r.Err? ==> r.error == Parse(table).error
  {
    if Contains(html, TableStart) && Contains(html, TableEnd) then
      match Parse(table)
      case Err(e) => Err(e)
      case Ok(ps) => Ok(SubRegions(html, TableStart, TableEnd, ps))
    else Ok(InsertBeforeBody(RemoveLegacy(html), table))
  }

  /** The fragment is a template without a group reference that puts in a well framed text. */
  ghost predicate TemplateFramed(table: string) {
    Parse(table).Ok? && GroupFree(Parse(table).value) && WellFramed(Expand(Parse(table).value, []))
  }

  /** A well framed fragment without a backslash is put in as it is. */
  lemma LiteralFramed(table: string)
    requires '\\' !in table && WellFramed(table)
    ensures TemplateFramed(table) && ExpandsTo(table, table)
  {
    PlainLiteral(table);
  }

  /** On a marked page, a fragment that is only `\g<0>` leaves the page as it was. */
  lemma InjectWholeMatch(html: string)
    requires Contains(html, TableStart) && Contains(html, TableEnd)
    ensures InjectTable(html, "\\g<0>") == Ok(html)
  {
    WholeMatchRef();
    WholeKept(html, TableStart, TableEnd);
  }

  /** The title and the heading of the minimal page. */
  const PageTitle: string := "Daglig rapport"

  /** A line holding `text` between the opening and closing `tag`. */
  function Tagged(tag: string, text: string): (r: string)
    ensures '_' !in tag && '_' !in text ==> '_' !in r
  {
    "<" + tag + ">" + text + "</" + tag + ">\n"
  }

  /** The minimal page's text before the fragment. */
  function PageHead(): (r: string)
    ensures '_' !in r
  {
    "<!doctype html><meta charset=" + "\"utf-8\">\n" + Tagged("title", PageTitle) + "<body>\n" + Tagged("h1", PageTitle)
  }

  /** The minimal page's text after the fragment. */
  function PageTail(): (r: string)
    ensures '_' !in r
  {
    "\n" + BodyEnd + "\n"
  }

  /** The page written when there is no `index.html`. */
  function MinimalPage(table: string): string {
    PageHead() + table + PageTail()
  }

  /** On a marked page, a fragment that expands to `y` replaces each marked region by `y`. */
  lemma InjectLiteral(html: string, table: string, y: string)
    requires Contains(html, TableStart) && Contains(html, TableEnd) && ExpandsTo(table, y)
    ensures InjectTable(html, table) == Ok(ReplaceRegions(html, TableStart, TableEnd, y))
  {
    SubLiteral(html, TableStart, TableEnd, Parse(table).value);
  }

  /**
   * A page with one marker pair and a fragment that expands to a well framed
   * text `y`: the region from the start marker to the end marker is replaced
   * by `y`, the text on either side is kept, and the page again has exactly
   * one pair.
   */
  lemma InjectMarked(html: string, table: string, y: string) returns (i: nat, k: nat)
    requires OnePair(html) && ExpandsTo(table, y) && WellFramed(y)
    ensures OccursAt(html, TableStart, i) && OccursAt(html, TableEnd, k) && i + |TableStart| <= k
    ensures InjectTable(html, table) == Ok(html[..i] + y + html[k + |TableEnd|..])
    ensures OnePair(InjectTable(html, table).value)
  {
    MarkedContains(html);
    InjectLiteral(html, table, y);
    i, k := MarkedReplace(html, y);
  }

  /** A page with one marker pair holds both markers. */
  lemma MarkedContains(html: string)
    requires OnePair(html)
    ensures Contains(html, TableStart) && Contains(html, TableEnd)
  {
    SomewhereIfCounted(html, TableStart);
    SomewhereIfCounted(html, TableEnd);
  }

  /** The single marked region replaced by a well framed text, the rest kept, one pair left. */
  lemma MarkedReplace(html: string, y: string) returns (i: nat, k: nat)
    requires OnePair(html) && WellFramed(y)
    ensures OccursAt(html, TableStart, i) && OccursAt(html, TableEnd, k) && i + |TableStart| <= k
    ensures ReplaceRegions(html, TableStart, TableEnd, y) == html[..i] + y + html[k + |TableEnd|..]
    ensures OnePair(ReplaceRegions(html, TableStart, TableEnd, y))
  {
    TableMarkerShape();
    i, k := ReplaceKeepsPair(html, TableStart, TableEnd, y);
  }

  /**
   * Running the update again on a page that holds the fragment's text `y`
   * between marker-free text keeps one marker pair, but the line breaks
   * around the old fragment stay, so the page grows by two characters each
   * run.
   */
  lemma InjectAgain(x: string, table: string, y: string, z: string)
    requires ExpandsTo(table, y) && WellFramed(y)
    requires Occurrences(x, TableStart) == 0 && Occurrences(x, TableEnd) == 0
    requires Occurrences(z, TableStart) == 0 && Occurrences(z, TableEnd) == 0
    ensures InjectTable(x + y + z, table) == Ok((x + "\n") + y + ("\n" + z))
    ensures |InjectTable(x + y + z, table).value| == |x + y + z| + 2
    ensures OnePair(InjectTable(x + y + z, table).value)
  {
    TableMarkerShape();
    var html := x + y + z;
    SurroundKeepsPair(x, y, z, TableStart, TableEnd);
    SomewhereIfCounted(html, TableStart);
    SomewhereIfCounted(html, TableEnd);
    InjectLiteral(html, table, y);
    ReplaceGrows(x, y, z, TableStart, TableEnd);
    var _, _ := ReplaceKeepsPair(html, TableStart, TableEnd, y);
  }

  /** A framed fragment between two texts without `_` leaves exactly one marker pair. */
  lemma PlainAround(x: string, y: string, z: string)
    requires '_' !in x && '_' !in z && WellFramed(y)
    ensures OnePair(x + y + z)
  {
    TableMarkerShape();
    NoMarkers(x);
    NoMarkers(z);
    SurroundKeepsPair(x, y, z, TableStart, TableEnd);
  }

  /** A page without `_` holds no marker, and neither does what is left after removing old sections. */
  lemma CleanedUnmarked(html: string)
    requires '_' !in html
    ensures !Contains(html, TableStart) && '_' !in RemoveLegacy(html)
  {
    NoMarkers(html);
    OccurrencesZero(html, TableStart);
    RemoveBlocksMissing(html, LegacyHead, LegacyEnd, StampTag, DivEnd, '_');
  }

  /**
   * A marker-free page without `</body>` after its old sections are removed
   * gets the fragment appended after a line break, and then holds exactly one
   * marker pair.
   */
  lemma InjectAppended(html: string, table: string)
    requires '_' !in html && WellFramed(table) && !Contains(RemoveLegacy(html), BodyEnd)
    ensures InjectTable(html, table) == Ok(RemoveLegacy(html) + "\n" + table)
    ensures OnePair(InjectTable(html, table).value)
  {
    CleanedUnmarked(html);
    var x := RemoveLegacy(html) + "\n";
    PlainAround(x, table, "");
    assert x + table + "" == RemoveLegacy(html) + "\n" + table;
  }

  /** With one `</body>`, the fragment and a line break go right before it and the rest is kept. */
  lemma BodyInsert(c: string, table: string) returns (i: nat)
    requires Occurrences(c, BodyEnd) == 1
    ensures OccursAt(c, BodyEnd, i)
    ensures InsertBeforeBody(c, table) == c[..i] + table + ("\n" + BodyEnd + c[i + |BodyEnd|..])
  {
    SomewhereIfCounted(c, BodyEnd);
    i := IndexOf(c, BodyEnd).value;
    OnlyOccurrence(c, BodyEnd, i);
    ReplaceAllOnce(c, BodyEnd, table + "\n" + BodyEnd, i);
  }

  /**
   * A marker-free page with one `</body>` after its old sections are
   * removed gets the fragment and a line break right before it, the rest of
   * the page kept, and then holds exactly one marker pair.
   */
  lemma InjectBeforeBody(html: string, table: string) returns (i: nat)
    requires '_' !in html && WellFramed(table) && Occurrences(RemoveLegacy(html), BodyEnd) == 1
    ensures var c := RemoveLegacy(html);
      && OccursAt(c, BodyEnd, i)
      && InjectTable(html, table) == Ok(c[..i] + table + ("\n" + BodyEnd + c[i + |BodyEnd|..]))
    ensures OnePair(InjectTable(html, table).value)
  {
    CleanedUnmarked(html);
    var c := RemoveLegacy(html);
    i := BodyInsert(c, table);
    var x, z := c[..i], "\n" + BodyEnd + c[i + |BodyEnd|..];
    assert '_' !in x;
    SuffixMissing(c, c[i + |BodyEnd|..], '_');
    PlainAround(x, table, z);
  }

  /**
   * An old section, the whitespace after it and its stamp are removed from
   * a page, the text on either side kept.
   */
  lemma LegacyRemoved(pre: string, mid: string, ws: string, stamp: string, post: string)
    requires forall m :: OccursAt(pre + LegacyHead, LegacyHead, m) ==> m == |pre|
    requires forall m :: OccursAt(mid + LegacyEnd, LegacyEnd, m) ==> m == |mid|
    requires forall i :: 0 <= i < |ws| ==> IsSpace(ws[i])
    requires forall m :: OccursAt(stamp + DivEnd, DivEnd, m) ==> m == |stamp|
    requires forall m :: !OccursAt(post, LegacyHead, m)
    ensures RemoveLegacy(pre + LegacyHead + (mid + LegacyEnd + (ws + (StampTag + stamp + DivEnd + post)))) == pre + post
  {
    assert StampTag[0] == '<';
    BlockRemoved(pre, LegacyHead, mid, LegacyEnd, ws, StampTag, stamp, DivEnd, post);
  }

  /** The minimal page holds the fragment between its head and its tail, with exactly one marker pair. */
  lemma MinimalPageMarked(table: string)
    requires WellFramed(table)
    ensures OnePair(MinimalPage(table))
  {
    PlainAround(PageHead(), table, PageTail());
  }
}
