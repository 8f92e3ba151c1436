/**
 * Facts about where a pattern occurs in a text: how occurrence positions
 * relate to the occurrence count, and how occurrences behave across a seam
 * that holds a newline. The sentinel-marker proofs rest on these.
 */
module TextSearch {
  import opened Wrappers
  import opened Text

  /** A text in which the pattern occurs somewhere has a positive count. */
  lemma OccursCounts(s: string, p: string, i: int)
    requires p != [] && OccursAt(s, p, i)
    ensures Occurrences(s, p) >= 1 && Contains(s, p)
  {
    assert IndexOf(s, p).Some?;
    OccurrencesZero(s, p);
  }

  /** No position holds the pattern when the count is zero. */
  lemma NoOccurrenceAnywhere(s: string, p: string)
    requires p != [] && Occurrences(s, p) == 0
    ensures forall k :: !OccursAt(s, p, k)
  {
    forall k | OccursAt(s, p, k) ensures false {
      OccursCounts(s, p, k);
    }
  }

  /** Two different positions holding the pattern make the count at least two. */
  lemma {:induction false} TwoOccurrences(s: string, p: string, i: int, k: int)
    requires p != [] && i < k && OccursAt(s, p, i) && OccursAt(s, p, k)
    ensures Occurrences(s, p) >= 2
    decreases i
  {
    OccursAtTail(s, p, k - 1);
    if i == 0 {
      assert s[..|p|] == s[0..|p|];
      OccursCounts(s[1..], p, k - 1);
    } else {
      OccursAtTail(s, p, i - 1);
      TwoOccurrences(s[1..], p, i - 1, k - 1);
    }
  }

  /** A pattern counted once occurs at exactly one position. */
  lemma OnlyOccurrence(s: string, p: string, i: int)
    requires p != [] && Occurrences(s, p) == 1 && OccursAt(s, p, i)
    ensures forall k :: OccursAt(s, p, k) ==> k == i
  {
    forall k | OccursAt(s, p, k) ensures k == i {
      if k < i {
        TwoOccurrences(s, p, k, i);
      } else if k > i {
        TwoOccurrences(s, p, i, k);
      }
    }
  }

  /**
   * Across a seam that holds a newline, an occurrence of a newline-free
   * pattern lies wholly on one side.
   */
  lemma OccursAtSeam(a: string, b: string, p: string, k: int)
    requires '\n' !in p
    requires (a != [] && a[|a| - 1] == '\n') || (b != [] && b[0] == '\n')
    requires OccursAt(a + b, p, k)
    ensures (k + |p| <= |a| && OccursAt(a, p, k)) || (k >= |a| && OccursAt(b, p, k - |a|))
  {
    var ab := a + b;
    var n := if a != [] && a[|a| - 1] == '\n' then |a| - 1 else |a|;
    assert ab[n] == '\n';
    forall j | k <= j < k + |p| ensures ab[j] == p[j - k] {
      assert ab[k..k + |p|][j - k] == ab[j];
    }
    if k + |p| <= |a| {
      assert ab[k..k + |p|] == a[k..k + |p|];
    } else {
      assert k >= |a|;
      assert ab[k..k + |p|] == b[k - |a|..k - |a| + |p|];
    }
  }

  /** An occurrence inside one side of a concatenation is an occurrence in the whole. */
  lemma OccursInPart(a: string, b: string, p: string, k: int)
    ensures OccursAt(a, p, k) ==> OccursAt(a + b, p, k)
    ensures OccursAt(b, p, k) ==> OccursAt(a + b, p, k + |a|)
  {
    if OccursAt(a, p, k) {
      assert (a + b)[k..k + |p|] == a[k..k + |p|];
    }
    if OccursAt(b, p, k) {
      assert (a + b)[k + |a|..k + |a| + |p|] == b[k..k + |p|];
    }
  }

  /** A pattern right after a leading line break occurs at position 1. */
  lemma AfterNewline(p: string, y: string)
    ensures OccursAt(("\n" + p) + y, p, 1) && StartsWith(("\n" + p) + y, "\n" + p)
  {
    var t := ("\n" + p) + y;
    assert t[1..1 + |p|] == p;
    assert t[..|p| + 1] == "\n" + p;
  }

  /** A pattern between two line breaks occurs at position 1 and ends the text but for the last break. */
  lemma BetweenNewlines(p: string)
    ensures OccursAt(("\n" + p) + "\n", p, 1) && EndsWith(("\n" + p) + "\n", p + "\n")
  {
    var t := ("\n" + p) + "\n";
    assert t[1..1 + |p|] == p;
    assert t[1..] == p + "\n";
  }

  /** A suffix of the second part is a suffix of the concatenation. */
  lemma EndsWithAppend(a: string, b: string, x: string)
    requires EndsWith(b, x)
    ensures EndsWith(a + b, x)
  {
    assert (a + b)[|a + b| - |x|..] == b[|b| - |x|..];
  }

  /** A pattern occurs exactly once in itself. */
  lemma OccurrencesSelf(p: string)
    requires p != []
    ensures Occurrences(p, p) == 1
  {
    assert p[..|p|] == p;
  }

  /** A text shorter than the pattern holds no occurrence. */
  lemma OccurrencesShort(s: string, p: string)
    requires p != [] && |s| < |p|
    ensures Occurrences(s, p) == 0
  {
  }

  /** A character absent from every piece is absent from the pieces joined by a separator without it. */
  lemma {:induction false} JoinMissingChar(parts: seq<string>, sep: string, c: char)
    requires c !in sep
    requires forall i :: 0 <= i < |parts| ==> c !in parts[i]
    ensures c !in Join(parts, sep)
    decreases |parts|
  {
    if |parts| > 1 {
      JoinMissingChar(parts[1..], sep, c);
    }
  }

  /** A newline-free pattern absent from every line is absent from the lines joined by newlines. */
  lemma {:induction false} JoinLinesNoOccurrence(lines: seq<string>, p: string)
    requires p != [] && '\n' !in p
    requires forall i :: 0 <= i < |lines| ==> Occurrences(lines[i], p) == 0
    ensures Occurrences(Join(lines, "\n"), p) == 0
    decreases |lines|
  {
    if |lines| > 1 {
      JoinLinesNoOccurrence(lines[1..], p);
      var rest := Join(lines[1..], "\n");
      OccurrencesSplit(lines[0] + "\n", rest, p);
      OccurrencesSplit(lines[0], "\n", p);
      assert lines[0] + "\n" + rest == Join(lines, "\n");
    }
  }
}
