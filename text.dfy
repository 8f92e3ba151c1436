/**
 * Python `str` operations the scripts use, written out: whitespace and
 * `strip`, ASCII case mapping, `startswith`/`endswith`/`in`, occurrence
 * counting, `replace`, the regex substitution "each maximal run of
 * characters outside a class becomes one replacement character",
 * `split(sep)` and `sep.join`, and decimal rendering of a natural number.
 */
module Text {
  import opened Wrappers

  /** Python's `str.isspace()`; a str regex's `\s` matches exactly these characters. */
  predicate IsSpace(c: char) {
    || c == ' '
    || ('\t' <= c <= '\r')
    || ('\U{1C}' <= c <= '\U{1F}')
    || c == '\U{85}'
    || c == '\U{A0}'
    || c == '\U{1680}'
    || ('\U{2000}' <= c <= '\U{200A}')
    || c == '\U{2028}'
    || c == '\U{2029}'
    || c == '\U{202F}'
    || c == '\U{205F}'
    || c == '\U{3000}'
  }

  predicate IsAsciiLetter(c: char) { ('a' <= c <= 'z') || ('A' <= c <= 'Z') }
  predicate IsDigit(c: char) { '0' <= c <= '9' }

  /** `s.lstrip()`: the removed prefix is all whitespace and the rest does not start with any. */
  function LStrip(s: string): (r: string)
    ensures |r| <= |s|
    ensures forall i :: 0 <= i < |s| - |r| ==> IsSpace(s[i])
    ensures r == [] || !IsSpace(r[0])
  {
    if s != [] && IsSpace(s[0]) then LStrip(s[1..]) else s
  }

  /** What `LStrip` keeps is a suffix of its input. */
  lemma {:induction false} LStripSuffix(s: string)
    ensures var r := LStrip(s); r == s[|s| - |r|..]
    decreases |s|
  {
    if s != [] && IsSpace(s[0]) {
      LStripSuffix(s[1..]);
      assert s[1..][|s| - 1 - |LStrip(s)|..] == s[|s| - |LStrip(s)|..];
    }
  }

  /** `s.rstrip()`. */
  function RStrip(s: string): (r: string)
    ensures |r| <= |s| && r == s[..|r|]
    ensures forall i :: |r| <= i < |s| ==> IsSpace(s[i])
    ensures r == [] || !IsSpace(r[|r| - 1])
  {
    if s != [] && IsSpace(s[|s| - 1]) then RStrip(s[..|s| - 1]) else s
  }

  /** `s.strip()`. */
  function Strip(s: string): string {
    RStrip(LStrip(s))
  }

  /** Text without whitespace is its own stripped form. */
  lemma StripNone(s: string)
    requires forall i :: 0 <= i < |s| ==> !IsSpace(s[i])
    ensures Strip(s) == s
  {
    if s != [] {
      assert !IsSpace(s[0]) && !IsSpace(s[|s| - 1]);
    }
    assert LStrip(s) == s;
    assert RStrip(s) == s;
  }

  /** `s.lstrip(c)` for a single character `c`. */
  function TrimLeft(s: string, c: char): (r: string)
    ensures |r| <= |s|
    ensures forall i :: 0 <= i < |s| - |r| ==> s[i] == c
    ensures r == [] || r[0] != c
  {
    if s != [] && s[0] == c then TrimLeft(s[1..], c) else s
  }

  /** What `TrimLeft` keeps is a suffix of its input. */
  lemma {:induction false} TrimLeftSuffix(s: string, c: char)
    ensures var r := TrimLeft(s, c); r == s[|s| - |r|..]
    decreases |s|
  {
    if s != [] && s[0] == c {
      TrimLeftSuffix(s[1..], c);
      assert s[1..][|s| - 1 - |TrimLeft(s, c)|..] == s[|s| - |TrimLeft(s, c)|..];
    }
  }

  /** The position of the first character `stop` accepts, or `|s|` when there is none. */
  function FirstWhere(s: string, stop: char -> bool): (r: nat)
    ensures r <= |s|
    ensures forall j :: 0 <= j < r ==> !stop(s[j])
    ensures r < |s| ==> stop(s[r])
    decreases |s|
  {
    if s == [] || stop(s[0]) then 0 else 1 + FirstWhere(s[1..], stop)
  }

  /** `s.lstrip(chars)` for the characters `drop` accepts. */
  function TrimLeftWhere(s: string, drop: char -> bool): (r: string)
    ensures |r| <= |s|
    decreases |s|
  {
    if s != [] && drop(s[0]) then TrimLeftWhere(s[1..], drop) else s
  }

  /**
   * What `TrimLeftWhere` keeps is a suffix of its input that does not start
   * with a dropped character, and everything before it is dropped.
   */
  lemma {:induction false} TrimLeftShape(s: string, drop: char -> bool)
    ensures var r := TrimLeftWhere(s, drop);
      r == s[|s| - |r|..] && (r == [] || !drop(r[0])) &&
      forall i :: 0 <= i < |s| - |r| ==> drop(s[i])
    decreases |s|
  {
    if s != [] && drop(s[0]) {
      TrimLeftShape(s[1..], drop);
      var r := TrimLeftWhere(s, drop);
      assert s[1..][|s| - 1 - |r|..] == s[|s| - |r|..];
      forall i | 0 <= i < |s| - |r| ensures drop(s[i]) {
        if i > 0 {
          assert s[i] == s[1..][i - 1];
        }
      }
    }
  }

  /** `s` without the characters `drop` accepts. */
  function RemoveWhere(s: string, drop: char -> bool): (r: string)
    ensures |r| <= |s|
    ensures forall i :: 0 <= i < |r| ==> !drop(r[i])
    decreases |s|
  {
    if s == [] then []
    else (if drop(s[0]) then [] else [s[0]]) + RemoveWhere(s[1..], drop)
  }

  /** Removing characters that do not occur changes nothing. */
  lemma {:induction false} RemoveWhereNone(s: string, drop: char -> bool)
    requires forall i :: 0 <= i < |s| ==> !drop(s[i])
    ensures RemoveWhere(s, drop) == s
    decreases |s|
  {
    if s != [] {
      RemoveWhereNone(s[1..], drop);
      assert s == [s[0]] + s[1..];
    }
  }

  /** `str.lower()` / `str.upper()` restricted to ASCII letters. */
  function LowerChar(c: char): char {
    if 'A' <= c <= 'Z' then (c as int + 32) as char else c
  }

  function UpperChar(c: char): char {
    if 'a' <= c <= 'z' then (c as int - 32) as char else c
  }

  function Lower(s: string): (r: string)
    ensures |r| == |s|
  {
    seq(|s|, i requires 0 <= i < |s| => LowerChar(s[i]))
  }

  function Upper(s: string): (r: string)
    ensures |r| == |s|
  {
    seq(|s|, i requires 0 <= i < |s| => UpperChar(s[i]))
  }

  predicate StartsWith(s: string, p: string) { |p| <= |s| && s[..|p|] == p }
  predicate EndsWith(s: string, p: string) { |p| <= |s| && s[|s| - |p|..] == p }

  /** `p` occurs in `s` starting at position `i`. */
  predicate OccursAt(s: string, p: string, i: int) {
    0 <= i && i + |p| <= |s| && s[i..i + |p|] == p
  }

  lemma OccursAtTail(s: string, p: string, k: int)
    requires s != [] && 0 <= k
    ensures OccursAt(s, p, k + 1) <==> OccursAt(s[1..], p, k)
  {
    if k + 1 + |p| <= |s| {
      assert s[k + 1..k + 1 + |p|] == s[1..][k..k + |p|];
    }
  }

  /** `s.find(p)`: the first position at which `p` occurs, if any. */
  function IndexOf(s: string, p: string): Option<nat>
  {
    IndexFrom(s, p, 0)
  }

  /** `s.find(p, start)`: the first position from `start` on at which `p` occurs, if any. */
  function IndexFrom(s: string, p: string, start: nat): (r: Option<nat>)
    ensures r.Some? ==> start <= r.value && OccursAt(s, p, r.value)
    ensures r.Some? ==> forall k :: start <= k < r.value ==> !OccursAt(s, p, k)
    ensures r.None? ==> forall k :: start <= k ==> !OccursAt(s, p, k)
    decreases |s| - start
  {
    if start + |p| > |s| then None
    else if s[start..start + |p|] == p then Some(start)
    else IndexFrom(s, p, start + 1)
  }

  /** `p in s`. */
  predicate Contains(s: string, p: string) {
    IndexOf(s, p).Some?
  }

  /** Number of (possibly overlapping) positions at which `p` occurs in `s`. */
  function Occurrences(s: string, p: string): nat
    requires p != []
    decreases |s|
  {
    if |s| < |p| then 0
    else (if StartsWith(s, p) then 1 else 0) + Occurrences(s[1..], p)
  }

  /** The count is zero exactly when the text does not contain the pattern. */
  lemma {:induction false} OccurrencesZero(s: string, p: string)
    requires p != []
    ensures Occurrences(s, p) == 0 <==> !Contains(s, p)
    decreases |s|
  {
    if |s| >= |p| {
      OccurrencesZero(s[1..], p);
      assert s[0..|p|] == s[..|p|];
      if !StartsWith(s, p) && Contains(s[1..], p) {
        OccursAtTail(s, p, IndexOf(s[1..], p).value);
      }
      if !StartsWith(s, p) && Contains(s, p) {
        var i := IndexOf(s, p).value;
        OccursAtTail(s, p, i - 1);
      }
    }
  }

  /** A text that lacks a character of the pattern does not contain the pattern. */
  lemma MissingCharNoOccurrence(s: string, p: string, c: char)
    requires p != [] && c in p && c !in s
    ensures !Contains(s, p) && Occurrences(s, p) == 0
  {
    OccurrencesZero(s, p);
  }

  /**
   * Counting across a line break: when the pattern holds no newline and a
   * newline sits at the seam, no occurrence straddles the seam.
   */
  lemma {:induction false} OccurrencesSplit(a: string, b: string, p: string)
    requires p != [] && '\n' !in p
    requires (a != [] && a[|a| - 1] == '\n') || (b != [] && b[0] == '\n')
    ensures Occurrences(a + b, p) == Occurrences(a, p) + Occurrences(b, p)
    decreases |a|
  {
    if a == [] {
      assert a + b == b;
    } else {
      var ab := a + b;
      assert ab[1..] == a[1..] + b;
      if |a| == 1 {
        assert a[1..] + b == b;
      } else {
        OccurrencesSplit(a[1..], b, p);
      }
      if |a| >= |p| {
        assert ab[..|p|] == a[..|p|];
      } else if |ab| >= |p| {
        var k := if a[|a| - 1] == '\n' then |a| - 1 else |a|;
        assert ab[k] == '\n' && k < |p|;
        assert ab[..|p|][k] == ab[k];
        assert !StartsWith(ab, p);
      }
    }
  }

  /** `s[:n]`. */
  function Take(s: string, n: nat): (r: string)
    ensures |r| <= n && |r| <= |s| && r == s[..|r|]
    ensures |r| == if |s| <= n then |s| else n
    ensures |s| <= n ==> r == s
  {
    if |s| <= n then s else s[..n]
  }

  /** `s.replace(p, r)`: left to right, non-overlapping. */
  function ReplaceAll(s: string, p: string, r: string): string
    requires p != []
    decreases |s|
  {
    if |s| < |p| then s
    else if StartsWith(s, p) then r + ReplaceAll(s[|p|..], p, r)
    else [s[0]] + ReplaceAll(s[1..], p, r)
  }

  /** The text after the last `c` in `s` (all of `s` when there is none). */
  function AfterLast(s: string, c: char): (r: string)
    ensures |r| <= |s|
    ensures c !in r
  {
    if s == [] then []
    else if s[|s| - 1] == c then []
    else AfterLast(s[..|s| - 1], c) + [s[|s| - 1]]
  }

  /** What `AfterLast` keeps is a suffix of its input, preceded by `c` when it is shorter. */
  lemma {:induction false} AfterLastSuffix(s: string, c: char)
    ensures var r := AfterLast(s, c); r == s[|s| - |r|..] && (|r| < |s| ==> s[|s| - |r| - 1] == c)
    decreases |s|
  {
    if s != [] && s[|s| - 1] != c {
      var init := s[..|s| - 1];
      AfterLastSuffix(init, c);
      var r := AfterLast(init, c);
      assert init[|init| - |r|..] + [s[|s| - 1]] == s[|s| - 1 - |r|..];
    }
  }

  /** A suffix of a suffix is a suffix. */
  lemma SuffixOfSuffix(s: string, t: string, e: string)
    requires EndsWith(s, t) && EndsWith(t, e)
    ensures EndsWith(s, e)
  {
    assert s[|s| - |e|..] == s[|s| - |t|..][|t| - |e|..];
  }

  /** A suffix of text without `c` has no `c` either. */
  lemma SuffixChars(s: string, e: string, c: char)
    requires c !in s && |e| <= |s| && e == s[|s| - |e|..]
    ensures c !in e && EndsWith(s, e)
  {
    assert forall i :: 0 <= i < |e| ==> e[i] == s[|s| - |e| + i];
  }

  /** Whatever precedes the last `c`, the text after it is what follows it. */
  lemma {:induction false} AfterLastAt(a: string, e: string, c: char)
    requires c !in e
    ensures AfterLast(a + [c] + e, c) == e
    decreases |e|
  {
    if e != [] {
      var init := e[..|e| - 1];
      AfterLastAt(a, init, c);
      assert (a + [c] + e)[..|a + [c] + e| - 1] == a + [c] + init;
    }
  }

  // ---------------------------------------------------------------------------
  // Regex substitution of maximal runs outside a character class.
  // ---------------------------------------------------------------------------

  /** The text after the maximal leading run of characters that `keep` rejects. */
  function DropRun(s: string, keep: char -> bool): (r: string)
    ensures |r| <= |s|
    ensures forall i :: 0 <= i < |s| - |r| ==> !keep(s[i])
    ensures r == [] || keep(r[0])
    ensures s != [] && !keep(s[0]) ==> |r| < |s|
  {
    if s != [] && !keep(s[0]) then DropRun(s[1..], keep) else s
  }

  /** What `DropRun` keeps is a suffix of its input. */
  lemma {:induction false} DropRunSuffix(s: string, keep: char -> bool)
    ensures var r := DropRun(s, keep); r == s[|s| - |r|..]
    decreases |s|
  {
    if s != [] && !keep(s[0]) {
      DropRunSuffix(s[1..], keep);
      assert s[1..][|s| - 1 - |DropRun(s, keep)|..] == s[|s| - |DropRun(s, keep)|..];
    }
  }

  /**
   * `re.sub("[^class]+", rep, s)`: every maximal run of characters outside the
   * class (those `keep` rejects) becomes one `rep`.
   */
  function ReplaceRuns(s: string, keep: char -> bool, rep: char): string
    decreases |s|
  {
    if s == [] then []
    else if keep(s[0]) then [s[0]] + ReplaceRuns(s[1..], keep, rep)
    else [rep] + ReplaceRuns(DropRun(s, keep), keep, rep)
  }

  /**
   * The shape `ReplaceRuns` produces: every rejected character is `rep` and is
   * followed by an accepted character or by the end.
   */
  ghost predicate Collapsed(t: string, keep: char -> bool, rep: char) {
    forall i :: 0 <= i < |t| && !keep(t[i]) ==> t[i] == rep && (i + 1 < |t| ==> keep(t[i + 1]))
  }

  lemma {:induction false} ReplaceRunsHead(s: string, keep: char -> bool, rep: char)
    requires s != [] && keep(s[0])
    ensures ReplaceRuns(s, keep, rep) != [] && ReplaceRuns(s, keep, rep)[0] == s[0]
  {
  }

  /** Every character of the output is an accepted input character or `rep`. */
  lemma {:induction false} ReplaceRunsChars(s: string, keep: char -> bool, rep: char)
    ensures forall i :: 0 <= i < |ReplaceRuns(s, keep, rep)| ==>
      var c := ReplaceRuns(s, keep, rep)[i]; (keep(c) && c in s) || c == rep
    decreases |s|
  {
    if s == [] {
    } else if keep(s[0]) {
      ReplaceRunsChars(s[1..], keep, rep);
    } else {
      var d := DropRun(s, keep);
      DropRunSuffix(s, keep);
      ReplaceRunsChars(d, keep, rep);
      assert forall c :: c in d ==> c in s;
    }
  }

  /** Prefixing an accepted character, or `rep` before an accepted character, keeps the collapsed shape. */
  lemma CollapsedCons(c: char, t: string, keep: char -> bool, rep: char)
    requires Collapsed(t, keep, rep)
    requires keep(c) || (c == rep && (t == [] || keep(t[0])))
    ensures Collapsed([c] + t, keep, rep)
  {
    var u := [c] + t;
    forall i | 0 <= i < |u| && !keep(u[i])
      ensures u[i] == rep && (i + 1 < |u| ==> keep(u[i + 1]))
    {
      if i > 0 {
        assert u[i] == t[i - 1];
        if i + 1 < |u| {
          assert u[i + 1] == t[i];
        }
      } else if i + 1 < |u| {
        assert u[1] == t[0];
      }
    }
  }

  /** The output of `ReplaceRuns` has the collapsed shape. */
  lemma {:induction false} ReplaceRunsCollapsed(s: string, keep: char -> bool, rep: char)
    ensures Collapsed(ReplaceRuns(s, keep, rep), keep, rep)
    decreases |s|
  {
    if s == [] {
    } else if keep(s[0]) {
      ReplaceRunsCollapsed(s[1..], keep, rep);
      CollapsedCons(s[0], ReplaceRuns(s[1..], keep, rep), keep, rep);
    } else {
      var d := DropRun(s, keep);
      ReplaceRunsCollapsed(d, keep, rep);
      if d != [] {
        ReplaceRunsHead(d, keep, rep);
      }
      CollapsedCons(rep, ReplaceRuns(d, keep, rep), keep, rep);
    }
  }

  /** A suffix of collapsed text after its first character is collapsed. */
  lemma CollapsedTail(t: string, keep: char -> bool, rep: char)
    requires Collapsed(t, keep, rep) && t != []
    ensures Collapsed(t[1..], keep, rep)
  {
    var u := t[1..];
    forall i | 0 <= i < |u| && !keep(u[i])
      ensures u[i] == rep && (i + 1 < |u| ==> keep(u[i + 1]))
    {
      assert u[i] == t[i + 1];
      if i + 1 < |u| {
        assert u[i + 1] == t[i + 2];
      }
    }
  }

  /** Text that already has the collapsed shape is left unchanged. */
  lemma {:induction false} ReplaceRunsFixed(t: string, keep: char -> bool, rep: char)
    requires Collapsed(t, keep, rep)
    ensures ReplaceRuns(t, keep, rep) == t
    decreases |t|
  {
    if t != [] {
      CollapsedTail(t, keep, rep);
      ReplaceRunsFixed(t[1..], keep, rep);
      if !keep(t[0]) {
        assert t[1..] == [] || keep(t[1..][0]);
        assert DropRun(t, keep) == t[1..];
      }
      assert t == [t[0]] + t[1..];
    }
  }

  /** Substituting runs twice is the same as substituting them once. */
  lemma ReplaceRunsIdempotent(s: string, keep: char -> bool, rep: char)
    ensures ReplaceRuns(ReplaceRuns(s, keep, rep), keep, rep) == ReplaceRuns(s, keep, rep)
  {
    ReplaceRunsCollapsed(s, keep, rep);
    ReplaceRunsFixed(ReplaceRuns(s, keep, rep), keep, rep);
  }

  /** A prefix of collapsed text is collapsed. */
  lemma CollapsedPrefix(t: string, n: nat, keep: char -> bool, rep: char)
    requires Collapsed(t, keep, rep)
    ensures Collapsed(Take(t, n), keep, rep)
  {
  }

  // ---------------------------------------------------------------------------
  // split / join and decimal rendering.
  // ---------------------------------------------------------------------------

  /** `s.split(sep)` for a one-character separator: empty pieces are kept. */
  function SplitOn(s: string, sep: char): (parts: seq<string>)
    ensures |parts| >= 1
    ensures forall k :: 0 <= k < |parts| ==> sep !in parts[k]
    decreases |s|
  {
    if s == [] then [""]
    else
      var rest := SplitOn(s[1..], sep);
      if s[0] == sep then [""] + rest
      else [[s[0]] + rest[0]] + rest[1..]
  }

  /** `sep.join(parts)`. */
  function Join(parts: seq<string>, sep: string): string
    decreases |parts|
  {
    if parts == [] then ""
    else if |parts| == 1 then parts[0]
    else parts[0] + sep + Join(parts[1..], sep)
  }

  /** Splitting on a character and joining with it gives the text back. */
  lemma {:induction false} JoinSplit(s: string, sep: char)
    ensures Join(SplitOn(s, sep), [sep]) == s
    decreases |s|
  {
    if s != [] {
      var rest := SplitOn(s[1..], sep);
      JoinSplit(s[1..], sep);
      if s[0] == sep {
        assert ([""] + rest)[1..] == rest;
      } else {
        var parts := [[s[0]] + rest[0]] + rest[1..];
        if |rest| == 1 {
          assert parts == [[s[0]] + rest[0]];
        } else {
          assert parts[1..] == rest[1..];
          assert Join(parts, [sep]) == [s[0]] + rest[0] + [sep] + Join(rest[1..], [sep]);
        }
      }
    }
  }

  /** A text without the separator splits into itself alone. */
  lemma {:induction false} SplitOnFree(s: string, sep: char)
    requires sep !in s
    ensures SplitOn(s, sep) == [s]
    decreases |s|
  {
    if s != [] {
      SplitOnFree(s[1..], sep);
      assert [s[0]] + s[1..] == s;
    }
  }

  /** A separator-free first piece followed by the separator splits off as the first part. */
  lemma {:induction false} SplitOnPrefix(a: string, b: string, sep: char)
    requires sep !in a
    ensures SplitOn(a + [sep] + b, sep) == [a] + SplitOn(b, sep)
    decreases |a|
  {
    var s := a + [sep] + b;
    if a == [] {
      assert s[1..] == b;
    } else {
      assert s[1..] == a[1..] + [sep] + b;
      SplitOnPrefix(a[1..], b, sep);
      assert [a[0]] + a[1..] == a;
    }
  }

  /** Joining separator-free parts and splitting again gives the parts back. */
  lemma {:induction false} SplitJoin(parts: seq<string>, sep: char)
    requires parts != []
    requires forall k :: 0 <= k < |parts| ==> sep !in parts[k]
    ensures SplitOn(Join(parts, [sep]), sep) == parts
    decreases |parts|
  {
    if |parts| == 1 {
      SplitOnFree(parts[0], sep);
    } else {
      SplitJoin(parts[1..], sep);
      SplitOnPrefix(parts[0], Join(parts[1..], [sep]), sep);
      assert [parts[0]] + parts[1..] == parts;
    }
  }

  function DigitChar(d: nat): (c: char)
    requires d < 10
    ensures IsDigit(c)
  {
    ('0' as int + d) as char
  }

  /** The number a string of decimal digits denotes, most significant digit first. */
  function DigitsValue(s: string): nat
    requires forall i :: 0 <= i < |s| ==> IsDigit(s[i])
  {
    if s == [] then 0
    else
      assert IsDigit(s[|s| - 1]);
      10 * DigitsValue(s[..|s| - 1]) + (s[|s| - 1] as int - '0' as int)
  }

  /** `str(n)` for a natural number: its decimal digits, with no leading zero. */
  function NatToString(n: nat): (r: string)
    ensures |r| >= 1
    ensures forall i :: 0 <= i < |r| ==> IsDigit(r[i])
    ensures DigitsValue(r) == n
    ensures r[0] == '0' <==> n == 0
  {
    if n < 10 then
      var r := [DigitChar(n)];
      assert r[..0] == [];
      r
    else
      var r := NatToString(n / 10) + [DigitChar(n % 10)];
      assert r[..|r| - 1] == NatToString(n / 10);
      r
  }
}
