/**
 * The replacement string of `re.sub` as Python 3.12's `re` reads it: a
 * template whose backslash escapes are expanded before any match is made.
 * The model is for patterns without capturing groups, like the marker
 * pattern of the report page: there `\g<0>` (the whole match) is the only
 * group reference that exists, and every other one is an error.
 */
module ReTemplate {
  import opened Wrappers
  import opened Text

  /** A piece of a parsed template: literal text, or the whole match. */
  datatype Piece = Chars(s: string) | Whole

  /** A piece put in front of a parsed rest; an error stays the error. */
  function Cons(p: Piece, r: Result<seq<Piece>>): Result<seq<Piece>> {
    if r.Ok? then Ok([p] + r.value) else r
  }

  predicate IsOctal(c: char) { '0' <= c <= '7' }

  /** The value of a run of octal digits. */
  function OctVal(s: string): (v: nat)
    requires forall i :: 0 <= i < |s| ==> IsOctal(s[i])
    ensures v < Pow8(|s|)
    decreases |s|
  {
    if s == [] then 0
    else
      assert IsOctal(s[|s| - 1]);
      8 * OctVal(s[..|s| - 1]) + (s[|s| - 1] as int - '0' as int)
  }

  function Pow8(n: nat): (p: nat)
    ensures p >= 1
  {
    if n == 0 then 1 else 8 * Pow8(n - 1)
  }

  /** How many of the next (at most two) characters are octal digits, as `\0` reads them. */
  function OctalRun(s: string): (n: nat)
    ensures n <= 2 && n <= |s|
    ensures forall i :: 0 <= i < n ==> IsOctal(s[i])
  {
    if |s| >= 1 && IsOctal(s[0]) then (if |s| >= 2 && IsOctal(s[1]) then 2 else 1) else 0
  }

  /** The one-character escapes `\a \b \f \n \r \t \v \\`. */
  function SimpleEscape(c: char): Option<char> {
    if c == 'a' then Some(7 as char)
    else if c == 'b' then Some(8 as char)
    else if c == 'f' then Some(12 as char)
    else if c == 'n' then Some('\n')
    else if c == 'r' then Some('\r')
    else if c == 't' then Some('\t')
    else if c == 'v' then Some(11 as char)
    else if c == '\\' then Some('\\')
    else None
  }

  /** `str.isidentifier` for ASCII text. */
  predicate IsIdentifier(s: string) {
    && s != [] && (IsAsciiLetter(s[0]) || s[0] == '_')
    && forall i :: 0 <= i < |s| ==> IsAsciiLetter(s[i]) || IsDigit(s[i]) || s[i] == '_'
  }

  /**
   * `\g<name>` after the `\g`: how many characters `<name>` takes when it
   * names group 0, which is the only group there is; a missing `<` or `>`,
   * an empty name, a number other than 0 and a name that is not a number
   * are errors (an unknown group name raises IndexError, unless a lone
   * backslash ends the template right after it).
   */
  function GroupRef(u: string): (r: Result<nat>)
    ensures r.Ok? ==> 3 <= r.value <= |u| && u[0] == '<' && u[r.value - 1] == '>'
    ensures r.Ok? ==> forall i :: 1 <= i < r.value - 1 ==> u[i] == '0'
  {
    if u == [] || u[0] != '<' then Err("re.error")
    else
      var j := FirstWhere(u[1..], c => c == '>');
      if j == |u| - 1 || j == 0 then Err("re.error")
      else
        var name := u[1..1 + j];
        if forall i :: 0 <= i < |name| ==> IsDigit(name[i]) then
          if forall i :: 0 <= i < |name| ==> name[i] == '0' then Ok(j + 2) else Err("re.error")
        else if IsIdentifier(name) then
          // The tokenizer reads one token ahead: a lone final backslash after
          // the ">" is a bad escape, raised before the group is looked up.
          if u[j + 2..] == "\\" then Err("re.error") else Err("IndexError")
        else Err("re.error")
  }

  /**
   * One piece of `re._parser.parse_template` at the head of `t`, and how
   * many characters it takes: a literal character stays; `\g<0>` is the
   * whole match; `\0` with up to two more octal digits and a three-digit
   * octal escape up to `\377` are characters; the simple escapes are their
   * characters; any other digit escape is a reference to a group that does
   * not exist, and an escaped ASCII letter without a meaning is a bad escape,
   * both errors; any other escaped character is kept with its backslash.
   */
  function Step(t: string): (r: Result<(Piece, nat)>)
    requires t != []
    ensures r.Ok? ==> 1 <= r.value.1 <= |t|
    ensures t[0] != '\\' ==> r == Ok((Chars([t[0]]), 1))
  {
    if t[0] != '\\' then Ok((Chars([t[0]]), 1))
    else if |t| == 1 then Err("re.error")
    else
      var c := t[1];
      if c == 'g' then
        match GroupRef(t[2..])
        case Err(e) => Err(e)
        case Ok(n) => Ok((Whole, 2 + n))
      else if c == '0' then
        var n := OctalRun(t[2..]);
        Ok((Chars([OctVal(t[2..2 + n]) as char]), 2 + n))
      else if IsDigit(c) then
        if |t| >= 4 && IsOctal(c) && IsOctal(t[2]) && IsOctal(t[3]) then
          var v := OctVal(t[1..4]);
          if v > 255 then Err("re.error") else Ok((Chars([v as char]), 4))
        else Err("re.error")
      else
        match SimpleEscape(c)
        case Some(e) => Ok((Chars([e]), 2))
        case None =>
          if IsAsciiLetter(c) then Err("re.error") else Ok((Chars(['\\', c]), 2))
  }

  /** `re._parser.parse_template`: the pieces of `t` from left to right, or the first error. */
  function Parse(t: string): (r: Result<seq<Piece>>)
    decreases |t|
  {
    if t == [] then Ok([])
    else
      match Step(t)
      case Err(e) => Err(e)
      case Ok((p, n)) => Cons(p, Parse(t[n..]))
  }

  /** The text a parsed template puts in place of the match `m`. */
  function Expand(ps: seq<Piece>, m: string): string
    decreases |ps|
  {
    if ps == [] then [] else (if ps[0].Whole? then m else ps[0].s) + Expand(ps[1..], m)
  }

  /** A template without a group reference: the same text for every match. */
  predicate GroupFree(ps: seq<Piece>) {
    forall i :: 0 <= i < |ps| ==> ps[i].Chars?
  }

  /** The template `t` parses, refers to no group, and puts the text `y` in place of every match. */
  predicate ExpandsTo(t: string, y: string) {
    Parse(t).Ok? && GroupFree(Parse(t).value) && Expand(Parse(t).value, []) == y
  }

  /** Without a group reference the match does not matter. */
  lemma {:induction false} ExpandGroupFree(ps: seq<Piece>, m: string)
    requires GroupFree(ps)
    ensures Expand(ps, m) == Expand(ps, [])
    decreases |ps|
  {
    if ps != [] {
      ExpandGroupFree(ps[1..], m);
    }
  }

  /** Each character of `u` as a piece of its own. */
  function Plain(u: string): (ps: seq<Piece>)
    ensures |ps| == |u| && GroupFree(ps)
    ensures forall i :: 0 <= i < |u| ==> ps[i] == Chars([u[i]])
  {
    seq(|u|, i requires 0 <= i < |u| => Chars([u[i]]))
  }

  /** A character other than a backslash is read as itself. */
  lemma LiteralStep(t: string)
    requires t != [] && t[0] != '\\'
    ensures Parse(t) == Cons(Chars([t[0]]), Parse(t[1..]))
  {
  }

  lemma PlainStep(u: string)
    requires u != []
    ensures Plain(u) == [Chars([u[0]])] + Plain(u[1..])
  {
  }

  /** A prefix without a backslash is read character by character, and the rest is read as it would be alone. */
  lemma {:induction false} PlainPrefix(u: string, v: string)
    requires '\\' !in u
    ensures Parse(u + v) == if Parse(v).Ok? then Ok(Plain(u) + Parse(v).value) else Parse(v)
    decreases |u|
  {
    if u == [] {
      assert u + v == v;
      if Parse(v).Ok? {
        assert Plain(u) + Parse(v).value == Parse(v).value;
      }
    } else {
      var w := u + v;
      assert w[0] == u[0] && w[1..] == u[1..] + v;
      assert '\\' !in u[1..];
      LiteralStep(w);
      PlainPrefix(u[1..], v);
      PlainStep(u);
      var x := Chars([u[0]]);
      var r := Parse(u[1..] + v);
      assert Parse(w) == Cons(x, r);
      if Parse(v).Ok? {
        var pv := Parse(v).value;
        assert r == Ok(Plain(u[1..]) + pv);
        assert [x] + (Plain(u[1..]) + pv) == Plain(u) + pv;
      } else {
        assert r == Parse(v);
      }
    }
  }

  /** The pieces of `Plain(u)` give back `u`. */
  lemma {:induction false} ExpandPlain(u: string, rest: seq<Piece>, m: string)
    ensures Expand(Plain(u) + rest, m) == u + Expand(rest, m)
    decreases |u|
  {
    if u == [] {
      assert Plain(u) + rest == rest;
    } else {
      var ps := Plain(u) + rest;
      assert ps[0] == Chars([u[0]]);
      assert ps[1..] == Plain(u[1..]) + rest;
      ExpandPlain(u[1..], rest, m);
      assert Expand(ps, m) == [u[0]] + (u[1..] + Expand(rest, m));
      assert u == [u[0]] + u[1..];
    }
  }

  /** A template without a backslash is put in as it is. */
  lemma PlainLiteral(t: string)
    requires '\\' !in t
    ensures ExpandsTo(t, t)
  {
    PlainPrefix(t, []);
    assert t + [] == t;
    ExpandPlain(t, [], []);
    assert Plain(t) + [] == Plain(t);
  }

  /** `s.replace("\\", "\\\\")`: every backslash doubled, the usual way to make text a literal template. */
  function Escape(s: string): (r: string)
    ensures '\\' !in s ==> r == s
    decreases |s|
  {
    if s == [] then [] else (if s[0] == '\\' then "\\\\" else [s[0]]) + Escape(s[1..])
  }

  /** Round trip: a template made by doubling the backslashes of `s` puts in exactly `s`. */
  lemma {:induction false} EscapeRoundTrip(s: string)
    ensures ExpandsTo(Escape(s), s)
    decreases |s|
  {
    if s != [] {
      EscapeRoundTrip(s[1..]);
      var rest := Escape(s[1..]);
      var ps := Parse(rest).value;
      var t := Escape(s);
      var x := Chars([s[0]]);
      if s[0] == '\\' {
        assert t == "\\\\" + rest && t[0] == '\\' && t[1] == '\\' && t[2..] == rest;
        assert Step(t) == Ok((x, 2));
      } else {
        assert t == [s[0]] + rest && t[1..] == rest;
      }
      assert Parse(t) == Ok([x] + ps);
      PrependChars(x, ps);
      assert s == [s[0]] + s[1..];
    }
  }

  /** A literal piece in front adds its text in front. */
  lemma PrependChars(x: Piece, ps: seq<Piece>)
    requires x.Chars? && GroupFree(ps)
    ensures GroupFree([x] + ps) && Expand([x] + ps, []) == x.s + Expand(ps, [])
  {
    assert ([x] + ps)[1..] == ps;
  }

  /**
   * An ASCII letter without a meaning after a backslash, with no backslash
   * before it, is a bad escape: the whole template is refused.
   */
  lemma BadEscape(u: string, c: char, v: string)
    requires '\\' !in u && IsAsciiLetter(c) && c != 'g' && SimpleEscape(c).None?
    ensures Parse(u + ['\\', c] + v).Err?
  {
    var w := ['\\', c] + v;
    assert w[1] == c && |w| >= 2;
    assert u + ['\\', c] + v == u + w;
    PlainPrefix(u, w);
  }

  /** A stamp such as `C:\dev` is refused: `\d` is a bad escape. */
  lemma BackslashStampRefused()
    ensures Parse("C:\\dev").Err?
  {
    BadEscape("C:", 'd', "ev");
    assert "C:" + ['\\', 'd'] + "ev" == "C:\\dev";
  }

  /** `\t` in a template becomes a TAB character. */
  lemma TabExpanded()
    ensures ExpandsTo("a\\tb", "a\tb")
  {
    PlainPrefix("a", "\\tb");
    PlainPrefix("b", "");
    var w := "\\tb";
    assert w[0] == '\\' && w[1] == 't' && w[2..] == "b" + "";
    assert Parse("") == Ok([]);
    assert Parse(w) == Cons(Chars(['\t']), Parse("b" + ""));
    assert "a" + w == "a\\tb";
    ExpandPlain("a", [Chars(['\t']), Chars(['b'])], []);
  }

  /** `\g<0>` stands for the whole match. */
  lemma WholeMatchRef()
    ensures Parse("\\g<0>") == Ok([Whole])
  {
    var t := "\\g<0>";
    var u := "<0>";
    assert t[2..] == u && u[1..] == "0>";
    assert FirstWhere("0>"[1..], c => c == '>') == 0;
    assert FirstWhere("0>", c => c == '>') == 1;
    assert u[1..2] == "0";
    assert GroupRef(u) == Ok(3);
    assert t[5..] == [];
    assert Parse(t) == Cons(Whole, Parse([]));
    assert [Whole] + [] == [Whole];
  }
}
