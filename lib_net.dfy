/**
 * The shared network helpers: URL and title canonicalisation for news
 * identity, first-occurrence deduplication, and ordered mirror fallback.
 * HTTP is an oracle from a request to an outcome (a response or a raised
 * exception); sessions, retries, timeouts and sleeping are not modelled.
 */
module LibNet {
  import opened Wrappers
  import opened JsonValues
  import opened Text

  // ---------------------------------------------------------------------------
  // `urllib.parse.urlsplit` / `urlunsplit`.
  // ---------------------------------------------------------------------------

  /** The five components `urlsplit` returns. */
  datatype SplitUrl = SplitUrl(scheme: string, netloc: string, path: string, query: string, fragment: string)

  /** `scheme_chars`: ASCII letters, digits and "+-.". */
  predicate SchemeChar(c: char) {
    IsAsciiLetter(c) || IsDigit(c) || c == '+' || c == '-' || c == '.'
  }

  /** `_WHATWG_C0_CONTROL_OR_SPACE`, stripped from the front of the URL. */
  predicate C0OrSpace(c: char) { c <= ' ' }

  /** `_UNSAFE_URL_BYTES_TO_REMOVE`, removed everywhere. */
  predicate UnsafeUrlChar(c: char) { c == '\t' || c == '\r' || c == '\n' }

  predicate NetlocEnd(c: char) { c == '/' || c == '?' || c == '#' }

  predicate IsColon(c: char) { c == ':' }

  /** The URL with leading control characters and spaces stripped and tabs and newlines removed. */
  function Cleaned(raw: string): (r: string)
    ensures forall i :: 0 <= i < |r| ==> !UnsafeUrlChar(r[i])
  {
    RemoveWhere(TrimLeftWhere(raw, C0OrSpace), UnsafeUrlChar)
  }

  /** The text before the first colon is a non-empty scheme starting with a letter. */
  predicate HasScheme(url: string) {
    var i := FirstWhere(url, IsColon);
    0 < i < |url| && IsAsciiLetter(url[0]) && forall j :: 0 <= j < i ==> SchemeChar(url[j])
  }

  /** The lower-cased scheme and the text after its colon, or no scheme and the whole URL. */
  function SplitScheme(url: string): (r: (string, string))
    ensures forall j :: 0 <= j < |r.0| ==> SchemeChar(r.0[j])
    ensures HasScheme(url) ==> r == (Lower(url[..FirstWhere(url, IsColon)]), url[FirstWhere(url, IsColon) + 1..])
    ensures !HasScheme(url) ==> r == ("", url)
  {
    var i := FirstWhere(url, IsColon);
    if HasScheme(url) then
      var scheme := Lower(url[..i]);
      assert forall j :: 0 <= j < |scheme| ==> scheme[j] == LowerChar(url[j]);
      (scheme, url[i + 1..])
    else ("", url)
  }

  /** After "//", the netloc runs to the first "/", "?" or "#"; without "//" there is none. */
  function SplitNetloc(url: string): (r: (string, string))
    ensures forall j :: 0 <= j < |r.0| ==> !NetlocEnd(r.0[j])
    ensures StartsWith(url, "//") ==> url == "//" + r.0 + r.1 && (r.1 == [] || NetlocEnd(r.1[0]))
    ensures !StartsWith(url, "//") ==> r == ("", url)
  {
    if StartsWith(url, "//") then
      var d := FirstWhere(url[2..], NetlocEnd);
      assert url == "//" + url[2..][..d] + url[2..][d..];
      (url[2..][..d], url[2..][d..])
    else ("", url)
  }

  function IsChar(c: char): char -> bool {
    x => x == c
  }

  /** `s.partition(c)` without the separator: the text before the first `c` and the text after it. */
  function SplitAtFirst(s: string, c: char): (r: (string, string))
    ensures c !in r.0
    ensures c in s ==> s == r.0 + [c] + r.1
    ensures c !in s ==> r == (s, "")
  {
    var i := FirstWhere(s, IsChar(c));
    assert c !in s[..i] by {
      forall j | 0 <= j < i ensures s[..i][j] != c { assert s[..i][j] == s[j]; }
    }
    if i < |s| then
      assert s == s[..i] + [c] + s[i + 1..];
      (s[..i], s[i + 1..])
    else
      assert s[..i] == s;
      (s, "")
  }

  /** Only the first separator splits: any text without `c`, then `c`, then anything. */
  lemma SplitAtFirstUnique(s: string, c: char, a: string, b: string)
    requires c !in a && s == a + [c] + b
    ensures SplitAtFirst(s, c) == (a, b)
  {
    var r := SplitAtFirst(s, c);
    assert s[|a|] == c;
    assert forall j :: 0 <= j < |a| ==> s[j] == a[j];
    assert FirstWhere(s, IsChar(c)) == |a|;
    assert r.0 == s[..|a|] == a;
    assert r.1 == s[|a| + 1..] == b;
  }

  /**
   * NFKC of one character, for the characters whose compatibility form
   * holds one of "/?#@:": the fullwidth and small forms, the vertical
   * presentation forms, the doubled question and exclamation marks, the
   * double colon equal sign and the letterlike "a/c", "a/s", "c/o" and "c/u".
   * Every other character is its own form here.
   */
  function NfkcChar(c: char): string {
    match c
    case '\U{FF03}' => "#"
    case '\U{FF0F}' => "/"
    case '\U{FF1A}' => ":"
    case '\U{FF1F}' => "?"
    case '\U{FF20}' => "@"
    case '\U{FE55}' => ":"
    case '\U{FE56}' => "?"
    case '\U{FE5F}' => "#"
    case '\U{FE6B}' => "@"
    case '\U{FE13}' => ":"
    case '\U{FE16}' => "?"
    case '\U{2047}' => "??"
    case '\U{2048}' => "?!"
    case '\U{2049}' => "!?"
    case '\U{2100}' => "a/c"
    case '\U{2101}' => "a/s"
    case '\U{2105}' => "c/o"
    case '\U{2106}' => "c/u"
    case '\U{2A74}' => "::="
    case _ => [c]
  }

  /** `unicodedata.normalize("NFKC", s)`, character by character. */
  function Nfkc(s: string): (r: string)
    ensures (forall i :: 0 <= i < |s| ==> NfkcChar(s[i]) == [s[i]]) ==> r == s
    decreases |s|
  {
    if s == [] then [] else NfkcChar(s[0]) + Nfkc(s[1..])
  }

  /** The characters `_checknetloc` looks for after normalising. */
  predicate Delimiter(c: char) { c == '/' || c == '?' || c == '#' || c == '@' || c == ':' }

  predicate HasDelimiter(s: string) { exists i :: 0 <= i < |s| && Delimiter(s[i]) }

  /** The characters `_checknetloc` removes before normalising. */
  predicate NetlocStripped(c: char) { c == '@' || c == ':' || c == '#' || c == '?' }

  predicate IsAscii(s: string) { forall i :: 0 <= i < |s| ==> s[i] < '\U{80}' }

  /**
   * `_checknetloc(netloc)`: a non-empty, non-ASCII netloc whose NFKC form,
   * after removing "@", ":", "#" and "?", changes and then holds one of
   * "/?#@:" raises ValueError.
   */
  predicate NetlocRefused(netloc: string) {
    && netloc != [] && !IsAscii(netloc)
    && var n := RemoveWhere(netloc, NetlocStripped);
       var n2 := Nfkc(n);
       n != n2 && HasDelimiter(n2)
  }

  /** A character with a form of its own is not ASCII, and its form holds a delimiter. */
  lemma CompatibleChar(c: char)
    requires NfkcChar(c) != [c]
    ensures c >= '\U{80}' && HasDelimiter(NfkcChar(c))
  {
    var f := NfkcChar(c);
    assert Delimiter(f[0]) || Delimiter(f[1]);
  }

  lemma DelimiterAppend(a: string, b: string)
    requires HasDelimiter(a) || HasDelimiter(b)
    ensures HasDelimiter(a + b)
  {
    if HasDelimiter(a) {
      var i :| 0 <= i < |a| && Delimiter(a[i]);
      assert (a + b)[i] == a[i];
    } else {
      var i :| 0 <= i < |b| && Delimiter(b[i]);
      assert (a + b)[|a| + i] == b[i];
    }
  }

  /** Removing "@:#?" from a netloc, which holds no "/", leaves no delimiter. */
  lemma {:induction false} StrippedNoDelimiter(netloc: string)
    requires forall i :: 0 <= i < |netloc| ==> !NetlocEnd(netloc[i])
    ensures !HasDelimiter(RemoveWhere(netloc, NetlocStripped))
    decreases |netloc|
  {
    if netloc != [] {
      StrippedNoDelimiter(netloc[1..]);
      var h := if NetlocStripped(netloc[0]) then [] else [netloc[0]];
      var t := RemoveWhere(netloc[1..], NetlocStripped);
      forall i | 0 <= i < |h + t| ensures !Delimiter((h + t)[i]) {
        if i >= |h| {
          assert (h + t)[i] == t[i - |h|];
        }
      }
    }
  }

  /** A character with a form of its own survives the removal and puts a delimiter into the normal form. */
  lemma {:induction false} CompatibleKept(netloc: string, i: nat)
    requires i < |netloc| && NfkcChar(netloc[i]) != [netloc[i]]
    ensures HasDelimiter(Nfkc(RemoveWhere(netloc, NetlocStripped)))
    decreases i
  {
    var t := RemoveWhere(netloc[1..], NetlocStripped);
    if i == 0 {
      CompatibleChar(netloc[0]);
      assert RemoveWhere(netloc, NetlocStripped) == [netloc[0]] + t;
      assert ([netloc[0]] + t)[1..] == t;
      DelimiterAppend(NfkcChar(netloc[0]), Nfkc(t));
    } else {
      assert netloc[1..][i - 1] == netloc[i];
      CompatibleKept(netloc[1..], i - 1);
      if NetlocStripped(netloc[0]) {
        assert RemoveWhere(netloc, NetlocStripped) == t;
      } else {
        assert RemoveWhere(netloc, NetlocStripped) == [netloc[0]] + t;
        assert ([netloc[0]] + t)[1..] == t;
        DelimiterAppend(NfkcChar(netloc[0]), Nfkc(t));
      }
    }
  }

  /** Removing characters keeps every remaining character one of the input's. */
  lemma {:induction false} RemovedFrom(s: string, drop: char -> bool, j: nat)
    requires j < |RemoveWhere(s, drop)|
    ensures exists i :: 0 <= i < |s| && s[i] == RemoveWhere(s, drop)[j]
    decreases |s|
  {
    var h := if drop(s[0]) then [] else [s[0]];
    var t := RemoveWhere(s[1..], drop);
    assert RemoveWhere(s, drop) == h + t;
    if j < |h| {
      assert (h + t)[j] == s[0];
    } else {
      assert (h + t)[j] == t[j - |h|];
      RemovedFrom(s[1..], drop, j - |h|);
      var i :| 0 <= i < |s[1..]| && s[1..][i] == t[j - |h|];
      assert s[i + 1] == s[1..][i];
    }
  }

  /**
   * A netloc is refused exactly when one of its characters has a normal
   * form of its own: that form is the delimiter `_checknetloc` finds.
   */
  lemma NetlocRefusedIff(netloc: string)
    requires forall i :: 0 <= i < |netloc| ==> !NetlocEnd(netloc[i])
    ensures NetlocRefused(netloc) <==> exists i :: 0 <= i < |netloc| && NfkcChar(netloc[i]) != [netloc[i]]
  {
    var n := RemoveWhere(netloc, NetlocStripped);
    StrippedNoDelimiter(netloc);
    if i :| 0 <= i < |netloc| && NfkcChar(netloc[i]) != [netloc[i]] {
      CompatibleChar(netloc[i]);
      CompatibleKept(netloc, i);
      assert !IsAscii(netloc);
      assert n != Nfkc(n);
    } else {
      forall j | 0 <= j < |n| ensures NfkcChar(n[j]) == [n[j]] {
        RemovedFrom(netloc, NetlocStripped, j);
      }
    }
  }

  /**
   * `urlsplit(url)`: an optional scheme (lower-cased), a netloc after "//" up
   * to the first "/", "?" or "#", then the fragment after the first "#" and
   * the query after the first "?" before it. A netloc with an unmatched
   * bracket, or one `_checknetloc` refuses, raises ValueError.
   */
  function UrlSplit(raw: string): (r: Result<SplitUrl>)
    ensures r.Err? <==> var n := SplitNetloc(SplitScheme(Cleaned(raw)).1).0; ('[' in n) != (']' in n) || NetlocRefused(n)
    ensures r.Err? ==> r.error == "ValueError"
    ensures r.Ok? ==> forall i :: 0 <= i < |r.value.scheme| ==> SchemeChar(r.value.scheme[i])
    ensures r.Ok? ==> forall i :: 0 <= i < |r.value.netloc| ==> !NetlocEnd(r.value.netloc[i])
    ensures r.Ok? ==> '?' !in r.value.path && '#' !in r.value.path && '#' !in r.value.query
  {
    var scheme := SplitScheme(Cleaned(raw));
    var netloc := SplitNetloc(scheme.1);
    var n := netloc.0;
    if ('[' in n) != (']' in n) || NetlocRefused(n) then Err("ValueError")
    else
      var fragment := SplitAtFirst(netloc.1, '#');
      var query := SplitAtFirst(fragment.0, '?');
      assert '#' !in query.0 && '#' !in query.1 by {
        if '?' in fragment.0 {
          assert fragment.0 == query.0 + ['?'] + query.1;
        }
      }
      Ok(SplitUrl(scheme.0, n, query.0, query.1, fragment.1))
  }

  /** `uses_netloc`: the schemes `urlunsplit` writes with "//". */
  const UsesNetloc: set<string> := {
    "", "ftp", "http", "gopher", "nntp", "telnet", "imap", "wais", "file", "mms", "https", "shttp", "snews",
    "prospero", "rtsp", "rtsps", "rtspu", "rsync", "svn", "svn+ssh", "sftp", "nfs", "git", "git+ssh", "ws", "wss",
    "itms-services"}

  /**
   * `urlunsplit(parts)`: "//netloc" when there is a netloc (or the scheme
   * uses one), then "scheme:" in front, "?query" and "#fragment" behind, each
   * only when non-empty.
   */
  function UrlUnsplit(p: SplitUrl): string {
    var withNetloc := p.netloc != [] || (p.scheme != [] && p.scheme in UsesNetloc && !StartsWith(p.path, "//"));
    var path := if withNetloc && p.path != [] && p.path[0] != '/' then "/" + p.path else p.path;
    var url := if withNetloc then "//" + p.netloc + path else path;
    var url := if p.scheme != [] then p.scheme + ":" + url else url;
    var url := if p.query != [] then url + "?" + p.query else url;
    var url := if p.fragment != [] then url + "#" + p.fragment else url;
    url
  }

  /** Without query and fragment, and with the path left as it is, `urlunsplit` ends with the path. */
  lemma UnsplitEndsWithPath(p: SplitUrl)
    requires p.query == [] && p.fragment == [] && (p.netloc != [] || p.scheme !in UsesNetloc)
    ensures EndsWith(UrlUnsplit(p), p.path)
  {
  }

  /** Without a fragment, `urlunsplit` writes a "#" only when a component holds one. */
  lemma UnsplitHasNoHash(p: SplitUrl)
    requires p.fragment == [] && '#' !in p.scheme + p.netloc + p.path + p.query
    ensures '#' !in UrlUnsplit(p)
  {
    assert '#' !in p.scheme && '#' !in p.netloc && '#' !in p.path && '#' !in p.query;
  }

  /** No tab, carriage return or newline. */
  predicate SafeText(s: string) {
    forall i :: 0 <= i < |s| ==> !UnsafeUrlChar(s[i])
  }

  lemma SafeConcat(a: string, b: string)
    requires SafeText(a) && SafeText(b)
    ensures SafeText(a + b)
  {
    forall i | 0 <= i < |a + b| ensures !UnsafeUrlChar((a + b)[i]) {
      if i >= |a| {
        assert (a + b)[i] == b[i - |a|];
      }
    }
  }

  /**
   * Components that `urlunsplit` writes out unambiguously: a lower-case
   * scheme, a non-empty netloc, an absolute or empty path, no separator
   * inside a component it would end, and no character `urlsplit` discards.
   */
  ghost predicate Writable(p: SplitUrl) {
    && p.scheme != [] && IsAsciiLetter(p.scheme[0]) && Lower(p.scheme) == p.scheme
    && (forall i :: 0 <= i < |p.scheme| ==> SchemeChar(p.scheme[i]))
    && p.netloc != [] && (forall i :: 0 <= i < |p.netloc| ==> !NetlocEnd(p.netloc[i]))
    && ('[' in p.netloc) == (']' in p.netloc)
    && (p.path == [] || p.path[0] == '/')
    && '?' !in p.path && '#' !in p.path && '#' !in p.query
    && SafeText(p.netloc) && SafeText(p.path) && SafeText(p.query) && SafeText(p.fragment)
  }

  /** Writable components with a netloc `_checknetloc` accepts. */
  ghost predicate Canonical(p: SplitUrl) {
    Writable(p) && !NetlocRefused(p.netloc)
  }

  /** The text after the netloc that `urlunsplit` writes. */
  function Tail(p: SplitUrl): string {
    p.path + (if p.query != [] then "?" + p.query else "") + (if p.fragment != [] then "#" + p.fragment else "")
  }

  /** Splitting the text after the netloc gives back path, query and fragment. */
  lemma SplitTail(p: SplitUrl)
    requires '?' !in p.path && '#' !in p.path && '#' !in p.query
    ensures var f := SplitAtFirst(Tail(p), '#'); f.1 == p.fragment && SplitAtFirst(f.0, '?') == (p.path, p.query)
  {
    var q := p.path + (if p.query != [] then "?" + p.query else "");
    assert '#' !in q;
    if p.fragment != [] {
      SplitAtFirstUnique(Tail(p), '#', q, p.fragment);
    } else {
      assert Tail(p) == q;
    }
    if p.query != [] {
      SplitAtFirstUnique(q, '?', p.path, p.query);
    } else {
      assert q == p.path;
    }
  }

  /** What `urlunsplit` writes for canonical components: "scheme://netloc" and the tail. */
  lemma UnsplitCanonical(p: SplitUrl)
    requires p.scheme != [] && p.netloc != [] && (p.path == [] || p.path[0] == '/')
    ensures UrlUnsplit(p) == p.scheme + ":" + ("//" + p.netloc + Tail(p))
  {
  }

  /** Canonical components contain nothing that cleaning would remove. */
  lemma CleanedCanonical(p: SplitUrl)
    requires Writable(p)
    ensures Cleaned(UrlUnsplit(p)) == UrlUnsplit(p)
  {
    UnsplitCanonical(p);
    var tail := Tail(p);
    var rest := "//" + p.netloc + tail;
    var u := p.scheme + ":" + rest;
    assert SafeText(u) by {
      assert SafeText(p.scheme) && SafeText(":") && SafeText("//") && SafeText("?") && SafeText("#");
      SafeConcat("?", p.query);
      SafeConcat("#", p.fragment);
      SafeConcat(p.path, if p.query != [] then "?" + p.query else "");
      SafeConcat(p.path + (if p.query != [] then "?" + p.query else ""), if p.fragment != [] then "#" + p.fragment else "");
      SafeConcat("//", p.netloc);
      SafeConcat("//" + p.netloc, tail);
      SafeConcat(p.scheme, ":");
      SafeConcat(p.scheme + ":", rest);
    }
    RemoveWhereNone(u, UnsafeUrlChar);
  }

  /** The scheme of a canonical URL is found again, and the rest follows its colon. */
  lemma SchemeCanonical(p: SplitUrl)
    requires Writable(p)
    ensures SplitScheme(UrlUnsplit(p)) == (p.scheme, "//" + p.netloc + Tail(p))
  {
    UnsplitCanonical(p);
    var rest := "//" + p.netloc + Tail(p);
    var u := p.scheme + ":" + rest;
    assert u[|p.scheme|] == ':';
    assert forall j :: 0 <= j < |p.scheme| ==> u[j] == p.scheme[j];
    assert FirstWhere(u, IsColon) == |p.scheme|;
    assert u[..|p.scheme|] == p.scheme;
    assert u[|p.scheme| + 1..] == rest;
  }

  /** The tail starts with the separator that ends a netloc. */
  lemma TailStart(p: SplitUrl)
    requires p.path == [] || p.path[0] == '/'
    ensures Tail(p) == [] || NetlocEnd(Tail(p)[0])
  {
    if p.path != [] {
      assert Tail(p)[0] == p.path[0];
    } else if p.query != [] {
      assert Tail(p)[0] == '?';
    } else if p.fragment != [] {
      assert Tail(p)[0] == '#';
    }
  }

  /** The netloc of a canonical URL ends where the tail begins. */
  lemma NetlocCanonical(p: SplitUrl)
    requires Writable(p)
    ensures SplitNetloc("//" + p.netloc + Tail(p)) == (p.netloc, Tail(p))
  {
    var tail := Tail(p);
    var rest := "//" + p.netloc + tail;
    assert rest[2..] == p.netloc + tail;
    assert forall j :: 0 <= j < |p.netloc| ==> rest[2..][j] == p.netloc[j];
    TailStart(p);
    if tail != [] {
      assert rest[2..][|p.netloc|] == tail[0];
    }
    assert FirstWhere(rest[2..], NetlocEnd) == |p.netloc|;
    assert rest[2..][..|p.netloc|] == p.netloc;
    assert rest[2..][|p.netloc|..] == tail;
  }

  /** A canonical URL splits back into the components it was written from. */
  lemma SplitUnsplit(p: SplitUrl)
    requires Canonical(p)
    ensures UrlSplit(UrlUnsplit(p)) == Ok(p)
  {
    CleanedCanonical(p);
    SchemeCanonical(p);
    NetlocCanonical(p);
    SplitTail(p);
  }

  /**
   * Written components split back unless `_checknetloc` refuses the netloc,
   * which happens exactly when one of its characters has a normal form of
   * its own.
   */
  lemma UnsplitRefused(p: SplitUrl)
    requires Writable(p)
    ensures UrlSplit(UrlUnsplit(p)).Err? <==> exists i :: 0 <= i < |p.netloc| && NfkcChar(p.netloc[i]) != [p.netloc[i]]
    ensures UrlSplit(UrlUnsplit(p)).Ok? ==> UrlSplit(UrlUnsplit(p)) == Ok(p)
  {
    CleanedCanonical(p);
    SchemeCanonical(p);
    NetlocCanonical(p);
    SplitTail(p);
    NetlocRefusedIff(p.netloc);
  }

  /** A fullwidth solidus in the host makes `urlsplit` raise. */
  lemma FullwidthSolidusRefused()
    ensures UrlSplit("https://a\U{FF0F}b").Err?
  {
    var p := SplitUrl("https", "a\U{FF0F}b", "", "", "");
    WritableHost(p);
    UnsplitRefused(p);
  }

  lemma WritableHost(p: SplitUrl)
    requires p == SplitUrl("https", "a\U{FF0F}b", "", "", "")
    ensures Writable(p) && UrlUnsplit(p) == "https://a\U{FF0F}b"
    ensures exists i :: 0 <= i < |p.netloc| && NfkcChar(p.netloc[i]) != [p.netloc[i]]
  {
    WritableHttps(p);
    UnsplitCanonical(p);
    assert Tail(p) == "";
    assert NfkcChar(p.netloc[1]) != [p.netloc[1]];
  }

  lemma WritableHttps(p: SplitUrl)
    requires p == SplitUrl("https", "a\U{FF0F}b", "", "", "")
    ensures Writable(p)
  {
    assert Lower(p.scheme) == p.scheme;
    assert SafeText(p.netloc);
  }

  // ---------------------------------------------------------------------------
  // Query strings: `parse_qsl(q, keep_blank_values=True)` and `urlencode`.
  // ---------------------------------------------------------------------------

  /** One query parameter, decoded. */
  datatype QueryPair = QueryPair(name: string, value: string)

  /**
   * One "&"-separated piece: the text before the first "=" is the name, the
   * rest (or "" when there is no "=") the value; "+" becomes a space before
   * `unquote` decodes percent-escapes.
   */
  function ParsePair(piece: string, unquote: string -> string): QueryPair {
    var e := FirstWhere(piece, c => c == '=');
    var name := piece[..e];
    var value := if e < |piece| then piece[e + 1..] else "";
    QueryPair(unquote(ReplaceAll(name, "+", " ")), unquote(ReplaceAll(value, "+", " ")))
  }

  /** The pairs of the non-empty pieces, in order. */
  function ParsePieces(pieces: seq<string>, unquote: string -> string): (r: seq<QueryPair>)
    ensures |r| <= |pieces|
    decreases |pieces|
  {
    if pieces == [] then []
    else (if pieces[0] == [] then [] else [ParsePair(pieces[0], unquote)]) + ParsePieces(pieces[1..], unquote)
  }

  function ParseQsl(query: string, unquote: string -> string): seq<QueryPair> {
    ParsePieces(SplitOn(query, '&'), unquote)
  }

  /** The "name=value" pieces of `urlencode`, each side escaped by `quote_plus`. */
  function EncodePairs(q: seq<QueryPair>, quotePlus: string -> string): (r: seq<string>)
    ensures |r| == |q|
    decreases |q|
  {
    if q == [] then [] else [quotePlus(q[0].name) + "=" + quotePlus(q[0].value)] + EncodePairs(q[1..], quotePlus)
  }

  function UrlEncode(q: seq<QueryPair>, quotePlus: string -> string): string {
    Join(EncodePairs(q, quotePlus), "&")
  }

  // ---------------------------------------------------------------------------
  // Tracking parameters.
  // ---------------------------------------------------------------------------

  /** `re.match(r'^(utm_|gclid|fbclid|igshid|mc_cid|mc_eid)', k, re.I)`: a case-insensitive prefix test. */
  predicate IsTrackingName(k: string) {
    var l := Lower(k);
    StartsWith(l, "utm_") || StartsWith(l, "gclid") || StartsWith(l, "fbclid")
    || StartsWith(l, "igshid") || StartsWith(l, "mc_cid") || StartsWith(l, "mc_eid")
  }

  /** The pairs whose name is not a tracking name, in their original order. */
  function KeepUntracked(q: seq<QueryPair>): (r: seq<QueryPair>)
    ensures |r| <= |q|
    ensures forall p :: p in r <==> p in q && !IsTrackingName(p.name)
    decreases |q|
  {
    if q == [] then []
    else (if IsTrackingName(q[0].name) then [] else [q[0]]) + KeepUntracked(q[1..])
  }

  /** `a` is `b` with some elements removed, the rest in their order. */
  predicate SubsequenceOf<T(==)>(a: seq<T>, b: seq<T>)
    decreases |b|
  {
    if a == [] then true
    else if b == [] then false
    else (a[0] == b[0] && SubsequenceOf(a[1..], b[1..])) || SubsequenceOf(a, b[1..])
  }

  lemma {:induction false} KeepUntrackedOrder(q: seq<QueryPair>)
    ensures SubsequenceOf(KeepUntracked(q), q)
    decreases |q|
  {
    if q != [] {
      KeepUntrackedOrder(q[1..]);
      var rest := KeepUntracked(q[1..]);
      if IsTrackingName(q[0].name) {
        assert KeepUntracked(q) == rest;
        SubsequenceSkip(rest, q);
      } else {
        assert KeepUntracked(q) == [q[0]] + rest;
        assert ([q[0]] + rest)[1..] == rest;
      }
    }
  }

  /** Stripping twice removes nothing more. */
  lemma {:induction false} KeepUntrackedIdempotent(q: seq<QueryPair>)
    ensures KeepUntracked(KeepUntracked(q)) == KeepUntracked(q)
    decreases |q|
  {
    if q != [] {
      KeepUntrackedIdempotent(q[1..]);
      var rest := KeepUntracked(q[1..]);
      if IsTrackingName(q[0].name) {
        assert KeepUntracked(q) == rest;
      } else {
        assert KeepUntracked(q) == [q[0]] + rest;
        assert ([q[0]] + rest)[0] == q[0];
        assert ([q[0]] + rest)[1..] == rest;
      }
    }
  }

  /** Any capitalisation of a tracking prefix, followed by anything, is stripped. */
  lemma TrackingPrefixIsStripped(k: string)
    requires |k| >= 4 && Lower(k[..4]) == "utm_"
    ensures IsTrackingName(k)
  {
    assert Lower(k)[..4] == Lower(k[..4]);
  }

  /**
   * `_strip_tracking`: split, drop the tracking pairs, re-encode the rest and
   * reassemble without the fragment. `quotePlus` and `unquote` are
   * `urllib.parse.quote_plus` and `unquote`.
   */
  function StripTracking(url: string, quotePlus: string -> string, unquote: string -> string): (r: Result<string>)
    ensures r.Err? <==> UrlSplit(url).Err?
    ensures r.Ok? ==> var p := UrlSplit(url).value;
      r.value == UrlUnsplit(SplitUrl(p.scheme, p.netloc, p.path, UrlEncode(KeepUntracked(ParseQsl(p.query, unquote)), quotePlus), ""))
  {
    var parts := UrlSplit(url);
    if parts.Err? then Err(parts.error)
    else
      var p := parts.value;
      var kept := KeepUntracked(ParseQsl(p.query, unquote));
      Ok(UrlUnsplit(SplitUrl(p.scheme, p.netloc, p.path, UrlEncode(kept, quotePlus), "")))
  }

  // ---------------------------------------------------------------------------
  // `normalize_url`.
  // ---------------------------------------------------------------------------

  /** Drop one trailing "/" from a path other than "/". */
  function TrimOneSlash(path: string): (r: string)
    ensures path == "/" ==> r == path
    ensures path != "/" && EndsWith(path, "/") ==> |r| == |path| - 1 && path == r + "/"
    ensures !EndsWith(path, "/") ==> r == path
  {
    if path != "/" && EndsWith(path, "/") then path[..|path| - 1] else path
  }

  /** Only one slash goes: a path ending in "//" keeps one. */
  lemma TrimOneSlashOnce(path: string)
    requires |path| >= 2 && EndsWith(path, "//")
    ensures EndsWith(TrimOneSlash(path), "/")
  {
    assert path[|path| - 2] == '/';
  }

  /** The replacement starts with "https://" exactly when the input starts with "http://". */
  lemma UpgradeHead(x: string)
    ensures StartsWith(x, "http://") ==> StartsWith(ReplaceAll(x, "http://", "https://"), "https://")
    ensures |x| >= 7 && !StartsWith(x, "http://") ==>
      ReplaceAll(x, "http://", "https://") == [x[0]] + ReplaceAll(x[1..], "http://", "https://")
  {
  }

  /** A text that contains no 'h' survives `replace("http://", "https://")` only where the input had it. */
  lemma {:induction false} UpgradePrefix(x: string, q: string)
    requires 'h' !in q
    requires StartsWith(ReplaceAll(x, "http://", "https://"), q)
    ensures StartsWith(x, q)
    decreases |q|
  {
    var y := ReplaceAll(x, "http://", "https://");
    if q != [] && |x| >= 7 {
      UpgradeHead(x);
      assert q[0] == y[0];
      assert !StartsWith(x, "http://");
      assert y == [x[0]] + ReplaceAll(x[1..], "http://", "https://");
      assert q[0] == x[0];
      assert StartsWith(ReplaceAll(x[1..], "http://", "https://"), q[1..]) by {
        assert y[1..][..|q| - 1] == y[..|q|][1..];
      }
      UpgradePrefix(x[1..], q[1..]);
      assert x[..|q|] == [x[0]] + x[1..][..|q| - 1];
    }
  }

  /** "http://" does not start inside the first eight characters of "https://" + t. */
  lemma NoHttpInsideHttps(t: string, k: int)
    requires 0 <= k < 8
    ensures !OccursAt("https://" + t, "http://", k)
  {
    var y := "https://" + t;
    if k + 7 <= |y| {
      var d := if k == 0 then 4 else 0;
      assert y[k..k + 7][d] == y[k + d];
      assert y[k + d] != "http://"[d];
    }
  }

  /** After `url.replace("http://", "https://")` no "http://" is left anywhere. */
  lemma {:induction false} UpgradeLeavesNoHttp(s: string)
    ensures forall k :: !OccursAt(ReplaceAll(s, "http://", "https://"), "http://", k)
    decreases |s|
  {
    if |s| < 7 {
    } else if StartsWith(s, "http://") {
      UpgradeLeavesNoHttp(s[7..]);
      NoHttpAfterHttps(ReplaceAll(s[7..], "http://", "https://"));
    } else {
      UpgradeLeavesNoHttp(s[1..]);
      UpgradeHead(s);
      NoHttpAfterOther(s, ReplaceAll(s[1..], "http://", "https://"));
    }
  }

  /** "https://" before a text without "http://" leaves no "http://". */
  lemma NoHttpAfterHttps(t: string)
    requires forall k :: !OccursAt(t, "http://", k)
    ensures forall k :: !OccursAt("https://" + t, "http://", k)
  {
    var y := "https://" + t;
    forall k ensures !OccursAt(y, "http://", k) {
      if k >= 8 {
        if k + 7 <= |y| {
          assert y[k..k + 7] == t[k - 8..k - 8 + 7];
        }
        assert !OccursAt(t, "http://", k - 8);
      } else if k >= 0 {
        NoHttpInsideHttps(t, k);
      }
    }
  }

  /** The first character of a text that does not start with "http://", before the upgraded rest, leaves no "http://". */
  lemma NoHttpAfterOther(s: string, t: string)
    requires |s| >= 7 && !StartsWith(s, "http://")
    requires t == ReplaceAll(s[1..], "http://", "https://")
    requires forall k :: !OccursAt(t, "http://", k)
    ensures forall k :: !OccursAt([s[0]] + t, "http://", k)
  {
    var y := [s[0]] + t;
    forall k ensures !OccursAt(y, "http://", k) {
      if k >= 1 {
        if k + 7 <= |y| {
          assert y[k..k + 7] == t[k - 1..k - 1 + 7];
        }
        assert !OccursAt(t, "http://", k - 1);
      } else if k == 0 && StartsWith(t, "ttp://") {
        UpgradePrefix(s[1..], "ttp://");
        assert s[..7] == [s[0]] + s[1..][..6];
      } else if k == 0 && |y| >= 7 {
        assert t[..6] == y[1..7];
      }
    }
  }

  /**
   * The second half of `normalize_url`: split, drop one trailing slash from a
   * path other than "/", and reassemble without the fragment.
   */
  function TrimAndDropFragment(url: string): (r: Result<string>)
    ensures r.Err? <==> UrlSplit(url).Err?
    ensures r.Ok? ==> var p := UrlSplit(url).value;
      r.value == UrlUnsplit(SplitUrl(p.scheme, p.netloc, TrimOneSlash(p.path), p.query, ""))
    ensures r.Ok? ==> '#' !in r.value
  {
    var parts := UrlSplit(url);
    if parts.Err? then Err(parts.error)
    else
      var p := parts.value;
      TrimmedNoFragment(p);
      Ok(UrlUnsplit(SplitUrl(p.scheme, p.netloc, TrimOneSlash(p.path), p.query, "")))
  }

  /**
   * `normalize_url`: strip surrounding whitespace, strip tracking, upgrade
   * every "http://" to "https://", then split, trim and reassemble.
   */
  function NormalizeUrl(url: string, quotePlus: string -> string, unquote: string -> string): (r: Result<string>)
    ensures r.Err? <==> (StripTracking(Strip(url), quotePlus, unquote).Err?
      || TrimAndDropFragment(ReplaceAll(StripTracking(Strip(url), quotePlus, unquote).value, "http://", "https://")).Err?)
    ensures r.Ok? ==>
      var upgraded := ReplaceAll(StripTracking(Strip(url), quotePlus, unquote).value, "http://", "https://");
      && (forall k :: !OccursAt(upgraded, "http://", k))
      && r == TrimAndDropFragment(upgraded)
    ensures r.Ok? ==> '#' !in r.value
  {
    var stripped := StripTracking(Strip(url), quotePlus, unquote);
    if stripped.Err? then Err(stripped.error)
    else
      var upgraded := ReplaceAll(stripped.value, "http://", "https://");
      UpgradeLeavesNoHttp(stripped.value);
      TrimAndDropFragment(upgraded)
  }

  /** Reassembling split components with the trailing slash trimmed and no fragment writes no "#". */
  lemma TrimmedNoFragment(p: SplitUrl)
    requires forall i :: 0 <= i < |p.scheme| ==> SchemeChar(p.scheme[i])
    requires forall i :: 0 <= i < |p.netloc| ==> !NetlocEnd(p.netloc[i])
    requires '#' !in p.path && '#' !in p.query
    ensures '#' !in UrlUnsplit(SplitUrl(p.scheme, p.netloc, TrimOneSlash(p.path), p.query, ""))
  {
    var path := TrimOneSlash(p.path);
    UnsplitNoFragment(p, |path|);
    assert path == p.path[..|path|];
  }

  /** Reassembling split components with a shortened path and no fragment writes no "#". */
  lemma UnsplitNoFragment(p: SplitUrl, n: nat)
    requires forall i :: 0 <= i < |p.scheme| ==> SchemeChar(p.scheme[i])
    requires forall i :: 0 <= i < |p.netloc| ==> !NetlocEnd(p.netloc[i])
    requires '#' !in p.path && '#' !in p.query && n <= |p.path|
    ensures '#' !in UrlUnsplit(SplitUrl(p.scheme, p.netloc, p.path[..n], p.query, ""))
  {
    var path := p.path[..n];
    assert '#' !in path by {
      assert forall i :: 0 <= i < |path| ==> path[i] == p.path[i];
    }
    assert '#' !in p.scheme;
    assert '#' !in p.netloc;
    var q := SplitUrl(p.scheme, p.netloc, path, p.query, "");
    assert q.scheme + q.netloc + q.path + q.query == p.scheme + p.netloc + path + p.query;
    UnsplitHasNoHash(q);
  }

  // ---------------------------------------------------------------------------
  // `normalize_title`.
  // ---------------------------------------------------------------------------

  predicate NotSpace(c: char) { !IsSpace(c) }

  /** `re.sub(r'\s+', ' ', t).strip().lower()` on a string. */
  function NormalizeTitleText(t: string): string {
    Lower(Strip(ReplaceRuns(t, NotSpace, ' ')))
  }

  /** `normalize_title(t)`: `t or ""`, and TypeError when a truthy value is not a string. */
  function NormalizeTitle(t: Json): (r: Result<string>)
    ensures !Truthy(t) ==> r == Ok("")
    ensures Truthy(t) ==> (r.Ok? <==> t.JStr?)
    ensures r.Ok? && t.JStr? ==> r.value == NormalizeTitleText(t.s)
  {
    if !Truthy(t) then Ok(NormalizeTitleText(""))
    else if t.JStr? then Ok(NormalizeTitleText(t.s))
    else Err("TypeError")
  }

  /** A contiguous slice of collapsed text is collapsed. */
  lemma CollapsedSlice(t: string, i: nat, j: nat)
    requires i <= j <= |t| && Collapsed(t, NotSpace, ' ')
    ensures Collapsed(t[i..j], NotSpace, ' ')
  {
    forall k | 0 <= k < j - i && !NotSpace(t[i..j][k])
      ensures t[i..j][k] == ' ' && (k + 1 < j - i ==> NotSpace(t[i..j][k + 1]))
    {
      assert t[i..j][k] == t[i + k];
      if k + 1 < j - i {
        assert t[i..j][k + 1] == t[i + k + 1];
      }
    }
  }

  /** ASCII lower-casing maps whitespace to itself and non-whitespace to non-whitespace. */
  lemma LowerCharSpace(c: char)
    ensures IsSpace(LowerChar(c)) <==> IsSpace(c)
    ensures IsSpace(c) ==> LowerChar(c) == c
  {
  }

  lemma CollapsedLower(t: string)
    requires Collapsed(t, NotSpace, ' ')
    ensures Collapsed(Lower(t), NotSpace, ' ')
  {
    forall k | 0 <= k < |t| {
      LowerCharSpace(t[k]);
    }
  }

  /** Stripping is the identity on text with no whitespace at either end. */
  lemma StripTrimmed(t: string)
    requires Trimmed(t)
    ensures Strip(t) == t
  {
  }

  /** No whitespace at either end. */
  predicate Trimmed(t: string) {
    t == [] || (!IsSpace(t[0]) && !IsSpace(t[|t| - 1]))
  }

  /** Stripping collapsed text leaves collapsed text with no whitespace at either end. */
  lemma StripCollapsed(c: string)
    requires Collapsed(c, NotSpace, ' ')
    ensures Collapsed(Strip(c), NotSpace, ' ') && Trimmed(Strip(c))
  {
    var l := LStrip(c);
    var s := Strip(c);
    LStripCollapsed(c);
    assert s == RStrip(l);
    CollapsedSlice(l, 0, |s|);
    assert s == l[0..|s|];
    if s != [] {
      assert s[0] == l[0];
    }
  }

  /** Stripping leading whitespace keeps collapsed text collapsed. */
  lemma LStripCollapsed(c: string)
    requires Collapsed(c, NotSpace, ' ')
    ensures Collapsed(LStrip(c), NotSpace, ' ')
  {
    var l := LStrip(c);
    LStripSuffix(c);
    CollapsedSlice(c, |c| - |l|, |c|);
    assert l == c[|c| - |l|..|c|];
  }


  /** Lower-casing keeps text collapsed and trimmed. */
  lemma LowerCollapsedTrimmed(s: string)
    requires Collapsed(s, NotSpace, ' ') && Trimmed(s)
    ensures Collapsed(Lower(s), NotSpace, ' ') && Trimmed(Lower(s))
  {
    CollapsedLower(s);
    if s != [] {
      LowerCharSpace(s[0]);
      LowerCharSpace(s[|s| - 1]);
    }
  }

  /** Lower-casing twice is lower-casing once. */
  lemma LowerIdempotent(t: string)
    ensures Lower(Lower(t)) == Lower(t)
  {
  }

  /** `normalize_title` is idempotent. */
  lemma NormalizeTitleIdempotent(t: string)
    ensures NormalizeTitleText(NormalizeTitleText(t)) == NormalizeTitleText(t)
  {
    var c := ReplaceRuns(t, NotSpace, ' ');
    ReplaceRunsCollapsed(t, NotSpace, ' ');
    var s := Strip(c);
    StripCollapsed(c);
    var n := Lower(s);
    assert n == NormalizeTitleText(t);
    LowerCollapsedTrimmed(s);
    ReplaceRunsFixed(n, NotSpace, ' ');
    StripTrimmed(n);
    LowerIdempotent(s);
  }

  // ---------------------------------------------------------------------------
  // `dedup_news`.
  // ---------------------------------------------------------------------------

  /**
   * First-occurrence deduplication: an element is kept when its key is not in
   * `seen` and has not been kept before.
   */
  function Dedup<T, K(==)>(xs: seq<T>, key: T -> K, seen: set<K>): (r: seq<T>)
    ensures |r| <= |xs|
    decreases |xs|
  {
    if xs == [] then []
    else if key(xs[0]) in seen then Dedup(xs[1..], key, seen)
    else [xs[0]] + Dedup(xs[1..], key, seen + {key(xs[0])})
  }

  /** The keys of `xs` are pairwise different and none of them is in `seen`. */
  ghost predicate DistinctKeys<T, K>(xs: seq<T>, key: T -> K, seen: set<K>) {
    (forall i :: 0 <= i < |xs| ==> key(xs[i]) !in seen)
    && forall i, j :: 0 <= i < j < |xs| ==> key(xs[i]) != key(xs[j])
  }

  /** The output is a subsequence of the input. */
  lemma {:induction false} DedupSubsequence<T, K>(xs: seq<T>, key: T -> K, seen: set<K>)
    ensures SubsequenceOf(Dedup(xs, key, seen), xs)
    decreases |xs|
  {
    if xs != [] {
      if key(xs[0]) in seen {
        DedupSubsequence(xs[1..], key, seen);
        SubsequenceSkip(Dedup(xs[1..], key, seen), xs);
      } else {
        var rest := Dedup(xs[1..], key, seen + {key(xs[0])});
        DedupSubsequence(xs[1..], key, seen + {key(xs[0])});
        assert ([xs[0]] + rest)[1..] == rest;
      }
    }
  }

  lemma SubsequenceSkip<T>(a: seq<T>, b: seq<T>)
    requires b != [] && SubsequenceOf(a, b[1..])
    ensures SubsequenceOf(a, b)
  {
  }

  /** Every key of the output is new: no duplicates and nothing already seen. */
  lemma {:induction false} DedupDistinct<T, K>(xs: seq<T>, key: T -> K, seen: set<K>)
    ensures DistinctKeys(Dedup(xs, key, seen), key, seen)
    ensures forall y :: y in Dedup(xs, key, seen) ==> y in xs
    decreases |xs|
  {
    if xs != [] {
      if key(xs[0]) in seen {
        DedupDistinct(xs[1..], key, seen);
      } else {
        var seen' := seen + {key(xs[0])};
        var rest := Dedup(xs[1..], key, seen');
        DedupDistinct(xs[1..], key, seen');
        var r := [xs[0]] + rest;
        forall i, j | 0 <= i < j < |r| ensures key(r[i]) != key(r[j]) {
          assert r[j] == rest[j - 1];
          if i > 0 {
            assert r[i] == rest[i - 1];
          }
        }
        forall i | 0 <= i < |r| ensures key(r[i]) !in seen {
          if i > 0 {
            assert r[i] == rest[i - 1];
          }
        }
      }
    }
  }

  /** Every key of the input is already seen or carried by some output element. */
  lemma {:induction false} DedupCovers<T, K>(xs: seq<T>, key: T -> K, seen: set<K>, i: nat)
    requires i < |xs|
    ensures key(xs[i]) in seen || exists y :: y in Dedup(xs, key, seen) && key(y) == key(xs[i])
    decreases |xs|
  {
    if i > 0 {
      if key(xs[0]) in seen {
        DedupCovers(xs[1..], key, seen, i - 1);
      } else {
        var seen' := seen + {key(xs[0])};
        DedupCovers(xs[1..], key, seen', i - 1);
        var r := Dedup(xs, key, seen);
        assert r[0] == xs[0];
        if key(xs[i]) in seen' && key(xs[i]) !in seen {
          assert key(r[0]) == key(xs[i]);
        }
      }
    } else if key(xs[0]) !in seen {
      assert Dedup(xs, key, seen)[0] == xs[0];
    }
  }

  /** The element kept for a key is its first occurrence in the input. */
  lemma {:induction false} DedupKeepsFirst<T, K>(xs: seq<T>, key: T -> K, seen: set<K>, i: nat)
    requires i < |xs| && key(xs[i]) !in seen
    requires forall j :: 0 <= j < i ==> key(xs[j]) != key(xs[i])
    ensures xs[i] in Dedup(xs, key, seen)
    decreases |xs|
  {
    if i == 0 {
      assert Dedup(xs, key, seen)[0] == xs[0];
    } else if key(xs[0]) in seen {
      DedupKeepsFirst(xs[1..], key, seen, i - 1);
    } else {
      DedupKeepsFirst(xs[1..], key, seen + {key(xs[0])}, i - 1);
      var rest := Dedup(xs[1..], key, seen + {key(xs[0])});
      assert xs[i] in rest;
      assert Dedup(xs, key, seen) == [xs[0]] + rest;
    }
  }

  /** Input whose keys are already distinct and unseen passes unchanged. */
  lemma {:induction false} DedupDistinctFixed<T, K>(xs: seq<T>, key: T -> K, seen: set<K>)
    requires DistinctKeys(xs, key, seen)
    ensures Dedup(xs, key, seen) == xs
    decreases |xs|
  {
    if xs != [] {
      var seen' := seen + {key(xs[0])};
      assert DistinctKeys(xs[1..], key, seen') by {
        forall i | 0 <= i < |xs[1..]| ensures key(xs[1..][i]) !in seen' {
          assert xs[1..][i] == xs[i + 1];
        }
        forall i, j | 0 <= i < j < |xs[1..]| ensures key(xs[1..][i]) != key(xs[1..][j]) {
          assert xs[1..][i] == xs[i + 1] && xs[1..][j] == xs[j + 1];
        }
      }
      DedupDistinctFixed(xs[1..], key, seen');
      assert xs == [xs[0]] + xs[1..];
    }
  }

  /** Deduplicating twice gives the same list as deduplicating once. */
  lemma DedupIdempotent<T, K>(xs: seq<T>, key: T -> K)
    ensures Dedup(Dedup(xs, key, {}), key, {}) == Dedup(xs, key, {})
  {
    DedupDistinct(xs, key, {});
    DedupDistinctFixed(Dedup(xs, key, {}), key, {});
  }

  /** The identity of a news item: normalised title, normalised url and the raw timestamp. */
  datatype NewsKey = NewsKey(title: string, url: string, timestamp: Json)

  /** Python's `True == 1` and `False == 0` also hold between set members. */
  function HashEquivalent(x: Json): Json {
    if x.JBool? then JNum(Fin(if x.b then 1.0 else 0.0)) else x
  }

  /** `m.get(k, default)`. */
  function DictGet(m: map<string, Json>, k: string, default: Json): Json {
    if k in m then m[k] else default
  }

  /**
   * The key `dedup_news` computes for one item, given the URL normaliser:
   * AttributeError when the item is not a dict or its "url" is not a string
   * (`.strip()`), TypeError when its title is a truthy non-string or its
   * timestamp is unhashable.
   */
  function NewsKeyOf(it: Json, normUrl: string -> Result<string>): (r: Result<NewsKey>)
    ensures !it.JObj? ==> r == Err("AttributeError")
    ensures it.JObj? && NormalizeTitle(DictGet(it.fields, "title", JStr(""))).Err? ==> r == Err("TypeError")
    ensures it.JObj? && NormalizeTitle(DictGet(it.fields, "title", JStr(""))).Ok? && !DictGet(it.fields, "url", JStr("")).JStr? ==>
      r == Err("AttributeError")
    ensures r.Ok? ==> NormalizeTitle(DictGet(it.fields, "title", JStr(""))) == Ok(r.value.title)
    ensures r.Ok? ==> var u := DictGet(it.fields, "url", JStr("")); u.JStr? && normUrl(u.s) == Ok(r.value.url)
    ensures r.Ok? ==> var ts := DictGet(it.fields, "timestamp_iso", JStr(""));
      !ts.JArr? && !ts.JObj? && r.value.timestamp == HashEquivalent(ts)
    ensures it.JObj? && NormalizeTitle(DictGet(it.fields, "title", JStr(""))).Ok? && DictGet(it.fields, "url", JStr("")).JStr? ==>
      var ts := DictGet(it.fields, "timestamp_iso", JStr(""));
      (r.Ok? <==> normUrl(DictGet(it.fields, "url", JStr("")).s).Ok? && !ts.JArr? && !ts.JObj?)
  {
    if !it.JObj? then Err("AttributeError")
    else
      var m := it.fields;
      var title := NormalizeTitle(DictGet(m, "title", JStr("")));
      if title.Err? then Err(title.error)
      else
        var url := DictGet(m, "url", JStr(""));
        if !url.JStr? then Err("AttributeError")
        else
          var u := normUrl(url.s);
          if u.Err? then Err(u.error)
          else
            var ts := DictGet(m, "timestamp_iso", JStr(""));
            if ts.JArr? || ts.JObj? then Err("TypeError")
            else Ok(NewsKey(title.value, u.value, HashEquivalent(ts)))
  }

  /** The news key with `normalize_url` as the URL normaliser. */
  function NewsKeyFn(quotePlus: string -> string, unquote: string -> string): Json -> Result<NewsKey> {
    it => NewsKeyOf(it, u => NormalizeUrl(u, quotePlus, unquote))
  }

  /** The position of the first element on which `f` fails, if any. */
  function FirstError<T, U>(xs: seq<T>, f: T -> Result<U>): (r: Option<nat>)
    ensures r.None? <==> forall i :: 0 <= i < |xs| ==> f(xs[i]).Ok?
    ensures r.Some? ==> r.value < |xs| && f(xs[r.value]).Err?
    ensures r.Some? ==> forall j :: 0 <= j < r.value ==> f(xs[j]).Ok?
    decreases |xs|
  {
    if xs == [] then None
    else if f(xs[0]).Err? then Some(0)
    else
      var rest := FirstError(xs[1..], f);
      if rest.None? then None else Some(rest.value + 1)
  }

  /**
   * The loop of `dedup_news` for any key function that may raise: keys are
   * computed in order, the first failure aborts, and an element is kept when
   * its key has not been seen.
   */
  method DedupBy<T, K(==)>(xs: seq<T>, key: T -> Result<K>) returns (r: Result<seq<T>>)
    ensures var e := FirstError(xs, key);
      && (r.Err? <==> e.Some?)
      && (e.Some? ==> r == Err(key(xs[e.value]).error))
      && (r.Ok? ==> r.value == Dedup(xs, key, {}))
  {
    var seen: set<Result<K>> := {};
    var out: seq<T> := [];
    var i := 0;
    while i < |xs|
      invariant 0 <= i <= |xs|
      invariant forall j :: 0 <= j < i ==> key(xs[j]).Ok?
      invariant out + Dedup(xs[i..], key, seen) == Dedup(xs, key, {})
    {
      var k := key(xs[i]);
      if k.Err? {
        return Err(k.error);
      }
      assert xs[i..][1..] == xs[i + 1..];
      if k !in seen {
        seen := seen + {k};
        out := out + [xs[i]];
      }
      i := i + 1;
    }
    assert xs[i..] == [];
    r := Ok(out);
  }

  /**
   * `dedup_news`: the items in input order, each kept only when no earlier
   * item had the same key; the first item whose key raises aborts the call
   * with that error.
   */
  method DedupNews(items: seq<Json>, quotePlus: string -> string, unquote: string -> string) returns (r: Result<seq<Json>>)
    ensures var key := NewsKeyFn(quotePlus, unquote); var e := FirstError(items, key);
      && (r.Err? <==> e.Some?)
      && (e.Some? ==> r == Err(key(items[e.value]).error))
      && (r.Ok? ==> r.value == Dedup(items, key, {}))
  {
    r := DedupBy(items, NewsKeyFn(quotePlus, unquote));
  }

  // ---------------------------------------------------------------------------
  // Ordered mirror fallback.
  // ---------------------------------------------------------------------------

  /** What the server sent: the status, the body and the validator headers when present. */
  datatype Response = Response(status: int, content: seq<bv8>, etag: Option<string>, lastModified: Option<string>)

  /** One request: a response, or an exception raised by the session (its text). */
  datatype Outcome = Responded(resp: Response) | Raised(exc: string)

  /** `(body or None on 304, used url, {"etag", "last_modified"})`. */
  datatype Fetched = Fetched(body: Option<seq<bv8>>, url: string, etag: string, lastModified: string)

  /** The conditional-request headers: each one exactly when its validator is a non-empty string. */
  function RequestHeaders(etag: Option<string>, lastmod: Option<string>): (h: map<string, string>)
    ensures "If-None-Match" in h <==> etag.Some? && etag.value != ""
    ensures "If-None-Match" in h ==> h["If-None-Match"] == etag.value
    ensures "If-Modified-Since" in h <==> lastmod.Some? && lastmod.value != ""
    ensures "If-Modified-Since" in h ==> h["If-Modified-Since"] == lastmod.value
    ensures forall k :: k in h ==> k == "If-None-Match" || k == "If-Modified-Since"
  {
    var h: map<string, string> := map[];
    var h := if etag.Some? && etag.value != "" then h["If-None-Match" := etag.value] else h;
    var h := if lastmod.Some? && lastmod.value != "" then h["If-Modified-Since" := lastmod.value] else h;
    h
  }

  /** A response that ends the search: 304 or any 2xx. */
  predicate Accepted(o: Outcome) {
    o.Responded? && (o.resp.status == 304 || 200 <= o.resp.status < 300)
  }

  function ResultOf(o: Outcome, url: string): Fetched
    requires Accepted(o)
  {
    Fetched(
      if o.resp.status == 304 then None else Some(o.resp.content),
      url,
      o.resp.etag.GetOr(""),
      o.resp.lastModified.GetOr(""))
  }

  /** The position of the first URL whose request is accepted. */
  function FirstAccepted(get: (string, map<string, string>) -> Outcome, urls: seq<string>, hdrs: map<string, string>): (r: Option<nat>)
    ensures r.None? <==> forall i :: 0 <= i < |urls| ==> !Accepted(get(urls[i], hdrs))
    ensures r.Some? ==> r.value < |urls| && Accepted(get(urls[r.value], hdrs))
    ensures r.Some? ==> forall j :: 0 <= j < r.value ==> !Accepted(get(urls[j], hdrs))
    decreases |urls|
  {
    if urls == [] then None
    else if Accepted(get(urls[0], hdrs)) then Some(0)
    else
      var rest := FirstAccepted(get, urls[1..], hdrs);
      if rest.None? then None else Some(rest.value + 1)
  }

  /** The exception of the last request that raised, if any. */
  function LastRaised(get: (string, map<string, string>) -> Outcome, urls: seq<string>, hdrs: map<string, string>): (r: Option<string>)
    ensures r.None? <==> forall i :: 0 <= i < |urls| ==> !get(urls[i], hdrs).Raised?
    ensures r.Some? ==> exists i :: (0 <= i < |urls| && get(urls[i], hdrs) == Raised(r.value)
      && forall j :: i < j < |urls| ==> !get(urls[j], hdrs).Raised?)
    decreases |urls|
  {
    if urls == [] then None
    else
      var last := urls[|urls| - 1];
      if get(last, hdrs).Raised? then Some(get(last, hdrs).exc)
      else
        var r := LastRaised(get, urls[..|urls| - 1], hdrs);
        assert forall i :: 0 <= i < |urls| - 1 ==> urls[..|urls| - 1][i] == urls[i];
        r
  }

  const NoUrlResponded: string := "RuntimeError: No URL responded OK"

  /**
   * `fetch_first_ok`: the first accepted response in URL order, with its URL
   * and validators (no body on 304); when none is accepted, the last raised
   * exception, else RuntimeError.
   */
  method FetchFirstOk(get: (string, map<string, string>) -> Outcome, urls: seq<string>, etag: Option<string>, lastmod: Option<string>)
    returns (r: Result<Fetched>)
    ensures var hdrs := RequestHeaders(etag, lastmod); var i := FirstAccepted(get, urls, hdrs);
      i.Some? ==> r == Ok(ResultOf(get(urls[i.value], hdrs), urls[i.value]))
    ensures var hdrs := RequestHeaders(etag, lastmod); var i := FirstAccepted(get, urls, hdrs);
      i.None? ==> r == Err(LastRaised(get, urls, hdrs).GetOr(NoUrlResponded))
  {
    var hdrs := RequestHeaders(etag, lastmod);
    var lastExc: Option<string> := None;
    var k := 0;
    while k < |urls|
      invariant 0 <= k <= |urls|
      invariant forall j :: 0 <= j < k ==> !Accepted(get(urls[j], hdrs))
      invariant lastExc == LastRaised(get, urls[..k], hdrs)
    {
      var o := get(urls[k], hdrs);
      assert urls[..k + 1][..k] == urls[..k];
      if o.Raised? {
        lastExc := Some(o.exc);
      } else if o.resp.status == 304 {
        return Ok(Fetched(None, urls[k], o.resp.etag.GetOr(""), o.resp.lastModified.GetOr("")));
      } else if 200 <= o.resp.status < 300 {
        return Ok(Fetched(Some(o.resp.content), urls[k], o.resp.etag.GetOr(""), o.resp.lastModified.GetOr("")));
      }
      k := k + 1;
    }
    assert urls[..k] == urls;
    if lastExc.Some? {
      return Err(lastExc.value);
    }
    return Err(NoUrlResponded);
  }

  /** A HEAD answered with a 2xx status. */
  predicate Available(o: Outcome) {
    o.Responded? && 200 <= o.resp.status < 300
  }

  /** The position of the first URL whose HEAD answers 2xx. */
  function FirstAvailable(head: string -> Outcome, urls: seq<string>): (r: Option<nat>)
    ensures r.None? <==> forall i :: 0 <= i < |urls| ==> !Available(head(urls[i]))
    ensures r.Some? ==> r.value < |urls| && Available(head(urls[r.value]))
    ensures r.Some? ==> forall j :: 0 <= j < r.value ==> !Available(head(urls[j]))
    decreases |urls|
  {
    if urls == [] then None
    else if Available(head(urls[0])) then Some(0)
    else
      var rest := FirstAvailable(head, urls[1..]);
      if rest.None? then None else Some(rest.value + 1)
  }

  /** `choose_first_available_png`: exceptions and non-2xx answers move on to the next URL. */
  method ChooseFirstAvailablePng(head: string -> Outcome, variants: seq<string>) returns (r: Option<string>)
    ensures var i := FirstAvailable(head, variants);
      r == if i.None? then None else Some(variants[i.value])
  {
    var k := 0;
    while k < |variants|
      invariant 0 <= k <= |variants|
      invariant forall j :: 0 <= j < k ==> !Available(head(variants[j]))
    {
      var o := head(variants[k]);
      if o.Responded? && 200 <= o.resp.status < 300 {
        return Some(variants[k]);
      }
      k := k + 1;
    }
    return None;
  }
}
