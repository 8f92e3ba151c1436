/**
 * The news step for two blogs: recent posts from their feeds (with the first
 * image of each post saved under a cleaned file name), the previously saved
 * `news.json` in whatever shape it has, and the merged list, newest first
 * and at most twenty long, written back.
 */
module Northstar {
  import opened Wrappers
  import opened JsonValues
  import opened Text
  import opened StrOrder
  import opened FileStore

  /** `OUTDIR` and `OUTJSON`. */
  const OutDir: string := "docs/news"
  const OutJson: string := "docs/news/news.json"

  /** `LOOKBACK_DAYS`, in seconds. */
  const Lookback: nat := 3 * 24 * 60 * 60

  /** The merged list is cut to this many posts. */
  const MaxPosts: nat := 20

  /** `clean_filename` cuts to this many characters. */
  const MaxName: nat := 80

  // ---------------------------------------------------------------------------
  // clean_filename
  // ---------------------------------------------------------------------------

  /** The class `[a-zA-Z0-9_.-]`. */
  predicate NameChar(c: char) { IsAsciiLetter(c) || IsDigit(c) || c == '_' || c == '.' || c == '-' }

  predicate AllNameChars(s: string) { forall i :: 0 <= i < |s| ==> NameChar(s[i]) }

  /**
   * `clean_filename(s)`: strip, turn each run outside the class into one `_`,
   * cut to 80; an empty result falls back to `img_<unix time>`.
   */
  function CleanFilename(s: string, unix: nat): (r: string)
    ensures r != [] && AllNameChars(r)
    ensures Strip(s) != [] ==> |r| <= MaxName && r == Take(ReplaceRuns(Strip(s), NameChar, '_'), MaxName)
    ensures Strip(s) == [] ==> r == "img_" + NatToString(unix)
  {
    var u := ReplaceRuns(Strip(s), NameChar, '_');
    ReplaceRunsChars(Strip(s), NameChar, '_');
    var t := Take(u, MaxName);
    assert forall i :: 0 <= i < |t| ==> t[i] == u[i];
    if t != [] then t else "img_" + NatToString(unix)
  }

  lemma StripNoSpace(s: string)
    requires AllNameChars(s)
    ensures Strip(s) == s
  {
    forall i | 0 <= i < |s| ensures !IsSpace(s[i]) {
      assert NameChar(s[i]);
    }
    StripNone(s);
  }

  /** A name that is already clean and short enough is its own clean name. */
  lemma CleanNameFixed(name: string, unix: nat)
    requires name != [] && |name| <= MaxName && AllNameChars(name)
    ensures CleanFilename(name, unix) == name
  {
    StripNoSpace(name);
    ReplaceRunsFixed(name, NameChar, '_');
  }

  /** Cleaning a cleaned name changes nothing (while the fallback stamp fits in 80 characters). */
  lemma CleanFilenameIdempotent(s: string, unix: nat)
    requires |NatToString(unix)| <= MaxName - 4
    ensures CleanFilename(CleanFilename(s, unix), unix) == CleanFilename(s, unix)
  {
    CleanNameFixed(CleanFilename(s, unix), unix);
  }

  // ---------------------------------------------------------------------------
  // The image extension.
  // ---------------------------------------------------------------------------

  /** `s.split(c)[0]`: the text before the first `c`. */
  function BeforeFirst(s: string, c: char): (r: string)
    ensures |r| <= |s| && r == s[..|r|] && c !in r
    ensures |r| < |s| ==> s[|r|] == c
  {
    if s == [] || s[0] == c then [] else [s[0]] + BeforeFirst(s[1..], c)
  }

  /**
   * `img_url.split("?")[0].split(".")[-1] or "jpg"`, then `"jpg"` when that is
   * longer than five characters.
   */
  function ImageExt(url: string): (ext: string)
    ensures 0 < |ext| <= 5 && '.' !in ext && '?' !in ext
    ensures ext != "jpg" ==> EndsWith(BeforeFirst(url, '?'), ext)
  {
    var path := BeforeFirst(url, '?');
    var e := AfterLast(path, '.');
    AfterLastSuffix(path, '.');
    SuffixChars(path, e, '?');
    if e == [] || |e| > 5 then "jpg" else e
  }

  lemma {:induction false} BeforeFirstAt(a: string, b: string, c: char)
    requires c !in a && (b == [] || b[0] == c)
    ensures BeforeFirst(a + b, c) == a
    decreases |a|
  {
    if a != [] {
      BeforeFirstAt(a[1..], b, c);
      assert (a + b)[1..] == a[1..] + b;
    }
  }

  /** A URL whose path ends in `.<e>`, with `e` short and not empty, yields `e`, whatever query follows. */
  lemma ImageExtOf(stem: string, e: string, query: string)
    requires 0 < |e| <= 5 && '.' !in e && '?' !in e && '?' !in stem
    requires query == [] || query[0] == '?'
    ensures ImageExt(stem + "." + e + query) == e
  {
    assert stem + "." + e + query == (stem + "." + e) + query;
    BeforeFirstAt(stem + "." + e, query, '?');
    AfterLastAt(stem, e, '.');
  }

  // ---------------------------------------------------------------------------
  // Fresh posts from the feeds.
  // ---------------------------------------------------------------------------

  /** A feed entry: `published` is None when its parsed time is missing or invalid. */
  datatype Entry = Entry(title: string, link: string, published: Option<nat>)

  datatype Feed = Feed(source: string, entries: seq<Entry>)

  /**
   * What the step gets from outside: the entries of a feed URL, the first
   * image URL of a page (`fetch_first_image`), the bytes a download of a URL
   * to a path writes there (None when the request or the write raises),
   * `isoformat()` of a time, and JSON parsing and dumping.
   */
  datatype Env = Env(
    feed: string -> seq<Entry>,
    firstImage: string -> Option<string>,
    download: (string, string) -> Option<string>,
    iso: nat -> string,
    parse: string -> Option<Json>,
    dumps: Json -> string)

  /** `FEEDS`, read through `feedparser.parse`. */
  function Feeds(env: Env): seq<Feed> {
    [Feed("NFTRH", env.feed("https://nftrh.com/blog/feed/")),
     Feed("Northstar", env.feed("https://northstarbadcharts.com/feed/"))]
  }

  /** The publication time, or now when the entry has none. */
  function PublishedAt(e: Entry, now: nat): nat {
    e.published.GetOr(now)
  }

  /** The entry is not older than the cutoff three days before now. */
  predicate Recent(e: Entry, now: nat) {
    PublishedAt(e, now) >= now - Lookback
  }

  /** An undated entry counts as published now, so it is always kept. */
  lemma UndatedIsRecent(e: Entry, now: nat)
    requires e.published.None?
    ensures Recent(e, now)
  {
  }

  /** The file name of a post's image: cleaned `<source>_<title>` and the extension. */
  function ImageName(source: string, title: string, url: string, unix: nat): string {
    CleanFilename(source + "_" + title, unix) + "." + ImageExt(url)
  }

  /** A post's `image`: `news/<name>` when the page has an image and its download succeeded, else None. */
  function ImageOf(source: string, e: Entry, now: nat, env: Env): (r: Option<string>)
    ensures r.Some? <==>
      var u := env.firstImage(e.link);
      u.Some? && u.value != [] && env.download(u.value, OutDir + "/" + ImageName(source, e.title, u.value, now)).Some?
    ensures r.Some? ==> r.value == "news/" + ImageName(source, e.title, env.firstImage(e.link).value, now)
  {
    var u := env.firstImage(e.link);
    if u.Some? && u.value != [] then
      var name := ImageName(source, e.title, u.value, now);
      if env.download(u.value, OutDir + "/" + name).Some? then Some("news/" + name) else None
    else None
  }

  /** `download(url, dest)`: on success `dest` holds the downloaded bytes; on failure nothing is written. */
  method Download(disk: Disk, url: string, dest: string, env: Env) returns (ok: bool)
    modifies disk
    ensures ok <==> env.download(url, dest).Some?
    ensures disk.files == if ok then old(disk.files)[dest := env.download(url, dest).value] else old(disk.files)
  {
    var got := env.download(url, dest);
    ok := got.Some?;
    if ok {
      disk.WriteText(dest, got.value);
    }
  }

  /** The files after one entry: a recent entry whose image was downloaded adds or overwrites that image. */
  function EntryFiles(files: map<string, string>, source: string, e: Entry, now: nat, env: Env): map<string, string> {
    if Recent(e, now) && ImageOf(source, e, now, env).Some? then
      var u := env.firstImage(e.link).value;
      var dest := OutDir + "/" + ImageName(source, e.title, u, now);
      files[dest := env.download(u, dest).value]
    else files
  }

  /** The files after one feed's entries, in entry order. */
  function FeedFiles(files: map<string, string>, source: string, es: seq<Entry>, now: nat, env: Env): map<string, string>
    decreases |es|
  {
    if es == [] then files
    else EntryFiles(FeedFiles(files, source, es[..|es| - 1], now, env), source, es[|es| - 1], now, env)
  }

  /** The files after all feeds, feed after feed. */
  function FreshFiles(files: map<string, string>, feeds: seq<Feed>, now: nat, env: Env): map<string, string>
    decreases |feeds|
  {
    if feeds == [] then files
    else
      var f := feeds[|feeds| - 1];
      FeedFiles(FreshFiles(files, feeds[..|feeds| - 1], now, env), f.source, f.entries, now, env)
  }

  /** A path an image download can write: a file in `docs/news` named after a source starting with `N`. */
  predicate ImagePath(p: string) {
    StartsWith(p, OutDir + "/N")
  }

  /** A non-blank name starting with an allowed, non-space character keeps that character first. */
  lemma CleanFilenameFirst(s: string, unix: nat)
    requires s != [] && NameChar(s[0]) && !IsSpace(s[0])
    ensures CleanFilename(s, unix)[0] == s[0]
  {
    assert LStrip(s) == s;
    var t := Strip(s);
    assert t != [] && t[0] == s[0];
    assert ReplaceRuns(t, NameChar, '_')[0] == s[0];
  }

  /** The image of an entry of a source starting with `N` is written to an image path. */
  lemma ImageNamePath(source: string, title: string, url: string, unix: nat)
    requires StartsWith(source, "N")
    ensures ImagePath(OutDir + "/" + ImageName(source, title, url, unix))
  {
    var s := source + "_" + title;
    assert s[0] == source[..1][0] == 'N';
    CleanFilenameFirst(s, unix);
    var c := CleanFilename(s, unix);
    var name := c + "." + ImageExt(url);
    assert name[0] == c[0] == 'N';
    var path := OutDir + "/" + name;
    assert path[10] == name[0];
    assert path[..11] == OutDir + "/N";
  }

  /**
   * The downloads of a run only add or overwrite image paths, and
   * `news.json` is none of them, so `load_existing` reads the file as it was.
   */
  lemma {:induction false} FreshFilesWrites(files: map<string, string>, feeds: seq<Feed>, now: nat, env: Env)
    requires forall k :: 0 <= k < |feeds| ==> StartsWith(feeds[k].source, "N")
    ensures var r := FreshFiles(files, feeds, now, env);
      && files.Keys <= r.Keys
      && (forall p :: p in r && (p !in files || r[p] != files[p]) ==> ImagePath(p))
      && !ImagePath(OutJson)
    decreases |feeds|
  {
    assert !ImagePath(OutJson) by {
      assert OutJson[..11][10] == 'n' && (OutDir + "/N")[10] == 'N';
    }
    if feeds != [] {
      var init := FreshFiles(files, feeds[..|feeds| - 1], now, env);
      FreshFilesWrites(files, feeds[..|feeds| - 1], now, env);
      var f := feeds[|feeds| - 1];
      FeedFilesWrites(init, f.source, f.entries, now, env);
    }
  }

  lemma {:induction false} FeedFilesWrites(files: map<string, string>, source: string, es: seq<Entry>, now: nat, env: Env)
    requires StartsWith(source, "N")
    ensures var r := FeedFiles(files, source, es, now, env);
      && files.Keys <= r.Keys
      && forall p :: p in r && (p !in files || r[p] != files[p]) ==> ImagePath(p)
    decreases |es|
  {
    if es != [] {
      var init := FeedFiles(files, source, es[..|es| - 1], now, env);
      FeedFilesWrites(files, source, es[..|es| - 1], now, env);
      var e := es[|es| - 1];
      if Recent(e, now) && ImageOf(source, e, now, env).Some? {
        ImageNamePath(source, e.title, env.firstImage(e.link).value, now);
      }
    }
  }

  /** The dict a post is saved as. */
  function PostJson(source: string, title: string, url: string, published: string, image: Option<string>): Json {
    JObj(map[
      "source" := JStr(source),
      "title" := JStr(title),
      "url" := JStr(url),
      "published" := JStr(published),
      "image" := if image.Some? then JStr(image.value) else JNull])
  }

  /** The post of one entry, or None when it is older than the cutoff. */
  function EntryPost(source: string, e: Entry, now: nat, env: Env): (r: Option<Json>)
    ensures r.Some? <==> Recent(e, now)
    ensures r.Some? ==> r.value == PostJson(source, e.title, e.link, env.iso(PublishedAt(e, now)), ImageOf(source, e, now, env))
  {
    if PublishedAt(e, now) < now - Lookback then None
    else Some(PostJson(source, e.title, e.link, env.iso(PublishedAt(e, now)), ImageOf(source, e, now, env)))
  }

  /** The posts of one feed's entries, in entry order. */
  function FeedPosts(source: string, es: seq<Entry>, now: nat, env: Env): seq<Json>
    decreases |es|
  {
    if es == [] then []
    else
      var p := EntryPost(source, es[|es| - 1], now, env);
      FeedPosts(source, es[..|es| - 1], now, env) + (if p.Some? then [p.value] else [])
  }

  /** The posts of all feeds, feed after feed. */
  function FreshPosts(feeds: seq<Feed>, now: nat, env: Env): seq<Json>
    decreases |feeds|
  {
    if feeds == [] then []
    else
      var f := feeds[|feeds| - 1];
      FreshPosts(feeds[..|feeds| - 1], now, env) + FeedPosts(f.source, f.entries, now, env)
  }

  /** The body of the inner loop of `main`: skip an old entry, else build its post. */
  method PostFor(disk: Disk, source: string, e: Entry, now: nat, env: Env) returns (p: Option<Json>)
    modifies disk
    ensures p == EntryPost(source, e, now, env)
    ensures disk.files == EntryFiles(old(disk.files), source, e, now, env)
  {
    var cutoff := now - Lookback;
    var published := if e.published.Some? then e.published.value else now;
    if published < cutoff {
      return None;
    }
    var imgFile: Option<string> := None;
    var imgUrl := env.firstImage(e.link);
    if imgUrl.Some? && imgUrl.value != [] {
      var ext := ImageExt(imgUrl.value);
      var name := CleanFilename(source + "_" + e.title, now) + "." + ext;
      assert name == ImageName(source, e.title, imgUrl.value, now);
      var ok := Download(disk, imgUrl.value, OutDir + "/" + name, env);
      if ok {
        imgFile := Some("news/" + name);
      }
    }
    assert imgFile == ImageOf(source, e, now, env);
    p := Some(PostJson(source, e.title, e.link, env.iso(published), imgFile));
  }

  /** The inner loop of `main`: a post for each recent entry of one feed, downloading images on the way. */
  method CollectFeed(disk: Disk, source: string, entries: seq<Entry>, now: nat, env: Env) returns (posts: seq<Json>)
    modifies disk
    ensures posts == FeedPosts(source, entries, now, env)
    ensures disk.files == FeedFiles(old(disk.files), source, entries, now, env)
  {
    posts := [];
    for j := 0 to |entries|
      invariant posts == FeedPosts(source, entries[..j], now, env)
      invariant disk.files == FeedFiles(old(disk.files), source, entries[..j], now, env)
    {
      var p := PostFor(disk, source, entries[j], now, env);
      if p.Some? {
        posts := posts + [p.value];
      }
      assert entries[..j + 1][..j] == entries[..j];
    }
    assert entries[..|entries|] == entries;
  }

  /** The nested loop of `main` that appends a post for each recent entry. */
  method CollectPosts(disk: Disk, feeds: seq<Feed>, now: nat, env: Env) returns (posts: seq<Json>)
    modifies disk
    ensures posts == FreshPosts(feeds, now, env)
    ensures disk.files == FreshFiles(old(disk.files), feeds, now, env)
  {
    posts := [];
    for i := 0 to |feeds|
      invariant posts == FreshPosts(feeds[..i], now, env)
      invariant disk.files == FreshFiles(old(disk.files), feeds[..i], now, env)
    {
      var more := CollectFeed(disk, feeds[i].source, feeds[i].entries, now, env);
      posts := posts + more;
      assert feeds[..i + 1][..i] == feeds[..i];
    }
    assert feeds[..|feeds|] == feeds;
  }

  /** Every post is a dict whose `published` is a string. */
  predicate Stamped(x: Json) {
    x.JObj? && "published" in x.fields && x.fields["published"].JStr?
  }

  lemma {:induction false} FeedPostsFacts(source: string, es: seq<Entry>, now: nat, env: Env)
    ensures |FeedPosts(source, es, now, env)| <= |es|
    ensures (forall i :: 0 <= i < |es| ==> Recent(es[i], now)) ==> |FeedPosts(source, es, now, env)| == |es|
    ensures forall i :: 0 <= i < |FeedPosts(source, es, now, env)| ==> Stamped(FeedPosts(source, es, now, env)[i])
    decreases |es|
  {
    if es != [] {
      FeedPostsFacts(source, es[..|es| - 1], now, env);
    }
  }

  /** Fresh posts are stamped dicts, at most one per entry and exactly one per entry when all are recent. */
  lemma {:induction false} FreshPostsFacts(feeds: seq<Feed>, now: nat, env: Env)
    ensures |FreshPosts(feeds, now, env)| <= EntryCount(feeds)
    ensures AllRecent(feeds, now) ==> |FreshPosts(feeds, now, env)| == EntryCount(feeds)
    ensures forall i :: 0 <= i < |FreshPosts(feeds, now, env)| ==> Stamped(FreshPosts(feeds, now, env)[i])
    decreases |feeds|
  {
    if feeds != [] {
      var init := feeds[..|feeds| - 1];
      var f := feeds[|feeds| - 1];
      FreshPostsFacts(init, now, env);
      FeedPostsFacts(f.source, f.entries, now, env);
      if AllRecent(feeds, now) {
        assert AllRecent(init, now) by {
          forall k, i | 0 <= k < |init| && 0 <= i < |init[k].entries| ensures Recent(init[k].entries[i], now) {
            assert init[k] == feeds[k];
          }
        }
      }
    }
  }

  /** The number of entries over all feeds. */
  function EntryCount(feeds: seq<Feed>): nat
    decreases |feeds|
  {
    if feeds == [] then 0 else EntryCount(feeds[..|feeds| - 1]) + |feeds[|feeds| - 1].entries|
  }

  predicate AllRecent(feeds: seq<Feed>, now: nat) {
    forall k, i :: 0 <= k < |feeds| && 0 <= i < |feeds[k].entries| ==> Recent(feeds[k].entries[i], now)
  }

  // ---------------------------------------------------------------------------
  // load_existing
  // ---------------------------------------------------------------------------

  /** The saved document as a list: a list as is, `posts` of a dict when that is a list, another dict alone, anything else nothing. */
  function Existing(data: Json): (r: seq<Json>)
    ensures data.JArr? ==> r == data.items
    ensures data.JObj? && ListAt(data.fields, "posts") ==> r == data.fields["posts"].items
    ensures data.JObj? && !ListAt(data.fields, "posts") ==> r == [data]
    ensures !data.JArr? && !data.JObj? ==> r == []
  {
    match data
    case JArr(items) => items
    case JObj(m) => if ListAt(m, "posts") then m["posts"].items else [data]
    case _ => []
  }

  /** `load_existing()`: a missing or unparseable file gives no posts. */
  function LoadExisting(files: map<string, string>, path: string, parse: string -> Option<Json>): (r: seq<Json>)
    ensures path !in files ==> r == []
    ensures path in files && parse(files[path]).None? ==> r == []
    ensures path in files && parse(files[path]).Some? ==> r == Existing(parse(files[path]).value)
  {
    if path !in files then []
    else match parse(files[path])
      case None => []
      case Some(data) => Existing(data)
  }

  /** What a run saves, the next run loads back as its existing posts. */
  lemma SavedIsLoaded(files: map<string, string>, items: seq<Json>, parse: string -> Option<Json>, dumps: Json -> string)
    requires parse(dumps(JArr(items))) == Some(JArr(items))
    ensures LoadExisting(files[OutJson := dumps(JArr(items))], OutJson, parse) == items
  {
  }

  // ---------------------------------------------------------------------------
  // Merge, sort, truncate.
  // ---------------------------------------------------------------------------

  /** `x.get("published", "")` as the sort key. */
  function SortKey(x: Json): string {
    if Stamped(x) then x.fields["published"].s else ""
  }

  /** A dict whose sort key is a string: `published` is missing or a string. */
  predicate StringKeyed(x: Json) {
    x.JObj? && ("published" !in x.fields || x.fields["published"].JStr?)
  }

  /**
   * `merged = posts + existing; merged.sort(key=..., reverse=True); merged[:20]`.
   * A non-dict item fails at `x.get`; among two or more items a key that is
   * not a string fails the comparison.
   */
  function Merge(posts: seq<Json>, existing: seq<Json>): (r: Result<seq<Json>>)
    ensures r.Err? <==>
      (exists i :: 0 <= i < |posts + existing| && !(posts + existing)[i].JObj?)
      || (|posts + existing| >= 2 && exists i :: 0 <= i < |posts + existing| && !StringKeyed((posts + existing)[i]))
  {
    var merged := posts + existing;
    if exists i :: 0 <= i < |merged| && !merged[i].JObj? then Err("AttributeError")
    else if |merged| >= 2 && exists i :: 0 <= i < |merged| && !StringKeyed(merged[i]) then Err("TypeError")
    else
      var sorted := SortDesc(merged, SortKey);
      Ok(if |sorted| <= MaxPosts then sorted else sorted[..MaxPosts])
  }

  /** The kept posts are a prefix of the whole sorted list. */
  lemma MergePrefix(posts: seq<Json>, existing: seq<Json>)
    requires Merge(posts, existing).Ok?
    ensures var sorted := SortDesc(posts + existing, SortKey);
      Merge(posts, existing).value <= sorted
  {
  }

  /**
   * The result has `min(20, |posts| + |existing|)` items, newest first, all
   * taken from the input; when nothing is cut, it holds exactly the input,
   * duplicates included.
   */
  lemma MergeFacts(posts: seq<Json>, existing: seq<Json>)
    requires Merge(posts, existing).Ok?
    ensures var r := Merge(posts, existing).value; var m := posts + existing;
      && |r| == (if |m| <= MaxPosts then |m| else MaxPosts)
      && Descending(r, SortKey)
      && multiset(r) <= multiset(m)
      && (|m| <= MaxPosts ==> multiset(r) == multiset(m))
  {
    var m := posts + existing;
    var sorted := SortDesc(m, SortKey);
    MergeCut(posts, existing);
    SortDescFacts(m, SortKey);
    var r := Merge(posts, existing).value;
    DescendingPrefix(sorted, |r|, SortKey);
    if |m| <= MaxPosts {
      assert r == sorted;
    }
  }

  /** The kept posts are the first `min(20, n)` of the sorted list. */
  lemma MergeCut(posts: seq<Json>, existing: seq<Json>)
    requires Merge(posts, existing).Ok?
    ensures var r := Merge(posts, existing).value; var m := posts + existing;
      |r| == (if |m| <= MaxPosts then |m| else MaxPosts) && r == SortDesc(m, SortKey)[..|r|]
  {
    SortDescFacts(posts + existing, SortKey);
  }

  /** In a descending list, every element past a cut is bounded by every element before it. */
  lemma CutBelow<T>(s: seq<T>, n: nat, key: T -> string)
    requires Descending(s, key) && n <= |s|
    ensures forall y, i :: y in multiset(s) - multiset(s[..n]) && 0 <= i < n ==> AtLeast(key(s[i]), key(y))
  {
    var rest := s[n..];
    assert s == s[..n] + rest;
    assert multiset(s) - multiset(s[..n]) == multiset(rest);
    forall y, i | y in multiset(s) - multiset(s[..n]) && 0 <= i < n ensures AtLeast(key(s[i]), key(y)) {
      assert y in rest;
      var j :| 0 <= j < |rest| && rest[j] == y;
      assert s[n + j] == y;
    }
  }

  /** Nothing that was cut is newer than anything that was kept. */
  lemma MergeKeepsNewest(posts: seq<Json>, existing: seq<Json>)
    requires Merge(posts, existing).Ok?
    ensures var r := Merge(posts, existing).value;
      forall y, i :: y in multiset(posts + existing) - multiset(r) && 0 <= i < |r| ==> AtLeast(SortKey(r[i]), SortKey(y))
  {
    var m := posts + existing;
    var sorted := SortDesc(m, SortKey);
    var r := Merge(posts, existing).value;
    SortDescFacts(m, SortKey);
    assert r == sorted[..|r|];
    CutBelow(sorted, |r|, SortKey);
  }

  lemma {:induction false} WithKeyPrefix<T>(r: seq<T>, s: seq<T>, key: T -> string, k: string)
    requires r <= s
    ensures WithKey(r, key, k) <= WithKey(s, key, k)
  {
    assert s == r + s[|r|..];
    WithKeyAppend(r, s[|r|..], key, k);
  }

  /** Posts with equal keys keep fresh-before-existing input order among those kept. */
  lemma MergeTiesFreshFirst(posts: seq<Json>, existing: seq<Json>, k: string)
    requires Merge(posts, existing).Ok?
    ensures WithKey(Merge(posts, existing).value, SortKey, k) <= WithKey(posts, SortKey, k) + WithKey(existing, SortKey, k)
  {
    var m := posts + existing;
    MergePrefix(posts, existing);
    WithKeyPrefix(Merge(posts, existing).value, SortDesc(m, SortKey), SortKey, k);
    SortDescStable(m, SortKey, k);
    WithKeyAppend(posts, existing, SortKey, k);
  }

  /** Fresh posts merged with string-keyed saved posts never fail. */
  lemma MergeFreshOk(feeds: seq<Feed>, now: nat, env: Env, existing: seq<Json>)
    requires forall i :: 0 <= i < |existing| ==> StringKeyed(existing[i])
    ensures Merge(FreshPosts(feeds, now, env), existing).Ok?
  {
    var posts := FreshPosts(feeds, now, env);
    FreshPostsFacts(feeds, now, env);
    var m := posts + existing;
    forall i | 0 <= i < |m| ensures StringKeyed(m[i]) {
      if i < |posts| {
        assert m[i] == posts[i];
      } else {
        assert m[i] == existing[i - |posts|];
      }
    }
  }

  // ---------------------------------------------------------------------------
  // main
  // ---------------------------------------------------------------------------

  /**
   * `main()`: collect the recent posts, saving their images on the way, merge
   * them with the saved ones and write the result; a failure while sorting
   * leaves the images but does not write `news.json`.
   */
  method RunNorthstar(disk: Disk, now: nat, env: Env) returns (r: Result<seq<Json>>)
    modifies disk
    ensures r == Merge(FreshPosts(Feeds(env), now, env), LoadExisting(old(disk.files), OutJson, env.parse))
    ensures r.Ok? ==> disk.files == FreshFiles(old(disk.files), Feeds(env), now, env)[OutJson := env.dumps(JArr(r.value))]
    ensures r.Err? ==> disk.files == FreshFiles(old(disk.files), Feeds(env), now, env)
  {
    FreshFilesWrites(disk.files, Feeds(env), now, env);
    var posts := CollectPosts(disk, Feeds(env), now, env);
    var existing := LoadExisting(disk.files, OutJson, env.parse);
    r := Merge(posts, existing);
    if r.Ok? {
      disk.WriteText(OutJson, env.dumps(JArr(r.value)));
    }
  }
}
