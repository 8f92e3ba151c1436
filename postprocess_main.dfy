/**
 * The run of the post-processing step: read the index document and the
 * optional news document, write the JSON report, the Markdown report and
 * the table fragment, and put the fragment into the report page.
 */
module PostprocessMain {
  import opened Wrappers
  import opened JsonValues
  import opened Text
  import opened FileStore
  import opened Postprocess
  import opened TableText
  import opened ReportTable
  import opened TableRows
  import opened Inject
  import opened ReTemplate

  /** Where the run reads and writes. */
  datatype Layout = Layout(index: string, news: string, json: string, md: string, table: string, page: string)

  /** The paths of the repository's `docs/` folder. */
  function Docs(): Layout {
    Layout("docs/index.json", "docs/news/news.json", "docs/report.json", "docs/report.md", "docs/report_table.html", "docs/index.html")
  }

  /** The four outputs of a layout. */
  function Outs(l: Layout): set<string> {
    {l.json, l.md, l.table, l.page}
  }

  /** The `.tmp` siblings of the four outputs. */
  function Tmps(l: Layout): set<string> {
    {TmpSibling(l.json), TmpSibling(l.md), TmpSibling(l.table), TmpSibling(l.page)}
  }

  /** The four outputs are different files, none of them the `.tmp` sibling of another. */
  predicate Separate(l: Layout) {
    && l.json != l.md && l.json != l.table && l.json != l.page
    && l.md != l.table && l.md != l.page && l.table != l.page
    && Outs(l) !! Tmps(l)
  }

  lemma DocsSeparate()
    ensures Separate(Docs())
  {
  }

  /** The document written to `report.json`. */
  datatype ReportDoc = ReportDoc(generatedLocal: Json, specVersion: string, assets: seq<AssetRow>, news: Json)

  /**
   * How the outputs are serialised: `fmt` renders table cells, `dumps` is
   * `json.dumps(..., ensure_ascii=False, indent=2)` of the report document
   * and `markdown` builds the Markdown report from the stamp and the records.
   */
  datatype Render = Render(fmt: Format, dumps: ReportDoc -> string, markdown: (string, seq<AssetRow>) -> string)

  /** The index document: loading errors stop the run, and a document that is not a dict fails at `idx.get`. */
  function IndexDoc(files: map<string, string>, path: string, parse: string -> Option<Json>): (r: Result<map<string, Json>>)
    ensures LoadJsonFile(files, path, parse).Err? ==> r == Err(LoadJsonFile(files, path, parse).error)
    ensures r.Ok? <==> LoadJsonFile(files, path, parse).Ok? && LoadJsonFile(files, path, parse).value.JObj?
    ensures r.Ok? ==> r.value == LoadJsonFile(files, path, parse).value.fields
    ensures r.Err? && LoadJsonFile(files, path, parse).Ok? ==> r.error == "AttributeError"
  {
    match LoadJsonFile(files, path, parse)
    case Err(e) => Err(e)
    case Ok(j) => if j.JObj? then Ok(j.fields) else Err("AttributeError")
  }

  /** `idx.get("generated_local") or <now>`. */
  function Generated(idx: map<string, Json>, now: string): (g: Json)
    ensures "generated_local" in idx && Truthy(idx["generated_local"]) ==> g == idx["generated_local"]
    ensures ("generated_local" !in idx || !Truthy(idx["generated_local"])) ==> g == JStr(now)
  {
    Or(Field(idx, "generated_local"), JStr(now))
  }

  /** The stamp as an f-string shows it: a string as it is, anything else through `str()`. */
  function GenText(gen: Json, fmt: Format): (t: string)
    ensures gen.JStr? ==> t == gen.s
    ensures !gen.JStr? ==> t == fmt.str(gen)
  {
    if gen.JStr? then gen.s else fmt.str(gen)
  }

  /** The news document when it loads, and `{}` when it is missing, empty or does not parse. */
  function NewsOf(files: map<string, string>, path: string, parse: string -> Option<Json>): (r: Json)
    ensures LoadJsonFile(files, path, parse).Ok? ==> r == LoadJsonFile(files, path, parse).value
    ensures LoadJsonFile(files, path, parse).Err? ==> r == JObj(map[])
    ensures path !in files ==> r == JObj(map[])
  {
    match LoadJsonFile(files, path, parse)
    case Ok(v) => v
    case Err(_) => JObj(map[])
  }

  /** The files after `write_text_atomic(path, text)`. */
  function Put(files: map<string, string>, path: string, text: string): (r: map<string, string>)
    ensures path in r && r[path] == text && TmpSibling(path) !in r
    ensures forall q :: q != path && q != TmpSibling(path) ==> (q in r <==> q in files) && (q in r ==> r[q] == files[q])
  {
    (files - {TmpSibling(path)})[path := text]
  }

  /**
   * The new text of the report page: the existing page with the fragment put
   * in, or the minimal page; the error of a fragment that is not a valid
   * template when the existing page is marked.
   */
  function PageText(page: Option<string>, table: string): (r: Result<string>)
    ensures page.None? ==> r == Ok(MinimalPage(table))
    ensures r.Err? <==> page.Some? && Contains(page.value, TableStart) && Contains(page.value, TableEnd) && Parse(table).Err?
  {
    if page.Some? then InjectTable(page.value, table) else Ok(MinimalPage(table))
  }

  /** The file at `path`, if there is one. */
  function FileAt(files: map<string, string>, path: string): (r: Option<string>)
    ensures r.Some? <==> path in files
    ensures r.Some? ==> r.value == files[path]
  {
    if path in files then Some(files[path]) else None
  }

  /** The fragment for the records and the stamp. */
  function Fragment(gen: Json, assets: seq<AssetRow>, fmt: Format): string {
    TableHtml(Rows(assets, fmt), GenText(gen, fmt))
  }

  /** The files after the first three writes of a run: the two reports and the fragment. */
  function Reports(files: map<string, string>, l: Layout, jsonText: string, mdText: string, table: string): map<string, string> {
    Put(Put(Put(files, l.json, jsonText), l.md, mdText), l.table, table)
  }

  /** The files after the four writes of a run, in the order the run makes them. */
  function Writes(files: map<string, string>, l: Layout, jsonText: string, mdText: string, table: string, page: string): map<string, string> {
    Put(Reports(files, l, jsonText, mdText, table), l.page, page)
  }

  /** The records of a run whose index document is `idx`, when they can be built. */
  ghost predicate AssetsFail(idx: map<string, Json>) {
    AssetsIn(JObj(idx)).None? || HasNonDictEntry(AssetsIn(JObj(idx)).value)
  }

  /** The document a run writes to `report.json`. */
  function Doc(gen: Json, assets: seq<AssetRow>, news: Json): ReportDoc {
    ReportDoc(gen, "v1", assets, news)
  }

  /**
   * The four writes of `main()`: the two reports, the fragment, and the
   * page made of the fragment and the page as it is read after the first
   * three writes, which leave it as it was. When the page cannot be made,
   * the error is returned and the page is not written.
   */
  method WriteOutputs(disk: Disk, l: Layout, jsonText: string, mdText: string, table: string) returns (page: Result<string>)
    requires Separate(l)
    modifies disk
    ensures page == PageText(FileAt(old(disk.files), l.page), table)
    ensures page.Ok? ==> disk.files == Writes(old(disk.files), l, jsonText, mdText, table, page.value)
    ensures page.Err? ==> disk.files == Reports(old(disk.files), l, jsonText, mdText, table)
  {
    ghost var before := FileAt(disk.files, l.page);
    assert l.page !in Tmps(l);
    disk.WriteTextAtomic(l.json, jsonText);
    disk.WriteTextAtomic(l.md, mdText);
    disk.WriteTextAtomic(l.table, table);
    var current := FileAt(disk.files, l.page);
    assert current == before;
    page := PageText(current, table);
    if page.Ok? {
      disk.WriteTextAtomic(l.page, page.value);
    }
  }

  /** What a run has read before it writes: the stamp, the records and the news document. */
  datatype Inputs = Inputs(gen: Json, assets: seq<AssetRow>, news: Json)

  /**
   * The outcome of the reading half of `main()`: the loading error of the
   * index; AttributeError for an index, an assets value or an entry that is
   * not a dict; otherwise the stamp, the records in ticker order and the news.
   */
  ghost predicate Loaded(files: map<string, string>, l: Layout, now: string, parse: string -> Option<Json>, r: Result<Inputs>) {
    match IndexDoc(files, l.index, parse)
    case Err(e) => r == Err(e)
    case Ok(idx) =>
      if AssetsFail(idx) then r == Err("AttributeError")
      else
        && r.Ok?
        && r.value.gen == Generated(idx, now)
        && r.value.news == NewsOf(files, l.news, parse)
        && SortedImage(AssetsIn(JObj(idx)).value, r.value.assets, TickerOf, AssetOf)
  }

  /** The reading half of `main()`: the index, the stamp, the records and the news. */
  method ReadInputs(files: map<string, string>, l: Layout, now: string, parse: string -> Option<Json>) returns (r: Result<Inputs>)
    ensures Loaded(files, l, now, parse, r)
  {
    var doc := IndexDoc(files, l.index, parse);
    if doc.Err? {
      return Err(doc.error);
    }
    var gen := Generated(doc.value, now);
    var assets := BuildAssets(JObj(doc.value));
    if assets.Err? {
      return Err(assets.error);
    }
    r := Ok(Inputs(gen, assets.value, NewsOf(files, l.news, parse)));
  }

  /**
   * `main()` on the paths under `docs/`: a failure while reading stops the
   * run before anything is written; otherwise the two reports and the
   * fragment are written, and then the page, unless the fragment is not a
   * valid template for a marked page, which stops the run with the page as
   * it was. The fragment is the value `TableRows.BuildTableHtml` is proved
   * to build.
   */
  method RunPostprocess(disk: Disk, now: string, parse: string -> Option<Json>, render: Render)
    returns (r: Result<Inputs>, table: string, page: Result<string>)
    modifies disk
    ensures Loaded(old(disk.files), Docs(), now, parse, r)
    ensures r.Err? ==> page == Err(r.error) && disk.files == old(disk.files)
    ensures r.Ok? ==>
      && table == Fragment(r.value.gen, r.value.assets, render.fmt)
      && page == PageText(FileAt(old(disk.files), Docs().page), table)
    ensures r.Ok? ==>
      var reports := Reports(old(disk.files), Docs(),
        render.dumps(Doc(r.value.gen, r.value.assets, r.value.news)),
        render.markdown(GenText(r.value.gen, render.fmt), r.value.assets),
        table);
      disk.files == if page.Ok? then Put(reports, Docs().page, page.value) else reports
  {
    r := ReadInputs(disk.files, Docs(), now, parse);
    if r.Err? {
      return r, [], Err(r.error);
    }
    var input := r.value;
    var genText := GenText(input.gen, render.fmt);
    table := Fragment(input.gen, input.assets, render.fmt);
    DocsSeparate();
    page := WriteOutputs(disk, Docs(), render.dumps(Doc(input.gen, input.assets, input.news)), render.markdown(genText, input.assets), table);
  }

  /**
   * With four separate outputs, a run leaves each output holding its text,
   * none of their `.tmp` siblings, and every other path as it was.
   */
  lemma WritesHold(files: map<string, string>, l: Layout, jsonText: string, mdText: string, table: string, page: string)
    requires Separate(l)
    ensures var out := Writes(files, l, jsonText, mdText, table, page);
      && l.json in out && l.md in out && l.table in out && l.page in out
      && out[l.json] == jsonText && out[l.md] == mdText && out[l.table] == table && out[l.page] == page
      && TmpSibling(l.json) !in out && TmpSibling(l.md) !in out
      && TmpSibling(l.table) !in out && TmpSibling(l.page) !in out
    ensures var out := Writes(files, l, jsonText, mdText, table, page);
      forall q :: q !in Outs(l) && q !in Tmps(l) ==> (q in out <==> q in files) && (q in out ==> out[q] == files[q])
  {
    assert l.json !in Tmps(l) && l.md !in Tmps(l) && l.table !in Tmps(l) && l.page !in Tmps(l);
    var f1 := Put(files, l.json, jsonText);
    var f2 := Put(f1, l.md, mdText);
    var f3 := Put(f2, l.table, table);
    assert l.json in f3 && f3[l.json] == jsonText;
  }

  /**
   * The page is made and ends up with exactly one marker pair for a well
   * framed fragment when there was no page, or the page had one pair and the
   * fragment is a template that puts in a well framed text, or the page
   * holds no `_` and at most one `</body>` once its old sections are gone.
   */
  lemma PageMarked(page: Option<string>, table: string)
    requires WellFramed(table)
    requires page.Some? ==> (OnePair(page.value) && TemplateFramed(table)) || ('_' !in page.value && Occurrences(RemoveLegacy(page.value), BodyEnd) <= 1)
    ensures PageText(page, table).Ok? && OnePair(PageText(page, table).value)
  {
    if page.None? {
      MinimalPageMarked(table);
    } else if OnePair(page.value) && TemplateFramed(table) {
      var i, k := InjectMarked(page.value, table, Expand(Parse(table).value, []));
    } else if Occurrences(RemoveLegacy(page.value), BodyEnd) == 0 {
      OccurrencesZero(RemoveLegacy(page.value), BodyEnd);
      InjectAppended(page.value, table);
    } else {
      var i := InjectBeforeBody(page.value, table);
    }
  }

  /** When no record's row and not the stamp holds marker text, the fragment is well framed. */
  lemma FragmentFramed(gen: Json, assets: seq<AssetRow>, fmt: Format)
    requires PlainRows(assets, fmt) && '!' !in GenText(gen, fmt)
    ensures WellFramed(Fragment(gen, assets, fmt))
  {
    RowsFramed(assets, GenText(gen, fmt), fmt);
  }
}
