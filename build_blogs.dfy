/**
 * The build of the LaTeX posts (scripts/buildBlogs.mjs): for each entry of the blog
 * directory that is a directory holding `main.tex`, the metadata record, the compiled
 * TikZ figures and the HTML page, and at the end the records the generated TypeScript file
 * exports. The file system and the external tools are inputs.
 */
module BuildBlogs {
  import opened Wrappers
  import opened Text
  import opened Seqs
  import opened TikzFigures
  import opened LatexMetadata
  import opened SlotInjection
  import opened Posts

  const FigurePrefix: String := "fig-"

  /** What `main.tex` of an entry is: absent, present but unreadable (the read throws), or read. */
  datatype TexFile = Missing | Unreadable | Tex(content: String)
  {
    /** The text read, or "" when there is none. */
    function Text(): String { if Tex? then content else "" }
  }

  /** One name listed by `fs.readdirSync(BLOG_DIR)`. */
  datatype Entry = Entry(slug: String, isDirectory: bool, mainTex: TexFile)

  /**
   * The external tools. `compile(slug, id, code)` is `compileTikzToSvg`: latex then dvisvgm,
   * false whenever a stage fails. `pandoc(slug)` is the HTML that pandoc writes for the post,
   * or `None` when pandoc or the read-back of its output throws.
   */
  datatype Tools = Tools(compile: (String, String, String) -> bool, pandoc: String -> Option<String>)

  /** The record pushed to `metadata` (lines 172-178). */
  datatype Meta = Meta(slug: String, title: String, author: String, date: String, excerpt: String)

  // ---------------------------------------------------------------------------------------
  // Processed figures (lines 137-144)

  function Compiles(tools: Tools, slug: String): Figure -> bool
  {
    (f: Figure) => tools.compile(slug, f.id, f.code)
  }

  /** The `for (const fig of tikzFigures)` loop: keeps the figures whose compilation succeeded. */
  method SelectProcessedFigures(tools: Tools, slug: String, tikzFigures: seq<Figure>) returns (processedFigures: seq<Figure>)
    ensures processedFigures == Filter(tikzFigures, Compiles(tools, slug))
  {
    processedFigures := [];
    for i := 0 to |tikzFigures|
      invariant processedFigures == Filter(tikzFigures[..i], Compiles(tools, slug))
    {
      var fig := tikzFigures[i];
      FilterSnoc(tikzFigures[..i], fig, Compiles(tools, slug));
      assert tikzFigures[..i + 1] == tikzFigures[..i] + [fig];
      if tools.compile(slug, fig.id, fig.code) {
        processedFigures := processedFigures + [fig];
      }
    }
    assert tikzFigures[..|tikzFigures|] == tikzFigures;
  }

  /**
   * The processed figures are an order-preserving subsequence of the extracted ones, and a
   * failed compilation never stops a later figure from being kept.
   */
  lemma ProcessedFiguresSubsequence(tools: Tools, slug: String, tikzFigures: seq<Figure>)
    ensures IsSubsequence(Filter(tikzFigures, Compiles(tools, slug)), tikzFigures)
    ensures forall k :: 0 <= k < |tikzFigures| && tools.compile(slug, tikzFigures[k].id, tikzFigures[k].code) ==>
      tikzFigures[k] in Filter(tikzFigures, Compiles(tools, slug))
    ensures forall f :: f in Filter(tikzFigures, Compiles(tools, slug)) ==>
      f in tikzFigures && tools.compile(slug, f.id, f.code)
  {
    FilterIsSubsequence(tikzFigures, Compiles(tools, slug));
    forall k | 0 <= k < |tikzFigures| && tools.compile(slug, tikzFigures[k].id, tikzFigures[k].code)
      ensures tikzFigures[k] in Filter(tikzFigures, Compiles(tools, slug))
    {
      assert Compiles(tools, slug)(tikzFigures[k]);
    }
  }

  function Ids(figures: seq<Figure>): (r: seq<String>)
    ensures |r| == |figures| && forall k :: 0 <= k < |r| ==> r[k] == figures[k].id
  {
    Map(figures, (f: Figure) => f.id)
  }

  /** The figures of `tex` that compiled, in source order. */
  function Processed(tools: Tools, slug: String, tex: String): seq<Figure>
  {
    Filter(Figures(tex, FigurePrefix), Compiles(tools, slug))
  }

  /**
   * Slots pair with compiled figures by position, not by id: when `fig-0` fails and `fig-1`
   * compiles, the first empty slot of the page receives the image of `fig-1`.
   */
  lemma FirstSlotTakesFirstCompiled(tools: Tools, slug: String, tex: String)
    requires |Figures(tex, FigurePrefix)| >= 2
    requires !Compiles(tools, slug)(Figures(tex, FigurePrefix)[0])
    requires Compiles(tools, slug)(Figures(tex, FigurePrefix)[1])
    ensures Ids(Processed(tools, slug, tex)) != []
    ensures Blocks(slug, Ids(Processed(tools, slug, tex)))[0] == ImgBlock(slug, "fig-1")
  {
    var figs := Figures(tex, FigurePrefix);
    FilterSkipsFirst(figs, Compiles(tools, slug));
    FigureIdsSequential(tex, FigurePrefix);
    SecondFigureId(figs[1].id);
    var ids := Ids(Processed(tools, slug, tex));
    assert ids[0] == "fig-1";
    BlocksHead(slug, ids);
  }

  lemma SecondFigureId(id: String)
    requires id == FigurePrefix + NatToString(1)
    ensures id == "fig-1"
  {
    assert NatToString(1) == "1";
  }

  lemma BlocksHead(slug: String, ids: seq<String>)
    requires ids != []
    ensures Blocks(slug, ids)[0] == ImgBlock(slug, ids[0])
  {
  }

  // ---------------------------------------------------------------------------------------
  // One post

  /** `extractLatexMetadata` and the excerpt, as the record of the post `slug`. */
  function RecordFor(slug: String, tex: String, today: String): Meta
  {
    var m := ExtractLatexMetadata(tex, today);
    Meta(slug, m.title, m.author, m.date, Excerpt(tex))
  }

  /**
   * The page written for the post: pandoc's HTML, rewritten with the figure images only
   * when at least one figure compiled (lines 185-202).
   */
  function PageFor(html: String, slug: String, processed: seq<Figure>): String
  {
    if |processed| > 0 then InjectFrom(html, slug, Ids(processed), 0, 0) else html
  }

  /** Without a compiled figure the page is exactly pandoc's output. */
  lemma PageWithoutFigures(html: String, slug: String, processed: seq<Figure>)
    ensures |processed| == 0 ==> PageFor(html, slug, processed) == html
    ensures Chained(html, 0, SlotsFrom(html, 0))
    ensures PageFor(html, slug, processed) ==
      Splice(html, 0, SlotsFrom(html, 0), Blocks(slug, Ids(processed)))
  {
    InjectIsSplice(html, slug, Ids(processed), 0, 0);
    assert Ids(processed)[0..] == Ids(processed);
    if |processed| == 0 {
      assert Blocks(slug, Ids(processed)) == [];
    }
  }

  /** An entry is converted when it is a directory whose `main.tex` could be read. */
  predicate Converted(e: Entry)
  {
    e.isDirectory && e.mainTex.Tex?
  }

  /** The record of a converted entry. */
  function RecordOf(e: Entry, today: String): Meta
  {
    RecordFor(e.slug, e.mainTex.Text(), today)
  }

  /** The records an entry contributes: one if it is converted, none otherwise. */
  function EntryRecords(today: String): Entry -> seq<Meta>
  {
    (e: Entry) => if Converted(e) then [RecordOf(e, today)] else []
  }

  /** The pages an entry contributes: one if it is converted and pandoc succeeded. */
  function EntryPages(tools: Tools): Entry -> seq<(String, String)>
  {
    (e: Entry) =>
      if Converted(e) && tools.pandoc(e.slug).Some? then
        [(e.slug, PageFor(tools.pandoc(e.slug).value, e.slug, Processed(tools, e.slug, e.mainTex.Text())))]
      else []
  }

  /** The `metadata` array after the loop has visited `es`. */
  function MetadataOf(es: seq<Entry>, today: String): seq<Meta>
  {
    Collect(es, EntryRecords(today))
  }

  /** The pages written after the loop has visited `es`. */
  function PagesOf(es: seq<Entry>, tools: Tools): seq<(String, String)>
  {
    Collect(es, EntryPages(tools))
  }

  /** Lines 185-202: the images are embedded only when some figure compiled. */
  method WritePage(html: String, slug: String, processedFigures: seq<Figure>) returns (page: String)
    ensures page == PageFor(html, slug, processedFigures)
  {
    page := html;
    if |processedFigures| > 0 {
      var figureCount;
      page, figureCount := EmbedSvgs(html, slug, Ids(processedFigures));
    }
  }

  /** One iteration of `for (const slug of blogs)`. */
  method ConvertEntry(e: Entry, tools: Tools, today: String) returns (records: seq<Meta>, pages: seq<(String, String)>)
    ensures records == EntryRecords(today)(e)
    ensures pages == EntryPages(tools)(e)
  {
    records, pages := [], [];
    if !Converted(e) {
      return;
    }
    var texContent := e.mainTex.content;
    var meta := ExtractLatexMetadata(texContent, today);
    var tikzFigures := ExtractTikzFigures(texContent, FigurePrefix);
    var processedFigures := SelectProcessedFigures(tools, e.slug, tikzFigures);
    assert processedFigures == Processed(tools, e.slug, e.mainTex.Text());
    records := [Meta(e.slug, meta.title, meta.author, meta.date, Excerpt(texContent))];
    assert records == [RecordOf(e, today)];
    match tools.pandoc(e.slug)
    case None =>
    case Some(html) =>
      var page := WritePage(html, e.slug, processedFigures);
      pages := [(e.slug, page)];
  }

  /**
   * The whole script: nothing is produced when the blog directory is missing; otherwise
   * the records of the converted entries in directory order, the pages, and the exported
   * list (which is `None` when the TypeScript file is not written).
   */
  method BuildBlogs(blogDirExists: bool, blogs: seq<Entry>, tools: Tools, today: String)
    returns (metadata: seq<Meta>, pages: seq<(String, String)>, latexBlogs: Option<seq<BlogPost>>)
    ensures !blogDirExists ==> metadata == [] && pages == [] && latexBlogs == None
    ensures blogDirExists ==> metadata == MetadataOf(blogs, today)
    ensures blogDirExists ==> pages == PagesOf(blogs, tools)
    ensures blogDirExists ==> latexBlogs == Some(Emit(metadata))
  {
    metadata, pages, latexBlogs := [], [], None;
    if !blogDirExists {
      return;
    }
    for i := 0 to |blogs|
      invariant metadata == MetadataOf(blogs[..i], today)
      invariant pages == PagesOf(blogs[..i], tools)
    {
      var records, entryPages := ConvertEntry(blogs[i], tools, today);
      CollectStep(blogs, i, EntryRecords(today), metadata, records);
      CollectStep(blogs, i, EntryPages(tools), pages, entryPages);
      metadata := metadata + records;
      pages := pages + entryPages;
    }
    assert blogs[..|blogs|] == blogs;
    latexBlogs := Some(Emit(metadata));
  }

  // ---------------------------------------------------------------------------------------
  // The exported records (lines 221-225)

  function ToPost(m: Meta): BlogPost
  {
    BlogPost(m.slug, m.title, m.excerpt, m.date, m.author, "", "Blog", None)
  }

  /** `metadata.map(m => ({...m, content: "", category: "Blog"}))`. */
  function Emit(metadata: seq<Meta>): seq<BlogPost>
  {
    Map(metadata, ToPost)
  }

  /** Every exported record keeps its metadata fields, has empty content and the category "Blog". */
  lemma EmittedRecords(metadata: seq<Meta>)
    ensures |Emit(metadata)| == |metadata|
    ensures forall k :: 0 <= k < |metadata| ==>
      var p := Emit(metadata)[k];
      p.content == "" && p.category == "Blog" && p.link.None? &&
      p.slug == metadata[k].slug && p.title == metadata[k].title && p.author == metadata[k].author &&
      p.date == metadata[k].date && p.excerpt == metadata[k].excerpt
  {
  }

  // ---------------------------------------------------------------------------------------
  // What the loop promises

  /**
   * The records are exactly one per converted entry, in directory order; pandoc and the
   * compiler do not appear here, so a failed conversion to HTML still leaves the record.
   */
  lemma MetadataOneRecordPerPost(es: seq<Entry>, today: String)
    ensures MetadataOf(es, today) == Map(Filter(es, Converted), (e: Entry) => RecordOf(e, today))
  {
    CollectOptional(es, EntryRecords(today), Converted, (e: Entry) => RecordOf(e, today));
  }
}
