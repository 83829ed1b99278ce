/**
 * The alternative TikZ processor (scripts/processTikz.js): the figures of a LaTeX post are
 * extracted with ids "tikz-fig-0", "tikz-fig-1", ..., each one is wrapped in a standalone
 * document and compiled to SVG, and the code of every figure that compiled is replaced, at
 * its first occurrence, by the marker `%%TIKZ_PLACEHOLDER_<id>%%`.
 *
 * The file system and the external programs (pdflatex, pdf2svg, dvisvgm) are a
 * `Toolchain` of boolean oracles, one per stage.
 */
module TikzProcessor {
  import opened Wrappers
  import opened Text
  import opened Seqs
  import opened TikzFigures

  const TikzPrefix: String := "tikz-fig-"

  // ---------------------------------------------------------------------------------------
  // The standalone document

  const Preamble: String :=
    "\\documentclass[tikz,border=2pt]{standalone}\n\\usepackage{amsmath,amssymb}\n\\usepackage{tikz}\n\\usetikzlibrary{positioning, arrows.meta, calc, shapes.geometric}\n"
  const BodyOpen: String := "\n\n\\begin{document}\n"
  const BodyClose: String := "\n\\end{document}"

  /** `createStandaloneTikz`: the fixed preamble, the extra packages, then the figure as the document body. */
  function StandaloneTikz(tikzCode: String, packages: String): (doc: String)
    ensures StartsWith(doc, Preamble + packages) && EndsWith(doc, BodyClose)
    ensures |doc| == |Preamble| + |packages| + |BodyOpen| + |tikzCode| + |BodyClose|
  {
    Preamble + packages + BodyOpen + tikzCode + BodyClose
  }

  /** The packages and the figure code can be read back out of the document, so no two figures share one. */
  lemma StandaloneTikzRecovers(tikzCode: String, packages: String)
    ensures var doc := StandaloneTikz(tikzCode, packages);
      var codeStart := |Preamble| + |packages| + |BodyOpen|;
      doc[|Preamble|..|Preamble| + |packages|] == packages &&
      doc[codeStart..codeStart + |tikzCode|] == tikzCode &&
      doc[codeStart - |BodyOpen|..codeStart] == BodyOpen
  {
  }

  lemma StandaloneTikzInjective(code1: String, code2: String, packages: String)
    requires StandaloneTikz(code1, packages) == StandaloneTikz(code2, packages)
    ensures code1 == code2
  {
    StandaloneTikzRecovers(code1, packages);
    StandaloneTikzRecovers(code2, packages);
  }

  // ---------------------------------------------------------------------------------------
  // Paths

  /** `path.basename(p, ext)`: the last component, without `ext` unless that is all of it. */
  function BaseName(p: String, ext: String): String
  {
    var base := AfterLast(p, '/');
    if |ext| < |base| && EndsWith(base, ext) then base[..|base| - |ext|] else base
  }

  /** `path.join(process.cwd(), 'generated/blogs/tikz', slug)`, with `cwd` already normalised. */
  function SvgDir(cwd: String, slug: String): String
  {
    cwd + "/generated/blogs/tikz/" + slug
  }

  function SvgPath(cwd: String, slug: String, id: String): String
  {
    SvgDir(cwd, slug) + "/" + id + ".svg"
  }

  function TempDir(cwd: String): String
  {
    cwd + "/generated/temp-tikz"
  }

  /** The `relativePath` of a compiled figure. */
  function RelativePath(slug: String, id: String): String
  {
    "/generated/blogs/tikz/" + slug + "/" + id + ".svg"
  }

  /** The SVG path's base name is the figure id, so the scratch files are named after the figure. */
  lemma SvgPathBaseName(cwd: String, slug: String, id: String)
    requires id != [] && '/' !in id
    ensures BaseName(SvgPath(cwd, slug, id), ".svg") == id
  {
    var file := id + ".svg";
    assert '/' !in file by {
      forall i | 0 <= i < |file| ensures file[i] != '/' {
        if i >= |id| {
          assert file[i] == ".svg"[i - |id|];
        }
      }
    }
    assert SvgPath(cwd, slug, id) == SvgDir(cwd, slug) + ['/'] + file;
    AfterLastAppend(SvgDir(cwd, slug), '/', file);
    assert AfterLast(SvgPath(cwd, slug, id), '/') == file;
    assert file[|file| - 4..] == ".svg";
    assert file[..|file| - 4] == id;
  }

  // ---------------------------------------------------------------------------------------
  // Compilation

  /**
   * The outcome of each external stage, as a function of the file it writes or reads and of
   * the standalone document that decides it.
   */
  datatype Toolchain = Toolchain(
    write: (String, String) -> bool,
    pdflatex: (String, String) -> bool,
    pdf2svg: (String, String, String) -> bool,
    dvisvgm: (String, String, String) -> bool)

  /** The standalone file `generated/temp-tikz/<baseName>.tex`. */
  function TexFile(cwd: String, outputPath: String): String
  {
    TempDir(cwd) + "/" + BaseName(outputPath, ".svg") + ".tex"
  }

  /** The PDF pdflatex writes beside it. */
  function PdfFile(cwd: String, outputPath: String): String
  {
    TempDir(cwd) + "/" + BaseName(outputPath, ".svg") + ".pdf"
  }

  /**
   * `compileTikzToSvg`: write the standalone file, run pdflatex, then pdf2svg or, when that
   * fails, dvisvgm; a failing stage yields false.
   */
  function CompileTikzToSvg(tc: Toolchain, cwd: String, tikzCode: String, outputPath: String, packages: String): bool
  {
    var doc := StandaloneTikz(tikzCode, packages);
    tc.write(TexFile(cwd, outputPath), doc) && tc.pdflatex(TexFile(cwd, outputPath), doc) &&
    (tc.pdf2svg(PdfFile(cwd, outputPath), outputPath, doc) || tc.dvisvgm(PdfFile(cwd, outputPath), outputPath, doc))
  }

  /** Every stage of `better` succeeds where the same stage of `tc` does. */
  ghost predicate AtLeastAsCapable(tc: Toolchain, better: Toolchain)
  {
    (forall f, d :: tc.write(f, d) ==> better.write(f, d)) &&
    (forall f, d :: tc.pdflatex(f, d) ==> better.pdflatex(f, d)) &&
    (forall f, o, d :: tc.pdf2svg(f, o, d) ==> better.pdf2svg(f, o, d)) &&
    (forall f, o, d :: tc.dvisvgm(f, o, d) ==> better.dvisvgm(f, o, d))
  }

  /**
   * A failing converter is a fallback, never an abort: a toolchain whose every stage
   * succeeds where another's does compiles every figure the other compiles.
   */
  lemma CompileMonotone(tc: Toolchain, better: Toolchain, cwd: String, tikzCode: String, outputPath: String,
                        packages: String)
    requires AtLeastAsCapable(tc, better)
    ensures CompileTikzToSvg(tc, cwd, tikzCode, outputPath, packages) ==>
      CompileTikzToSvg(better, cwd, tikzCode, outputPath, packages)
  {
  }

  /**
   * dvisvgm is consulted only after pdf2svg fails: two toolchains that agree on writing,
   * pdflatex and pdf2svg, where pdf2svg converts this figure, give the same outcome whatever
   * dvisvgm does.
   */
  lemma CompileFallbackUnused(tc: Toolchain, other: Toolchain, cwd: String, tikzCode: String, outputPath: String,
                              packages: String)
    requires other.write == tc.write && other.pdflatex == tc.pdflatex && other.pdf2svg == tc.pdf2svg
    requires tc.pdf2svg(PdfFile(cwd, outputPath), outputPath, StandaloneTikz(tikzCode, packages))
    ensures CompileTikzToSvg(other, cwd, tikzCode, outputPath, packages) ==
      CompileTikzToSvg(tc, cwd, tikzCode, outputPath, packages)
  {
  }

  /**
   * Figures with different output names use different temporary files, so one figure's
   * standalone file and PDF are never another's.
   */
  lemma TempFilesPerFigure(cwd: String, out1: String, out2: String)
    requires BaseName(out1, ".svg") != BaseName(out2, ".svg")
    ensures TexFile(cwd, out1) != TexFile(cwd, out2) && PdfFile(cwd, out1) != PdfFile(cwd, out2)
  {
    var pre := TempDir(cwd) + "/";
    if TexFile(cwd, out1) == TexFile(cwd, out2) {
      JoinCancel(pre, BaseName(out1, ".svg"), BaseName(out2, ".svg"), ".tex");
    }
    if PdfFile(cwd, out1) == PdfFile(cwd, out2) {
      JoinCancel(pre, BaseName(out1, ".svg"), BaseName(out2, ".svg"), ".pdf");
    }
  }

  /** Equal texts with the same prefix and suffix have the same middle. */
  lemma JoinCancel(pre: String, a: String, b: String, ext: String)
    requires pre + a + ext == pre + b + ext
    ensures a == b
  {
    assert |a| == |b|;
    assert a == (pre + a + ext)[|pre|..|pre| + |a|];
    assert b == (pre + b + ext)[|pre|..|pre| + |b|];
  }


  // ---------------------------------------------------------------------------------------
  // Processing one post

  /** One entry of `processedFigures`. */
  datatype ProcessedFigure = ProcessedFigure(id: String, svgPath: String, relativePath: String)

  /**
   * The result object; its content key is `htmlContent` when there are no figures and
   * `modifiedContent` otherwise.
   */
  datatype TikzResult =
    | NoFigures(htmlContent: String)
    | WithFigures(figures: seq<ProcessedFigure>, modifiedContent: String)

  function Marker(id: String): String
  {
    "%%TIKZ_PLACEHOLDER_" + id + "%%"
  }

  /** Whether one extracted figure compiles (with no extra packages). */
  function Compiles(tc: Toolchain, cwd: String, slug: String): Figure -> bool
  {
    (f: Figure) => CompileTikzToSvg(tc, cwd, f.code, SvgPath(cwd, slug, f.id), "")
  }

  function RecordOf(cwd: String, slug: String): Figure -> ProcessedFigure
  {
    (f: Figure) => ProcessedFigure(f.id, SvgPath(cwd, slug, f.id), RelativePath(slug, f.id))
  }

  /** The text after each figure of `figs`, in order, had its code's first occurrence replaced by its marker. */
  function Substitute(s: String, figs: seq<Figure>): String
  {
    if figs == [] then s
    else
      var last := figs[|figs| - 1];
      ReplaceFirst(Substitute(s, figs[..|figs| - 1]), last.code, Marker(last.id))
  }

  /** What `processTikzForBlog` returns for a post. */
  function TikzFor(tc: Toolchain, cwd: String, slug: String, texContent: String): TikzResult
  {
    var figs := Figures(texContent, TikzPrefix);
    if figs == [] then NoFigures(texContent)
    else
      var compiled := Filter(figs, Compiles(tc, cwd, slug));
      WithFigures(Map(compiled, RecordOf(cwd, slug)), Substitute(texContent, compiled))
  }

  lemma SubstituteSnoc(s: String, figs: seq<Figure>, f: Figure)
    ensures Substitute(s, figs + [f]) == ReplaceFirst(Substitute(s, figs), f.code, Marker(f.id))
  {
    assert (figs + [f])[..|figs|] == figs;
  }

  /** One turn of the loop: figure `i` joins the records and is substituted exactly when it compiles. */
  lemma ProcessStep(tc: Toolchain, cwd: String, slug: String, texContent: String, figs: seq<Figure>, i: nat,
                    processed: seq<ProcessedFigure>, modified: String, success: bool,
                    processed1: seq<ProcessedFigure>, modified1: String)
    requires i < |figs|
    requires processed == Map(Filter(figs[..i], Compiles(tc, cwd, slug)), RecordOf(cwd, slug))
    requires modified == Substitute(texContent, Filter(figs[..i], Compiles(tc, cwd, slug)))
    requires success == CompileTikzToSvg(tc, cwd, figs[i].code, SvgPath(cwd, slug, figs[i].id), "")
    requires processed1 == if success then processed + [RecordOf(cwd, slug)(figs[i])] else processed
    requires modified1 == if success then ReplaceFirst(modified, figs[i].code, Marker(figs[i].id)) else modified
    ensures processed1 == Map(Filter(figs[..i + 1], Compiles(tc, cwd, slug)), RecordOf(cwd, slug))
    ensures modified1 == Substitute(texContent, Filter(figs[..i + 1], Compiles(tc, cwd, slug)))
  {
    var ok, fig := Compiles(tc, cwd, slug), figs[i];
    var before, after := Filter(figs[..i], ok), Filter(figs[..i + 1], ok);
    TakeSnoc(figs, i);
    FilterSnoc(figs[..i], fig, ok);
    assert ok(fig) == success;
    if success {
      assert after == before + [fig];
      MapSnoc(before, fig, RecordOf(cwd, slug));
      SubstituteSnoc(texContent, before, fig);
      assert Substitute(texContent, after) == ReplaceFirst(modified, fig.code, Marker(fig.id));
    } else {
      assert after == before;
    }
  }

  /** `processTikzForBlog`: extract, compile each figure in turn, substitute markers for those that compiled. */
  method ProcessTikzForBlog(slug: String, texContent: String, tc: Toolchain, cwd: String) returns (result: TikzResult)
    ensures result == TikzFor(tc, cwd, slug, texContent)
  {
    var tikzFigures := ExtractTikzFigures(texContent, TikzPrefix);
    if |tikzFigures| == 0 {
      return NoFigures(texContent);
    }
    ghost var ok := Compiles(tc, cwd, slug);
    ghost var rec := RecordOf(cwd, slug);
    var processedFigures: seq<ProcessedFigure> := [];
    var modifiedContent := texContent;
    for i := 0 to |tikzFigures|
      invariant processedFigures == Map(Filter(tikzFigures[..i], ok), rec)
      invariant modifiedContent == Substitute(texContent, Filter(tikzFigures[..i], ok))
    {
      var fig := tikzFigures[i];
      var svgPath := SvgPath(cwd, slug, fig.id);
      var success := CompileTikzToSvg(tc, cwd, fig.code, svgPath, "");
      ghost var processed0, modified0 := processedFigures, modifiedContent;
      if success {
        processedFigures := processedFigures + [ProcessedFigure(fig.id, svgPath, RelativePath(slug, fig.id))];
        modifiedContent := ReplaceFirst(modifiedContent, fig.code, Marker(fig.id));
      }
      ProcessStep(tc, cwd, slug, texContent, tikzFigures, i, processed0, modified0, success, processedFigures, modifiedContent);
    }
    assert tikzFigures[..|tikzFigures|] == tikzFigures;
    result := WithFigures(processedFigures, modifiedContent);
  }

  // ---------------------------------------------------------------------------------------
  // Properties

  /**
   * The result has no figures, and carries the input unchanged under `htmlContent`, exactly
   * when no begin tag is followed by an end tag.
   */
  lemma NoFiguresCase(tc: Toolchain, cwd: String, slug: String, texContent: String)
    ensures TikzFor(tc, cwd, slug, texContent).NoFigures? <==>
      forall j: nat, i: nat :: j + |BeginTag| <= i && OccursAt(texContent, BeginTag, j) ==> !OccursAt(texContent, EndTag, i)
    ensures TikzFor(tc, cwd, slug, texContent).NoFigures? ==>
      TikzFor(tc, cwd, slug, texContent).htmlContent == texContent
  {
    NoFiguresIff(texContent, TikzPrefix);
  }

  /**
   * The reported figures are the compiled ones, in source order: record `k` belongs to the
   * `k`-th figure that compiled, whose id is "tikz-fig-<n>" for its position `n` among all
   * figures, and whose paths are built from the slug and that id.
   */
  lemma ProcessedFiguresAreCompiled(tc: Toolchain, cwd: String, slug: String, texContent: String)
    requires TikzFor(tc, cwd, slug, texContent).WithFigures?
    ensures var figs := Figures(texContent, TikzPrefix);
      var compiled := Filter(figs, Compiles(tc, cwd, slug));
      var out := TikzFor(tc, cwd, slug, texContent).figures;
      |out| == |compiled| && IsSubsequence(compiled, figs) &&
      forall k :: 0 <= k < |out| ==>
        out[k].id == compiled[k].id &&
        out[k].relativePath == RelativePath(slug, compiled[k].id) &&
        out[k].svgPath == cwd + out[k].relativePath &&
        CompileTikzToSvg(tc, cwd, compiled[k].code, out[k].svgPath, "")
    ensures var figs := Figures(texContent, TikzPrefix);
      forall n :: 0 <= n < |figs| ==> figs[n].id == TikzPrefix + NatToString(n)
  {
    var figs := Figures(texContent, TikzPrefix);
    var compiled := Filter(figs, Compiles(tc, cwd, slug));
    FilterIsSubsequence(figs, Compiles(tc, cwd, slug));
    FigureIdsSequential(texContent, TikzPrefix);
    RecordsOfCompiled(tc, cwd, slug, compiled);
  }

  /** The records of compiled figures carry their ids and paths, and their SVG files were produced. */
  lemma RecordsOfCompiled(tc: Toolchain, cwd: String, slug: String, compiled: seq<Figure>)
    requires forall k :: 0 <= k < |compiled| ==> Compiles(tc, cwd, slug)(compiled[k])
    ensures var out := Map(compiled, RecordOf(cwd, slug));
      |out| == |compiled| &&
      forall k :: 0 <= k < |out| ==>
        out[k].id == compiled[k].id &&
        out[k].relativePath == RelativePath(slug, compiled[k].id) &&
        out[k].svgPath == cwd + out[k].relativePath &&
        CompileTikzToSvg(tc, cwd, compiled[k].code, out[k].svgPath, "")
  {
    var out := Map(compiled, RecordOf(cwd, slug));
    forall k | 0 <= k < |out|
      ensures out[k].svgPath == cwd + out[k].relativePath
      ensures CompileTikzToSvg(tc, cwd, compiled[k].code, out[k].svgPath, "")
    {
      SvgPathRelative(cwd, slug, compiled[k].id);
      assert Compiles(tc, cwd, slug)(compiled[k]);
    }
  }

  /** The absolute SVG path is the working directory followed by the relative path. */
  lemma SvgPathRelative(cwd: String, slug: String, id: String)
    ensures SvgPath(cwd, slug, id) == cwd + RelativePath(slug, id)
  {
  }

  /** When no figure compiles, the content comes back unchanged, under `modifiedContent`. */
  lemma NothingCompiled(tc: Toolchain, cwd: String, slug: String, texContent: String)
    requires Figures(texContent, TikzPrefix) != []
    requires forall f :: f in Figures(texContent, TikzPrefix) ==> !Compiles(tc, cwd, slug)(f)
    ensures TikzFor(tc, cwd, slug, texContent) == WithFigures([], texContent)
  {
    FilterNone(Figures(texContent, TikzPrefix), Compiles(tc, cwd, slug));
  }

  /** The first figure's code occurs nowhere before its own match. */
  lemma FirstCodeIndex(s: String, prefix: String)
    requires Figures(s, prefix) != []
    ensures IndexOf(s, Figures(s, prefix)[0].code) == Some(SpansFrom(s, 0)[0].start)
  {
    FigureCodesDelimited(s, prefix);
    SpansAreAllMatches(s, 0);
    var sp := SpansFrom(s, 0)[0];
    var code := Figures(s, prefix)[0].code;
    assert OccursAt(s, code, sp.start);
    forall j | 0 <= j < sp.start ensures !OccursAt(s, code, j) {
      if OccursAt(s, code, j) {
        OccursPrefix(s, code, BeginTag, j);
      }
    }
    IndexOfFromIs(s, code, 0, sp.start);
  }

  lemma SubstituteOne(s: String, f: Figure)
    ensures Substitute(s, [f]) == ReplaceFirst(s, f.code, Marker(f.id))
  {
    assert [f][..0] == [];
  }

  /** When the first figure compiles, its marker takes exactly the place of its match. */
  lemma FirstMarkerReplacesFirstFigure(tc: Toolchain, cwd: String, slug: String, texContent: String)
    requires Figures(texContent, TikzPrefix) != []
    requires Compiles(tc, cwd, slug)(Figures(texContent, TikzPrefix)[0])
    ensures var figs := Figures(texContent, TikzPrefix);
      var compiled := Filter(figs, Compiles(tc, cwd, slug));
      var sp := SpansFrom(texContent, 0)[0];
      compiled != [] && compiled[0] == figs[0] &&
      Substitute(texContent, compiled[..1]) == texContent[..sp.start] + Marker(figs[0].id) + texContent[sp.end..]
  {
    var figs := Figures(texContent, TikzPrefix);
    FilterKeepsFirst(figs, Compiles(tc, cwd, slug));
    FirstCodeIndex(texContent, TikzPrefix);
    FirstSpanEnd(texContent, TikzPrefix);
    var sp := SpansFrom(texContent, 0)[0];
    MarkerAt(texContent, figs[0], sp.start, sp.end);
  }

  /** The first match ends where the first figure's code ends. */
  lemma FirstSpanEnd(s: String, prefix: String)
    requires Figures(s, prefix) != []
    ensures |SpansFrom(s, 0)| > 0 &&
      SpansFrom(s, 0)[0].start + |Figures(s, prefix)[0].code| == SpansFrom(s, 0)[0].end <= |s|
  {
    FigureCodesDelimited(s, prefix);
    SpansAreLazyMatches(s, 0);
  }

  /** Replacing the first occurrence of a figure's code, found at `start`, by its marker. */
  lemma MarkerAt(s: String, f: Figure, start: nat, end: nat)
    requires IndexOf(s, f.code) == Some(start) && start + |f.code| == end
    ensures Substitute(s, [f]) == s[..start] + Marker(f.id) + s[end..]
  {
    SubstituteOne(s, f);
  }
}
