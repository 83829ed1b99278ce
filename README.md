# Poggio Lab website: a verified model of the content pipeline

The Poggio Lab website is a static Next.js site. Most of it is view code. Its logic is
the build-time pipeline that turns research posts into pages, plus the small string and
list helpers the listing pages use. This project models that logic in Dafny and proves
properties of the model:

- **LaTeX posts** (scripts/buildBlogs.mjs):
  - metadata read from the header commands, with per-field defaults;
  - TikZ figures extracted with sequential ids;
  - the excerpt, taken from the abstract or from the text between `\maketitle` and the
    first `\section`, then sanitised, cut to 200 characters and replaced by a placeholder
    when too short;
  - the compiled figures handed out to the empty `<figure>` slots of the pandoc output;
  - the records the generated TypeScript file exports.
- **The alternative TikZ processor** (scripts/processTikz.js): the standalone document, the
  compile stages, and the `%%TIKZ_PLACEHOLDER_<id>%%` marker put in place of each figure
  that compiled.
- **Markdown posts** (lib/blogs.ts): the title, `Date:` and `By` header lines, the
  blank-line skip that finds where the content starts, and the excerpt.
- **The offline converters**:
  - markdownify.py: `slugify`, block gathering, title choice, the slug fallback,
    Markdown rendering and the image file names;
  - scrape_publications.py: the old CBCL page with its running year, the CBMM entries
    (authors, venue, year, link), the dedupe by title, and the year sort.
- **The listing pages**:
  - the publications page: dedupe, sort, group by year, and the order of the years;
  - the blog list: its filter tabs and cards;
  - the `/blog` page: the merge and the date sort;
  - the blog section grid;
  - the people page anchors, layout and initials;
  - the team section.

Each source file has its own module. The modules are:

- tikz_figures, latex_metadata, slot_injection and build_blogs;
- tikz_processor;
- markdown_loader;
- markdownify;
- scraper;
- publications_page;
- link_helpers, posts, blog_list, blog_page and blog_section;
- people_data, people_page and team_section.

Three shared modules stand in for the standard library:

- wrappers: optional values.
- text: ASCII string operations.
- seqs: `filter`, `map`, `flatMap` and a stable insertion sort. This sort models
  Python's `sorted`, and `Array.prototype.sort` with a consistent comparator, where the
  language fixes the result. With an inconsistent comparator it is one order among those
  an engine may produce (see "## Left out").

Imperative code is modelled imperatively:

- The while loops that extract figures, skip blank lines, render blocks and scan pages
  are methods with loop invariants.
- The `reduce` that pushes into its accumulator is also such a method.
- Each method is proved equal to a specification function, and the properties are
  proved about that function.
- The filter state of the blog list is a class.

Some places where the model follows the code's behaviour rather than its documented
intent:

- The first empty `<figure>` slot receives the first figure that *compiled*. It does not
  receive the figure written first. See `SlotInjection.InjectIsSplice` and
  `BuildBlogs.FirstSlotTakesFirstCompiled`.
- On the old CBCL page, an element whose first anchor has empty text makes
  `split(title, 1)` raise. The whole old-page parse then fails, and the model returns
  `None`.
- The final excerpt is the placeholder in two cases: when the cleaned text is shorter
  than 20 characters, and when the cleaned text is literally the placeholder.
- In markdownify.py, a Title block whose content is empty leaves the title as the empty
  string. The slug still falls back to the file name.

## Model

| member | source | states |
|---|---|---|
| TikzFigures.ExtractTikzFigures | scripts/buildBlogs.mjs:41-55 | the `exec` loop with `figureId++` returns exactly `Figures(s, prefix)`, the figure list whose properties the lemmas below state (the same loop is scripts/processTikz.js:15-29 with the prefix "tikz-fig-") |
| TikzFigures.FiguresFromSpans | scripts/buildBlogs.mjs:47-52 | one figure per match, in order: the k-th figure is numbered `id + k` and holds the text of the k-th match |
| TikzFigures.SpansAreLazyMatches | scripts/buildBlogs.mjs:43 | every match is a begin tag, then text with no end tag, then the first end tag (the lazy `[\s\S]*?`) |
| TikzFigures.SpansOrdered | scripts/buildBlogs.mjs:47 | the matches come in source order and do not overlap (`lastIndex` resumes after each match) |
| TikzFigures.SpansAreAllMatches | scripts/buildBlogs.mjs:43-47 | no begin tag is passed over before or between matches, and after the last match no begin tag is followed by an end tag |
| TikzFigures.FigureIdsSequential | scripts/buildBlogs.mjs:45-49 | ids are prefix + "0", "1", ... with no gaps, and pairwise distinct |
| TikzFigures.NumberedIdsDistinct | scripts/processTikz.js:23 | numbering `prefix + k` never gives two positions the same id |
| TikzFigures.FigureCodesDelimited | scripts/buildBlogs.mjs:48-51 | each code is the text of its match: it starts with `\begin{tikzpicture}`, ends with `\end{tikzpicture}` and holds no earlier end tag |
| TikzFigures.LazyMatchText | scripts/processTikz.js:17 | the text of a lazy match begins with the begin tag and ends at its first end tag |
| TikzFigures.NoFiguresIff | scripts/buildBlogs.mjs:41-55 | the list is empty exactly when no begin tag is ever followed by an end tag |
| TikzProcessor.StandaloneTikz | scripts/processTikz.js:34-44 | the document starts with the fixed `\documentclass[tikz,border=2pt]{standalone}` preamble followed by the packages, ends with `\end{document}`, and has the length of its five parts |
| TikzProcessor.StandaloneTikzRecovers | scripts/processTikz.js:39-43 | the packages sit right after the preamble and the figure code right after `\begin{document}` and a newline |
| TikzProcessor.StandaloneTikzInjective | scripts/processTikz.js:34-44 | two figures with the same document have the same code |
| TikzProcessor.SvgPathBaseName | scripts/processTikz.js:53 | `path.basename(svgPath, '.svg')` of a figure's SVG path is the figure id, so the scratch `.tex`/`.pdf` files are named after the figure |
| TikzProcessor.CompileMonotone | scripts/processTikz.js:57-78 | a failing converter falls back instead of aborting, so a toolchain that succeeds at every stage where another does compiles every figure the other compiles |
| TikzProcessor.CompileFallbackUnused | scripts/processTikz.js:67-72 | dvisvgm is consulted only after pdf2svg fails: when pdf2svg converts the figure, toolchains that differ only in dvisvgm give the same outcome |
| TikzProcessor.TempFilesPerFigure | scripts/processTikz.js:53-55 | figures with different output base names get different temporary `.tex` and `.pdf` files |
| TikzProcessor.ProcessStep | scripts/processTikz.js:99-114 | one loop turn: a figure joins the records and has its code replaced by its marker exactly when it compiles |
| TikzProcessor.ProcessTikzForBlog | scripts/processTikz.js:84-117 | the method returns exactly `TikzFor`: `NoFigures(texContent)` without figures, otherwise the records of the compiled figures and the text with their markers substituted in order |
| TikzProcessor.NoFiguresCase | scripts/processTikz.js:85-89 | the result is the `htmlContent` case, with the input unchanged, exactly when the text has no figure |
| TikzProcessor.ProcessedFiguresAreCompiled | scripts/processTikz.js:99-110 | the records are the compiled figures in source order, record k carries the k-th compiled figure's id, `relativePath` is `/generated/blogs/tikz/<slug>/<id>.svg`, `svgPath` is the working directory plus that path, and that figure compiled; ids are "tikz-fig-<n>" |
| TikzProcessor.RecordsOfCompiled | scripts/processTikz.js:103-108 | each record carries its figure's id and both paths, and its SVG was produced |
| TikzProcessor.SvgPathRelative | scripts/processTikz.js:100-107 | the absolute SVG path is the working directory followed by the relative path |
| TikzProcessor.NothingCompiled | scripts/processTikz.js:96-116 | when figures exist but none compiles, the figure list is empty and the content comes back unchanged under `modifiedContent` |
| TikzProcessor.FirstCodeIndex | scripts/processTikz.js:112 | the first figure's code first occurs exactly where its match starts |
| TikzProcessor.FirstMarkerReplacesFirstFigure | scripts/processTikz.js:110-112 | when the first figure compiles, its marker takes exactly the place of its match, and the rest of the text is kept |
| SlotInjection.SlotAtIff | scripts/buildBlogs.mjs:190 | the scanner finds a slot at a position exactly when the text there is `<figure`, attributes without `>`, `>`, a whitespace gap with at least two newlines, then `<figcaption>` (both directions) |
| SlotInjection.SlotAtSound | scripts/buildBlogs.mjs:190 | a slot the scanner returns matches the pattern |
| SlotInjection.SlotAtComplete | scripts/buildBlogs.mjs:190 | every match of the pattern is found by the scanner |
| SlotInjection.NextSlotLeftmost | scripts/buildBlogs.mjs:190 | the next slot is the leftmost match at or after the position, and none means no match remains |
| SlotInjection.EmbedSvgs | scripts/buildBlogs.mjs:187-198 | the replace with its counter returns `InjectFrom(html, slug, ids, 0, 0)`, and `figureCount` ends as the smaller of the figure count and the slot count |
| SlotInjection.InjectIsSplice | scripts/buildBlogs.mjs:190-198 | positional pairing: the k-th slot's gap receives the image of the k-th figure for every k below both counts, and every other character is kept |
| SlotInjection.SlotsChained | scripts/buildBlogs.mjs:190 | the slots of the global replace lie left to right without overlapping |
| SlotInjection.InjectNothing | scripts/buildBlogs.mjs:191-197 | with no figure left to hand out, each match is returned unchanged, so the text is unchanged |
| BuildBlogs.SelectProcessedFigures | scripts/buildBlogs.mjs:137-144 | the loop keeps exactly the figures whose compilation succeeded, in order |
| BuildBlogs.ProcessedFiguresSubsequence | scripts/buildBlogs.mjs:137-144 | the kept figures are an order-preserving subsequence, every figure that compiles is kept whatever happened before it, and only compiled figures are kept |
| BuildBlogs.FirstSlotTakesFirstCompiled | scripts/buildBlogs.mjs:191-194 | when `fig-0` fails and `fig-1` compiles, the first slot receives the image of `fig-1` |
| BuildBlogs.PageWithoutFigures | scripts/buildBlogs.mjs:185-202 | without a compiled figure the page is pandoc's HTML unchanged; in every case the page is the splice of the image blocks into the slots |
| BuildBlogs.WritePage | scripts/buildBlogs.mjs:185-202 | the page written is `PageFor`: images are embedded only when some figure compiled |
| BuildBlogs.ConvertEntry | scripts/buildBlogs.mjs:97-208 | one loop turn: a record exactly for a directory with a readable `main.tex`, and a page only when pandoc also succeeds |
| BuildBlogs.BuildBlogs | scripts/buildBlogs.mjs:18-231 | nothing is produced when the blog directory is missing; otherwise the records and pages of the entries in directory order and the exported list |
| BuildBlogs.MetadataOneRecordPerPost | scripts/buildBlogs.mjs:113-178 | the records are exactly one per converted entry, in directory order; pandoc does not appear, so a failed pandoc run still leaves the record |
| BuildBlogs.EmittedRecords | scripts/buildBlogs.mjs:221-225 | every exported record keeps slug, title, author, date and excerpt, has empty content, category "Blog" and no link |
| LatexMetadata.ArgAtIff | scripts/buildBlogs.mjs:29-31 | the header regex matches at a position with capture `v` exactly when `open + v + "}"` occurs there with `v` non-empty and free of `}` (both directions) |
| LatexMetadata.ArgOccurrence | scripts/buildBlogs.mjs:29 | an occurrence of `\title{v}` with `v` non-empty and free of `}` is a match capturing `v` |
| LatexMetadata.FirstArgIndexLeftmost | scripts/buildBlogs.mjs:29-31 | the match used is the leftmost one, and when none is found there is no match anywhere |
| LatexMetadata.CommandArg | scripts/buildBlogs.mjs:29-31 | a capture is never empty and never holds `}` |
| LatexMetadata.ExtractLatexMetadata | scripts/buildBlogs.mjs:28-38 | title and author are never empty, and the date is not empty when the build date is not |
| LatexMetadata.FieldIsLeftmostCapture | scripts/buildBlogs.mjs:33-36 | a field is the capture of the leftmost `open…}` with a non-empty `}`-free argument; when no such text occurs anywhere, it is the default ("Untitled", "Unknown" or the build date) |
| LatexMetadata.MetadataFieldsIndependent | scripts/buildBlogs.mjs:28-38 | title and author do not depend on the build date, the build date is used exactly when there is no `\date{…}`, and a present date ignores it |
| LatexMetadata.MarkedTextBetween | scripts/buildBlogs.mjs:152-154 | removing the first `\maketitle` and then the first `\section` from the lazy match leaves exactly the text between them, trimmed |
| LatexMetadata.MaketitleTextBetween | scripts/buildBlogs.mjs:152-155 | the second tier is the trimmed text between the first `\maketitle` and the first `\section` after it |
| LatexMetadata.ReplaceLeading | scripts/buildBlogs.mjs:154 | `replace(/\\maketitle/, '')` on the match drops its leading marker |
| LatexMetadata.ReplaceTrailing | scripts/buildBlogs.mjs:154 | `replace(/\\section/, '')` drops the marker that ends the match, since it is its first occurrence |
| LatexMetadata.ExcerptSourceCases | scripts/buildBlogs.mjs:148-156 | the excerpt source is the trimmed body of the first abstract when that is not empty; otherwise the `\maketitle` text when there is a match; otherwise "" |
| LatexMetadata.RemoveTags | scripts/buildBlogs.mjs:160-161 | deleting every `\begin{…}` / `\end{…}` never lengthens the text and adds no character |
| LatexMetadata.CommandEnd | scripts/buildBlogs.mjs:162 | a command match starts exactly at a backslash followed by a letter, and spans at least those two characters |
| LatexMetadata.ReplaceCommands | scripts/buildBlogs.mjs:162 | after replacing every command by a space no command is left, the text is no longer, and every character is a space or comes from the input |
| LatexMetadata.CleanSanitises | scripts/buildBlogs.mjs:159-166 | the cleaned excerpt has no `{`, `}` or newline, no two whitespace characters in a row, at most 200 characters, and no leading whitespace |
| LatexMetadata.FinishSanitises | scripts/buildBlogs.mjs:164-166 | collapsing, trimming and cutting a brace-free text sanitises it and bounds it by 200 |
| LatexMetadata.CollapseSanitises | scripts/buildBlogs.mjs:164 | collapsing the whitespace runs of a brace-free text leaves only single spaces |
| LatexMetadata.TrimCutSanitises | scripts/buildBlogs.mjs:165-166 | trimming and `substring(0, 200)` keep a text sanitised |
| LatexMetadata.ExcerptBounds | scripts/buildBlogs.mjs:168-170 | the stored excerpt has 20 to 200 characters; it is "Click to read more..." exactly when the cleaned text is shorter than 20 characters or is that text itself; otherwise it is the cleaned text |
| MarkdownLoader.DropHash | lib/blogs.ts:36 | `replace(/^#\s*/, '')`: a leading `#` goes together with the whitespace after it; a line not starting with `#` is unchanged |
| MarkdownLoader.Title | lib/blogs.ts:36 | the title is never empty: it is line 0 without its `#`, trimmed, when that is not empty, and "Untitled" otherwise |
| MarkdownLoader.KeyedValue | lib/blogs.ts:39-49 | a capture of `^Date:\s*(.+)$` / `^By\s+(.+)$` is non-empty, holds no line terminator, ends the line, and the line starts with the key |
| MarkdownLoader.KeyedValueTrimmed | lib/blogs.ts:39-50 | on a trimmed line the capture is the whole text after the key and its whitespace, provided that text is not empty, the required whitespace is there, and it has no line terminator |
| MarkdownLoader.HeaderFieldsIndependent | lib/blogs.ts:36-50 | each header field depends on its own line only; the build date is used exactly when line 1 does not match, and a matching date ignores it |
| MarkdownLoader.ContentStartSkipsBlank | lib/blogs.ts:54-57 | every line the loop passes over is blank, and the line it stops at, if any, is not |
| MarkdownLoader.FindContentStart | lib/blogs.ts:54-57 | the `while` loop starts at 3, skips any number of blank lines, and stops at the first non-blank line or at the end |
| MarkdownLoader.JoinDrop | lib/blogs.ts:59 | dropping the first `i` lines of a join drops the text up to the start of line `i` |
| MarkdownLoader.ContentIsSuffix | lib/blogs.ts:33-59 | the content is the file from the start of the first non-blank line after the header to its end, or empty when there is no such line |
| MarkdownLoader.MarkdownExcerptShape | lib/blogs.ts:62 | the excerpt always ends with "...", has at most 203 characters, and holds no `#` or `*` before the dots |
| MarkdownLoader.PostDataShape | lib/blogs.ts:18-72 | the result is null exactly when `blog.md` is missing; a record echoes the slug, has category "Blog", no link, a non-empty title and the content unchanged |
| Markdownify.KeepSlugChars | markdownify.py:24 | `re.sub(r'[^a-z0-9\s-]', '', text)` keeps only lower-case letters, digits, whitespace and hyphens, never lengthens the text, and leaves such a text unchanged |
| Markdownify.CollapseSeps | markdownify.py:25 | `re.sub(r'[\s-]+', '-', text)` never lengthens the text, empties only the empty text, and starts with a hyphen exactly when the text starts with a separator |
| Markdownify.CollapseSepsSlug | markdownify.py:24-25 | collapsing a text of kept characters leaves only `[a-z0-9-]`, with no "--" |
| Markdownify.StripDashesSlug | markdownify.py:26 | `strip('-')` of such a text is a slug: it keeps the character set and "no --", and has no hyphen at either end |
| Markdownify.SlugifyIsSlug | markdownify.py:19-26 | every `slugify` result uses only `[a-z0-9-]`, has no "--" and no leading or trailing hyphen |
| Markdownify.SlugifySlug | markdownify.py:19-26 | a slug is its own slug |
| Markdownify.SlugifyIdempotent | markdownify.py:19-26 | applying `slugify` twice is applying it once |
| Markdownify.ExtIsSuffix | markdownify.py:38 | a non-empty `os.path.splitext` extension starts with its dot and ends the path |
| Markdownify.ImageFilenameRule | markdownify.py:35-40 | the name is "image_<n>" then ".png", or the extension of the part before the first '?' when the URL has a '?' and that part has an extension; that part has no '?' and starts the URL |
| Markdownify.NameExtDot | markdownify.py:35-40 | the extension part of the name is never empty and starts with a dot |
| Markdownify.SplitFirstPiece | markdownify.py:37 | `url.split('?')[0]` has no '?' and is a prefix of the URL |
| Markdownify.ImageFilenamesDistinct | markdownify.py:35-40 | two images with different numbers never get the same file name |
| Markdownify.NameDigits | markdownify.py:35-40 | after "image_" come exactly the digits of the number, then the extension's dot |
| Markdownify.AltText | markdownify.py:138 | the alt text is the content with newlines turned into spaces, cut to 100 characters, or "Image <n>" for empty content |
| Markdownify.GatherBlocks | markdownify.py:74-79 | the `extend` loop returns `AllBlocks(chunks)` |
| Markdownify.AllBlocksConcat | markdownify.py:76-79 | the gathered blocks are the chunks' block lists concatenated in order (chunks without `blocks` add nothing), so their count is the sum of the chunk sizes |
| Markdownify.FindTitle | markdownify.py:86-110 | the two title loops with their `break`s return `ChooseTitle(blocks)` |
| Markdownify.TitleScanSpec | markdownify.py:91-96 | the first loop stops at the first Title block with non-blank content; without one, the title is "" when an empty Title block was passed and otherwise unchanged |
| Markdownify.FallbackScanSpec | markdownify.py:99-110 | the second loop takes the first Section Header or Text block with content and a first line under 100 characters, and otherwise keeps the title |
| Markdownify.ChooseTitleCases | markdownify.py:86-110 | the title is the stripped content of the first non-empty Title block; else the de-hashed first line of the first short Section Header or Text block; else "" when some empty Title block exists, and "Untitled Blog" otherwise |
| Markdownify.SlugForCases | markdownify.py:113-115 | the slug is never empty: it is `slugify(title)` (a slug) unless that is empty or "untitled-blog", in which case it is "blog-<file stem>" |
| Markdownify.RenderBlocks | markdownify.py:122-162 | the rendering loop ends in the state `Render(blocks)`: its lines and its image counter |
| Markdownify.RenderStepLine | markdownify.py:133-162 | a Title block adds "# c\n", a Section Header "## c\n", any other kind but Footer and Page Number "c\n", and a downloaded image its reference line while the counter advances |
| Markdownify.RenderStepSilent | markdownify.py:130-158 | a block without content and image, a failed download, and a Footer or Page Number block each leave lines and counter unchanged |
| Markdownify.RenderStepGrowth | markdownify.py:133-146 | one block adds at most one line and counts one image exactly when its download succeeds |
| Markdownify.ImagesNumbered | markdownify.py:123-146 | the counter equals the number of images written and image k is named "image_<k>."; numbers advance only on success, so there are no gaps; there are never more lines than blocks |
| Markdownify.LinesEndWithNewline | markdownify.py:139-162 | every rendered line ends with a newline |
| Markdownify.ProcessFile | markdownify.py:57-168 | `process_file` returns `ProcessResult`: the slug and the lines joined with "\n", or nothing |
| Markdownify.NothingWrittenIff | markdownify.py:61-83 | nothing is written exactly when the file is missing, unreadable or has no blocks; a written post always has a non-empty slug |
| Scraper.HeaderYearDigits | scrape_publications.py:29-30 | a text matching `^\d{4}:?$` sets the current year to its four digits, the colon dropped |
| Scraper.DropNumbering | scrape_publications.py:53 | removing the leading numbering leaves a suffix of the text |
| Scraper.DropNumberingRemoves | scrape_publications.py:53 | what `re.sub(r'^\d+\.?\s*', '', …)` removes is a non-empty run of digits, dots and spaces, and the rest does not start with whitespace; text not starting with a digit is left alone |
| Scraper.OldAuthorsVenueEnds | scrape_publications.py:45-58 | the authors never start or end with whitespace, the venue never starts or ends with a space, dot or comma, and when the title does not occur the authors are "Unknown" and the venue is the whole text stripped |
| Scraper.OldAuthorsVenuePieces | scrape_publications.py:45-48 | when the title occurs, the authors are a piece of the text before its first occurrence and the venue a piece of the text after it |
| Scraper.OldStep | scrape_publications.py:26-62 | one element: a year header sets the year and emits nothing; an element before the first year or without links emits nothing; otherwise exactly one record, from the first anchor, with the current year; an empty first-anchor text raises |
| Scraper.ParseOldCbcl | scrape_publications.py:7-64 | the loop carrying `current_year` returns `OldCbcl(content)`: no records when the file or its content element is missing, none at all once an element raises |
| Scraper.OldRunStep | scrape_publications.py:26 | the loop after one more element is one more step |
| Scraper.OldRunRecords | scrape_publications.py:19-62 | at most one record per element; every record has a four-digit year from a header, a non-empty trimmed title and a venue without stray separators at its ends |
| Scraper.OldEntryRecord | scrape_publications.py:40-61 | a record built from an element after a year header has the record shape |
| Scraper.OldRunBeforeHeader | scrape_publications.py:33-34 | elements before the first year header produce nothing and cannot raise |
| Scraper.OldRunAbortSticky | scrape_publications.py:46 | once an element has raised, nothing from the old page survives |
| Scraper.SchemeEnd | scrape_publications.py:120-125 | `https?://` matches only at "http", spans at least seven characters and holds no `>` |
| Scraper.ArxivAt | scrape_publications.py:120 | an arXiv capture starts with "http" |
| Scraper.BracketAt | scrape_publications.py:125 | a bracketed capture starts with "http" and holds no `>` |
| Scraper.ParenYearAt | scrape_publications.py:170 | `\((\d{4})\)` captures four digits |
| Scraper.WordYearAt | scrape_publications.py:174 | the word-bounded year pattern matches four digits starting with 19 or 20 |
| Scraper.CbmmYearShape | scrape_publications.py:159-176 | a non-blank separator bar gives the year as written; otherwise the year is four digits from the text, or empty |
| Scraper.RemoveUrlRefsKeeps | scrape_publications.py:195 | removing the `at < url >` / `arXiv:` references keeps a subsequence of the text |
| Scraper.RemoveUrlRefsNone | scrape_publications.py:195 | text without a reference is left as it is |
| Scraper.CbmmVenue | scrape_publications.py:183-198 | the venue is "CBMM Publication", or a residue longer than two characters that neither starts nor ends with a space, dot, comma or `<` |
| Scraper.CbmmAuthorsClean | scrape_publications.py:130-134 | authors read from the entry have no whitespace at either end and no whitespace but single spaces |
| Scraper.AbsoluteLink | scrape_publications.py:106-107 | a non-empty link becomes one starting with "http", an "http" link is kept, and the empty link stays empty |
| Scraper.CbmmLinkShape | scrape_publications.py:94-127 | a PDF link (suffix ".pdf" in any case) is kept; otherwise an arXiv reference wins, then a bracketed URL; the link is empty or starts with "http", and is empty exactly when there is no link and no URL reference |
| Scraper.ChooseLink | scrape_publications.py:94-127 | the link reassigned step by step is `CbmmLink(e)` |
| Scraper.ParseCbmmEntry | scrape_publications.py:89-207 | the loop body returns the entry's record `CbmmRecord(e)` |
| Scraper.ParseCbmmPage | scrape_publications.py:66-213 | a missing or unreadable page gives no records, otherwise one record per entry in order |
| Scraper.CbmmRecordShape | scrape_publications.py:89-206 | every CBMM record has a link that is empty or absolute, a venue that is the default or longer than two characters, and "Unknown Title" without a title element |
| Scraper.TitleIndex | scrape_publications.py:231 | the first position of a title, or the length when it does not occur |
| Scraper.LastTitleIndex | scrape_publications.py:231 | the last position of a title, or none when it does not occur |
| Scraper.DedupeSpec | scrape_publications.py:231 | the dictionary keeps distinct titles, every title of the input, for each the last record with it, in the order in which the titles first occur |
| Scraper.PutSpec | scrape_publications.py:231 | one dictionary assignment keeps that invariant |
| Scraper.YearKeyOfDigits | scrape_publications.py:234-240 | a four-digit year sorts by its value |
| Scraper.YearKeyWithoutDigits | scrape_publications.py:238-240 | a year without four digits in a row sorts as 0 |
| Scraper.ParseCbmmPages | scrape_publications.py:224-227 | the eight pages are read in order, a missing page contributing nothing |
| Scraper.Scrape | scrape_publications.py:215-242 | `main` up to the dump returns `Publications(oldPage, pages)` |
| Scraper.PublicationsOrder | scrape_publications.py:231-242 | nothing is written exactly when the old page raises; otherwise the list is a permutation of the deduplicated records, sorted by year key descending, and records with equal key keep their deduplicated order (stability) |
| PublicationsPage.FirstOccurrencesUnfold | app/publications/page.tsx:16-19 | the filter keeps position `i` exactly when `findIndex` of its title is `i` |
| PublicationsPage.FirstOccurrencesAreFirst | app/publications/page.tsx:16-19 | every kept record is the first record of the input with its title |
| PublicationsPage.FirstOccurrencesOrdered | app/publications/page.tsx:16-19 | the kept records stand in the order of their first occurrences |
| PublicationsPage.FirstOccurrencesSubsequence | app/publications/page.tsx:16 | the kept records are a subsequence of the input |
| PublicationsPage.FirstOccurrencesKeep | app/publications/page.tsx:16-19 | every title whose first occurrence lies in the scanned part is kept |
| PublicationsPage.UniqueByTitleSpec | app/publications/page.tsx:16-20 | the dedupe keeps exactly one record per title: titles distinct, every input title kept, each the first record with its title, in first-occurrence order, as a subsequence of the input |
| PublicationsPage.PubOrderCases | app/publications/page.tsx:20-26 | different year strings order by descending `parseInt` of the year ("0" when it is empty) and compare equal when either is NaN or both parse alike; equal year strings defer to the title order |
| PublicationsPage.PubOrderAntisymmetric | app/publications/page.tsx:20-26 | with an antisymmetric `localeCompare`, swapping the arguments negates the comparison |
| PublicationsPage.PubOrderConsistent | app/publications/page.tsx:20-26 | that comparator is consistent on any list |
| PublicationsPage.PublicationsSpec | app/publications/page.tsx:16-26 | the sorted list is a permutation of the deduplicated records, and every pair of neighbours is in order: differing numeric years descending, equal year strings by title |
| PublicationsPage.PublicationsDistinct | app/publications/page.tsx:16-26 | the sorted list keeps the titles distinct |
| PublicationsPage.GroupKey | app/publications/page.tsx:32 | the group key is never empty, and it is the year when that is not empty |
| PublicationsPage.GroupsSnoc | app/publications/page.tsx:33-36 | one more record joins the end of its group, which is created empty first if needed |
| PublicationsPage.KeyOrderSpec | app/publications/page.tsx:33-35 | the key creation order lists every group key exactly once |
| PublicationsPage.GroupByYear | app/publications/page.tsx:31-38 | the `reduce` with its in-place `push` returns the grouping `Groups(pubs)` and the key creation order |
| PublicationsPage.GroupStepAt | app/publications/page.tsx:33-37 | one iteration of the `reduce`, on the prefixes the loop invariant names |
| PublicationsPage.GroupStep | app/publications/page.tsx:33-37 | creating the missing group and then pushing gives the grouping of the longer list |
| PublicationsPage.GroupsPartition | app/publications/page.tsx:31-38 | each record lands in exactly one group, its year or "Unknown", and each group is a subsequence of the sorted list |
| PublicationsPage.GroupSizesCount | app/publications/page.tsx:31-38 | the sizes of distinct groups add up to the number of records with those keys |
| PublicationsPage.GroupSizesTotal | app/publications/page.tsx:31-38 | over all keys once each, the group sizes add up to the number of records |
| PublicationsPage.ObjectKeysPermutes | app/publications/page.tsx:40 | `Object.keys` lists the created keys, each as often as created |
| PublicationsPage.YearOrderAntisymmetric | app/publications/page.tsx:40-44 | swapping two different keys negates the `sortedYears` comparison |
| PublicationsPage.YearOrderConsistent | app/publications/page.tsx:40-44 | the comparator is consistent on distinct keys |
| PublicationsPage.SortedYearsKeys | app/publications/page.tsx:40-44 | `sortedYears` lists every group key exactly once |
| PublicationsPage.YearOrderNeighbours | app/publications/page.tsx:41-43 | when the comparator puts one key before another or ties them, the first is not "Unknown" and, if both parse, its year is not the smaller |
| PublicationsPage.UnknownIsNaN | app/publications/page.tsx:43 | `parseInt("Unknown")` is NaN |
| PublicationsPage.SortedYearsOrder | app/publications/page.tsx:40-44 | "Unknown", when present, comes last, and neighbouring numeric years are descending |
| PublicationsPage.AdjacentYears | app/publications/page.tsx:40-44 | a list sorted by the comparator has no "Unknown" before its end and descending numeric neighbours |
| PublicationsPage.SortedYearsAdjacent | app/publications/page.tsx:40-44 | the sort leaves every pair of neighbours in comparator order |
| PublicationsPage.PageShowsEveryRecord | app/publications/page.tsx:54-60 | the groups named by `sortedYears` together hold every deduplicated record exactly once |
| LinkHelpers.MatchFrom | components/blog-list.tsx:20 | a position found at or after the start is a match of the pattern: the literal prefix followed by at least one character other than the stop character |
| LinkHelpers.MatchFromLeftmost | components/blog-list.tsx:20 | `String.match` finds the leftmost match: no match is skipped before the one returned, and no result means no match anywhere |
| LinkHelpers.VideoId | components/blog-list.tsx:12-24 | the id is the capture of the watch pattern when it matches, else of the short pattern, else of the embed pattern; it is never empty, and it is missing exactly when none of the three matches |
| LinkHelpers.VideoIdIsFirstCapture | components/blog-section.tsx:8-20 | the id is the capture of the first pattern in the array that matches, and null when none matches |
| LinkHelpers.GetYouTubeVideoId | app/blog/page.tsx:11-23 | the loop over the patterns returns the id of the first-match rule; the copies in the three files have the same text and share this one model |
| LinkHelpers.ThumbnailIff | components/blog-list.tsx:27-31 | the thumbnail is null exactly when there is no video id, and otherwise is the img.youtube.com URL of that id |
| LinkHelpers.WatchUrlRoundTrip | components/blog-list.tsx:14 | the id extracted from a host (without `?`) followed by `youtube.com/watch?v=` and an id is that id |
| LinkHelpers.ShortUrlRoundTrip | components/blog-list.tsx:15 | the id extracted from a host (without `?` or `.`) followed by `youtu.be/` and an id is that id |
| LinkHelpers.EmbedUrlRoundTrip | components/blog-list.tsx:16 | the id extracted from a host (without `?` or `y`) followed by `youtube.com/embed/` and an id is that id |
| LinkHelpers.ShortAbsentFromEmbed | components/blog-list.tsx:15-16 | the short-link pattern never matches an embed URL, so it cannot take precedence over the embed pattern |
| LinkHelpers.CanonicalUrls | app/blog/page.tsx:12-16 | the three canonical YouTube URL forms all give back the id they were written with |
| LinkHelpers.GetLinkType | components/blog-list.tsx:34-39 | `none` exactly for an absent or empty link, `youtube` exactly when it contains either YouTube host, `pdf` exactly for a non-YouTube link ending in `.pdf` |
| LinkHelpers.PdfSuffixIgnoresCase | components/blog-section.tsx:36-38 | every link that the case-sensitive suffix test calls a PDF is also a PDF for the lower-casing test |
| LinkHelpers.PdfSuffixCaseDiffers | components/blog-section.tsx:36-38 | the converse fails: a link ending in `.PDF` is a PDF for the section grid and of type `other` for the listings |
| LinkHelpers.ExternalPreviewCases | components/blog-list.tsx:104-115 | the preview is the video thumbnail exactly for a YouTube link with an id, the PDF icon exactly for a non-YouTube `.pdf` link, the YouTube icon exactly for a YouTube link without an id |
| BlogList.InitialFilterSpec | components/blog-list.tsx:54-62 | an absent or empty query parameter leaves the filter unchanged, `Blog` and `Updates` are adopted, anything else resets it to `All`; the result stays one of the tabs and applying it twice equals applying it once |
| BlogList.FilterState.constructor | components/blog-list.tsx:52 | the filter starts as `All` |
| BlogList.FilterState.ApplyInitial | components/blog-list.tsx:54-62 | the effect sets the filter to what the query parameter selects and keeps it one of the three tabs |
| BlogList.FilterState.Click | components/blog-list.tsx:74-77 | a tab button sets the filter to its own label |
| BlogList.FilteredPostsSpec | components/blog-list.tsx:64-69 | the filtered list is an order-preserving subsequence of the posts holding exactly the posts the tab's rule accepts; any tab other than `Blog` and `Updates` keeps every post |
| BlogList.BlogAndUpdatesDisjoint | components/blog-list.tsx:66-67 | no post is accepted by both the `Blog` and the `Updates` rule |
| BlogList.BlogAndUpdatesAtMostAll | components/blog-list.tsx:64-69 | the `Blog` and `Updates` lists together are no longer than the full list |
| BlogList.ListCard | components/blog-list.tsx:93-98 | a post renders as an external anchor exactly when it is flagged external or has a non-empty link, with that link and the preview of its type; otherwise as an internal link under `/blogsupdates/` |
| BlogList.InternalPathNamesSlug | components/blog-list.tsx:151 | an internal card's path is `/blogsupdates/` followed by the post's own slug, and only unflagged posts without a link get one |
| BlogList.ListView | components/blog-list.tsx:92 | the listing renders one card per filtered post, in the filtered order |
| BlogSection.ThumbnailUrlSpec | components/blog-section.tsx:81-92 | a card has a thumbnail exactly when its link is a YouTube link with a video id, and then it shows that video; a PDF link never gets one |
| BlogSection.CardOf | components/blog-section.tsx:94-100 | the card opens in a new tab exactly when the post has a link, points at that link or else at `/blogsupdates/` and the slug, and is hidden on narrow screens exactly at index 2 |
| BlogSection.CardVisual | components/blog-section.tsx:104-127 | the picture is the video thumbnail exactly for a YouTube link with an id, the PDF icon exactly for another link ending in `.pdf` in any case, and the blog icon exactly for a post without a link |
| BlogSection.Cards | components/blog-section.tsx:80-100 | one card per post, the card of position i built with index i; exactly the third card is hidden on narrow screens, and a card opens a new tab exactly when its post has a link |
| BlogPage.LoadedSpec | app/blog/page.tsx:50-51 | the posts kept are exactly the non-null results of `getPostData`, in order, as many as there are |
| BlogPage.AllPostsContents | app/blog/page.tsx:48-66 | the page lists every loaded markdown post and every static `Interesting Bit` post exactly once and nothing else; markdown posts lose their link and are internal, static posts are external |
| BlogPage.PartMembership | app/blog/page.tsx:50-63 | an entry of the merged list is either a link-free internal markdown post or an external static post of category `Interesting Bit` |
| BlogPage.DateOrderConsistent | app/blog/page.tsx:64-66 | the date comparator is antisymmetric on every list, an invalid date tying with everything |
| Wrappers.NumberDescending | app/blog/page.tsx:65 | the difference of two time stamps is negative exactly when the first is later and zero exactly when they are equal; a NaN operand makes it zero |
| BlogPage.AllPostsAdjacent | app/blog/page.tsx:64-66 | any two neighbours whose dates both parse are in newest-first order |
| BlogPage.AllPostsSorted | app/blog/page.tsx:48-66 | when every date parses the list is sorted newest first, and posts with equal dates keep their merged order, markdown posts before static ones |
| BlogPage.PageCard | app/blog/page.tsx:88-98 | a post renders as an external anchor exactly when it has a link, with that link and the preview of its link type |
| BlogPage.MarkdownPostsInternal | app/blog/page.tsx:143-145 | every markdown post on the page takes the internal branch and links to `/blog/` followed by its slug |
| Text.ParseInt | app/publications/page.tsx:23 | `parseInt` without a radix is NaN exactly when no digit of the chosen base follows the leading whitespace, the optional sign and, for base 16, the `0x` or `0X` prefix |
| Text.ParseIntStopsAtNonDigit | app/publications/page.tsx:23 | on decimal digits followed by a non-digit, `parseInt` gives the value of the digits and ignores the rest |
| Text.ParseIntHexDigits | app/publications/page.tsx:43 | after `0x`, `parseInt` reads the hexadecimal digits that follow as a base-16 number |
| Text.ParseIntHexNoDigits | app/publications/page.tsx:43 | `0x` not followed by a hexadecimal digit is NaN |
| Text.HexYear | app/publications/page.tsx:43 | so a year key written `0x7E3` sorts as the year 2019 |
| Text.ParseIntNatToString | app/publications/page.tsx:43 | parsing the decimal rendering of a number gives back that number |
| PeopleData.Unmarked | app/people/page.tsx:45 | removing parentheses and dots leaves no such mark, only characters of the word, and a word without marks unchanged |
| PeopleData.NameWords | app/people/page.tsx:45 | the cleaned words of a name are all non-empty |
| PeopleData.FirstLetters | app/people/page.tsx:45 | the result holds the first letters of the first two words, or of as many words as there are when fewer |
| PeopleData.Initials | app/people/page.tsx:45 | the initials are the first letters of the first two cleaned words of the name, at most two, none of them a space or a mark |
| PeopleData.InitialsAreClean | app/people/page.tsx:45 | the first letter of every cleaned word is neither a space nor a parenthesis or dot |
| PeopleData.InitialsOfPieces | app/people/page.tsx:45 | when the first two space-separated pieces of the name keep a letter after cleaning, the initials are their first letters |
| PeopleData.InitialsOfTwoWords | app/people/page.tsx:45 | for a two-word name the initials are the first letters of the two words with marks removed |
| PeopleData.InitialsOfLongerName | app/people/page.tsx:45 | later words of a name do not change its initials |
| PeopleData.SplitTwoWords | app/people/page.tsx:45 | splitting two space-free words and a rest on spaces gives the two words and then the pieces of the rest |
| PeopleData.PictureOf | components/team-section.tsx:41-53 | a member shows a photo exactly when the image is set, at the base path followed by the image, and otherwise a badge with at most two initials |
| PeoplePage.DashRuns | app/people/page.tsx:5 | replacing the runs outside `[a-z0-9]` gives an empty text exactly for an empty input, and starts with a hyphen exactly when the input starts outside that class |
| PeoplePage.DashRunsShape | app/people/page.tsx:5 | after the replacement only lower-case letters, digits and single hyphens are left |
| PeoplePage.AnchorCons | app/people/page.tsx:5 | putting an anchor character, or a hyphen before a non-hyphen, in front of a valid text keeps it valid |
| PeoplePage.ToIdIsAnchor | app/people/page.tsx:5 | every id is made of lower-case letters, digits and hyphens, with no double hyphen and no hyphen at either end |
| PeoplePage.ToIdPhrase | app/people/page.tsx:5 | the id of words separated by runs of non-alphanumeric characters is the lower-cased words joined by single hyphens |
| PeoplePage.HyphenatedOfFive | app/people/page.tsx:5 | five words hyphenate to their lower-cased forms joined by four hyphens |
| PeoplePage.FooterTitlesShape | app/data/people.ts:50-58 | the two section titles the footer links to are alphanumeric words separated by gaps without letters or digits |
| PeoplePage.FooterAnchors | components/footer.tsx:51-56 | the ids the page gives the two sections are exactly the fragments the footer's people links point at |
| PeoplePage.GridView | app/people/page.tsx:31-55 | a grid card shows the member's name, affiliation and the picture rule applied to the image path as written |
| PeoplePage.ListView | app/people/page.tsx:61-73 | a list entry shows the name, and the affiliation exactly when it is set and non-empty |
| PeoplePage.SectionViewOf | app/people/page.tsx:25-33 | a section gets the id derived from its title, which is a valid anchor, keeps its title and renders each member in order with the section's layout |
| PeoplePage.Page | app/people/page.tsx:25 | one section view per section of the data, in order |
| PeoplePage.PageLayout | app/people/page.tsx:31-73 | a member is a grid card exactly in a grid section; a grid card shows a photo exactly when the image is set, otherwise at most two initials; a list entry shows the affiliation exactly when it is set |
| TeamSection.FilteredPeopleDataSpec | components/team-section.tsx:7-12 | the shown sections are, in order, exactly the sections not titled like one of the two former-member sections; data without such a section is kept whole |
| TeamSection.TeamMembersSpec | components/team-section.tsx:38 | the member list is the shown sections' members one section after another: its length is their total, a member is listed exactly when it belongs to a shown section, and the first section's members come first |
| TeamSection.TeamCardOf | components/team-section.tsx:39-57 | a card carries the member's name and a photo exactly when the image is set, at the base path followed by the image, else a badge of at most two initials |
| TeamSection.TeamView | components/team-section.tsx:38 | the grid has one card per listed member, in order |

## Left out

- The file system and external programs are not modelled directly: reading and writing files, the temporary directory, pandoc, pdflatex, dvisvgm and pdf2svg. Directory entries and file contents are inputs. Each compile or convert step is an oracle: a boolean, or an optional output for pandoc. Exceptions thrown by the file system are not modelled. In scripts/buildBlogs.mjs, the `statSync` of an entry and the asset copy (`mkdirSync`/`cpSync`) run outside any `try`; a throw there ends the script before latexBlogs.ts is written. The `mkdirSync` of `compileTikzToSvg` is outside that function's own `try`; a throw there reaches the outer `catch` and drops the post's record. The model assumes these calls succeed: `BuildBlogs.BuildBlogs` always emits the records, and `BuildBlogs.ConvertEntry` keeps the record of every entry with a readable main.tex.
- The default date of a post, which the build computes from the clock, is a parameter `today`.
- `new Date(...).getTime()` is an abstract date key, where `None` stands for an invalid date.
- `localeCompare` is an abstract title order. It is assumed antisymmetric.
- Network access, JSON reading and BeautifulSoup tree walking are left out. Parsed elements, entry texts, anchors and blocks are inputs. The image download is an oracle.
- Regular expressions are written out as scanners for the specific patterns, over ASCII. Unicode whitespace and letters are not classified.
- Python's `str.strip()` and `str.split()` in markdownify.py and scrape_publications.py also treat the ASCII separators `\x1c` to `\x1f` as whitespace. So does `\s` in Python's `re`: in markdownify.py's `[^a-z0-9\s-]` and `[\s-]+`, and in scrape_publications.py's `^\d+\.?\s*`, its `\s+` collapses and its arXiv and bracket link patterns. The model's whitespace is space, tab, newline, carriage return, vertical tab and form feed, as JavaScript's `trim` has it.
- Rendering is not modelled: markup, class names and icons appear only as data (a card, a preview, a picture).
- `getBasePath()` is a parameter.
- `getAllPostSlugs` is an abstract list of slugs, and `getPostData` results arrive as a list of optional posts.
- The console logging and the error messages are left out.
- gen.py, regenerate_icons.py and components/blog-icon.tsx are not part of this model. They do floating-point geometry, colour, random numbers and MD5.
- Static data files and pure view components are not part of this model. The exceptions are the two section titles of app/data/people.ts and the two footer anchors of components/footer.tsx.
- LatexMetadata.ExcerptBounds: lengths and cuts count Unicode code points, since a Dafny `char` is one. JavaScript's `.length`, `substring` and `slice` count UTF-16 code units. This applies to `LatexMetadata.Finish` and `LatexMetadata.FinalExcerpt` (scripts/buildBlogs.mjs:166-168), `MarkdownLoader.MarkdownExcerpt` (lib/blogs.ts:62) and `PeopleData.FirstLetters` (`n[0]` at app/people/page.tsx:45). On text with characters outside the Basic Multilingual Plane, the results differ: ten emoji are under 20 code points but 20 code units, so the model gives the placeholder where buildBlogs.mjs keeps the text. Cuts fall at different places, and JavaScript may split a surrogate pair where the model cannot.
- PublicationsPage.PublicationsSpec: the comparator with NaN years is not transitive (2019 ties NaN, NaN ties 2018, yet 2019 comes before 2018). ECMAScript then leaves the result of `sort` implementation-defined, and V8's TimSort need not keep neighbours ordered. The permutation part holds for any engine. The neighbour order is what the modelled insertion sort produces, not what the page is guaranteed to show.
- PublicationsPage.SortedYearsOrder: for the same reason, the numeric order is proved only for neighbours, and only of the modelled insertion sort. A key that parses to NaN (a non-numeric key other than "Unknown") makes the comparator inconsistent.
- PublicationsPage.SortedYearsAdjacent: states the neighbour order of the modelled insertion sort. With an inconsistent comparator, an engine's `sort` may order the keys differently.
- BlogPage.AllPostsAdjacent: the same holds for dates that do not parse. The neighbour order is that of the modelled insertion sort. When every date parses, the comparator is consistent and `BlogPage.AllPostsSorted` holds for any conforming engine.
- BlogPage.AllPostsSorted: the whole-list order and its stability are proved only when every date parses. Otherwise `BlogPage.AllPostsAdjacent` gives neighbour order for the dates that parse.
- LinkHelpers.WatchUrlRoundTrip, LinkHelpers.ShortUrlRoundTrip and LinkHelpers.EmbedUrlRoundTrip: the round trips are proved only for hosts without the characters named in their preconditions. The one exception is the canonical hosts.
