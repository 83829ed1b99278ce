/**
 * The offline converter markdownify.py: a parsed document (chunks of typed blocks) becomes a
 * Markdown post. The blocks of all chunks are gathered, a title is chosen, the title gives
 * the post's directory slug, and the blocks are rendered line by line, downloading images.
 *
 * Reading the JSON file, creating directories and writing blog.md are left to the caller;
 * the image download is an oracle `Fetch` that says whether the request and the write of
 * the image file succeeded.
 */
module Markdownify {
  import opened Wrappers
  import opened Text
  import opened Seqs

  // ---------------------------------------------------------------------------------------
  // slugify

  predicate IsSlugChar(c: char) { IsLower(c) || IsDigit(c) || c == '-' }

  /** The characters `[^a-z0-9\s-]` does not remove. */
  predicate Kept(c: char) { IsLower(c) || IsDigit(c) || IsSpace(c) || c == '-' }

  /** The characters of `[\s-]`. */
  predicate IsSep(c: char) { IsSpace(c) || c == '-' }

  const Seps: set<char> := Whitespace + {'-'}

  /** `re.sub(r'[^a-z0-9\s-]', '', text)`. */
  function KeepSlugChars(s: String): (r: String)
    ensures |r| <= |s|
    ensures forall i :: 0 <= i < |r| ==> Kept(r[i])
    ensures (forall i :: 0 <= i < |s| ==> Kept(s[i])) ==> r == s
    decreases |s|
  {
    if s == [] then []
    else (if Kept(s[0]) then [s[0]] else []) + KeepSlugChars(s[1..])
  }

  /** `re.sub(r'[\s-]+', '-', text)`: every run of whitespace and hyphens becomes one hyphen. */
  function CollapseSeps(s: String): (r: String)
    ensures |r| <= |s|
    ensures r == [] <==> s == []
    ensures r != [] ==> (r[0] == '-' <==> IsSep(s[0]))
    decreases |s|
  {
    if s == [] then []
    else if IsSep(s[0]) then ['-'] + CollapseSeps(StripStart(s, Seps))
    else [s[0]] + CollapseSeps(s[1..])
  }

  predicate AllKept(s: String) { forall i :: 0 <= i < |s| ==> Kept(s[i]) }

  predicate SlugChars(s: String) { forall i :: 0 <= i < |s| ==> IsSlugChar(s[i]) }

  /** Collapsing a text of kept characters leaves only `[a-z0-9-]`, with no "--". */
  lemma {:induction false} CollapseSepsSlug(s: String)
    requires AllKept(s)
    ensures SlugChars(CollapseSeps(s)) && NoDoubleDash(CollapseSeps(s))
    decreases |s|
  {
    if s != [] && IsSep(s[0]) {
      var rest := StripStart(s, Seps);
      KeptSuffix(s, rest);
      CollapseSepsSlug(rest);
      CollapseSepRun(s, rest, CollapseSeps(rest));
    } else if s != [] {
      KeptSuffix(s, s[1..]);
      CollapseSepsSlug(s[1..]);
      SlugCons(s[0], CollapseSeps(s[1..]));
    }
  }

  lemma {:induction false} KeptSuffix(s: String, rest: String)
    requires AllKept(s) && |rest| <= |s| && rest == s[|s| - |rest|..]
    ensures AllKept(rest)
  {
    forall i | 0 <= i < |rest| ensures Kept(rest[i]) {
      assert rest[i] == s[|s| - |rest| + i];
    }
  }

  /** A run of separators becomes one hyphen, and the text after the run does not start with one. */
  lemma {:induction false} CollapseSepRun(s: String, rest: String, t: String)
    requires s != [] && IsSep(s[0]) && rest == StripStart(s, Seps)
    requires t == CollapseSeps(rest) && SlugChars(t) && NoDoubleDash(t)
    ensures SlugChars(CollapseSeps(s)) && NoDoubleDash(CollapseSeps(s))
  {
    assert rest == [] || !IsSep(rest[0]);
    SlugCons('-', t);
  }

  lemma {:induction false} SlugCons(x: char, t: String)
    requires IsSlugChar(x) && SlugChars(t) && NoDoubleDash(t)
    requires x == '-' ==> t == [] || t[0] != '-'
    ensures SlugChars([x] + t) && NoDoubleDash([x] + t)
  {
    var r := [x] + t;
    forall i | 0 < i < |r| ensures IsSlugChar(r[i]) {
      assert r[i] == t[i - 1];
    }
    forall i | 0 <= i < |r| - 1 ensures !(r[i] == '-' && r[i + 1] == '-') {
      if i > 0 {
        assert r[i] == t[i - 1] && r[i + 1] == t[i];
      }
    }
  }

  /** `slugify`: lower-case, drop what is not a letter, digit, space or hyphen, collapse runs, strip hyphens. */
  function Slugify(text: String): String
  {
    Strip(CollapseSeps(KeepSlugChars(ToLower(text))), {'-'})
  }

  /** What a slug looks like: `[a-z0-9-]` only, no "--", no hyphen at either end. */
  predicate IsSlug(s: String)
  {
    (forall i :: 0 <= i < |s| ==> IsSlugChar(s[i])) && NoDoubleDash(s) &&
    (s == [] || (s[0] != '-' && s[|s| - 1] != '-'))
  }

  /** Stripping the ends keeps a contiguous piece, so it keeps the character set and "no --". */
  lemma StripDashesSlug(c: String)
    requires (forall i :: 0 <= i < |c| ==> IsSlugChar(c[i])) && NoDoubleDash(c)
    ensures IsSlug(Strip(c, {'-'}))
  {
    var r := Strip(c, {'-'});
    var off := StripIsSlice(c, {'-'});
    forall i | 0 <= i < |r| ensures IsSlugChar(r[i]) {
      assert r[i] == c[off + i];
    }
    forall i | 0 <= i < |r| - 1 ensures !(r[i] == '-' && r[i + 1] == '-') {
      assert r[i] == c[off + i] && r[i + 1] == c[off + i + 1];
    }
  }

  /** Every `slugify` result is a slug. */
  lemma SlugifyIsSlug(text: String)
    ensures IsSlug(Slugify(text))
  {
    var t := KeepSlugChars(ToLower(text));
    CollapseSepsSlug(t);
    StripDashesSlug(CollapseSeps(t));
  }

  /** On text that is already a slug, run collapsing changes nothing. */
  lemma {:induction false} CollapseSlug(s: String)
    requires (forall i :: 0 <= i < |s| ==> IsSlugChar(s[i])) && NoDoubleDash(s)
    ensures CollapseSeps(s) == s
    decreases |s|
  {
    if s != [] {
      var tail := s[1..];
      assert forall i :: 0 <= i < |tail| ==> tail[i] == s[i + 1];
      if IsSep(s[0]) {
        assert tail == [] || !IsSep(tail[0]);
        assert StripStart(s, Seps) == StripStart(tail, Seps) == tail;
      }
      CollapseSlug(tail);
    }
  }

  lemma LowerSlug(s: String)
    requires forall i :: 0 <= i < |s| ==> IsSlugChar(s[i])
    ensures ToLower(s) == s
  {
  }

  lemma StripSlug(s: String)
    requires s == [] || (s[0] != '-' && s[|s| - 1] != '-')
    ensures Strip(s, {'-'}) == s
  {
    if s != [] {
      assert StripStart(s, {'-'}) == s;
    }
  }

  /** A slug is its own slug. */
  lemma SlugifySlug(s: String)
    requires IsSlug(s)
    ensures Slugify(s) == s
  {
    LowerSlug(s);
    assert KeepSlugChars(s) == s;
    CollapseSlug(s);
    StripSlug(s);
  }

  /** Applying `slugify` twice is the same as applying it once. */
  lemma SlugifyIdempotent(text: String)
    ensures Slugify(Slugify(text)) == Slugify(text)
  {
    SlugifyIsSlug(text);
    SlugifySlug(Slugify(text));
  }

  // ---------------------------------------------------------------------------------------
  // Image file names

  predicate AllDots(s: String) { forall i :: 0 <= i < |s| ==> s[i] == '.' }

  /**
   * The extension `os.path.splitext` reports: from the last '.' of the last path component,
   * provided that dot is preceded in the component by something other than dots.
   */
  function Ext(p: String): String
  {
    var base := AfterLast(p, '/');
    if '.' !in base then []
    else
      var dot := |base| - |AfterLast(base, '.')| - 1;
      if AllDots(base[..dot]) then [] else base[dot..]
  }

  /** A non-empty extension starts with its dot and ends the path. */
  lemma ExtIsSuffix(p: String)
    ensures var e := Ext(p); e == [] || (e[0] == '.' && EndsWith(p, e))
  {
    var base := AfterLast(p, '/');
    if '.' in base {
      var tail := AfterLast(base, '.');
      var dot := |base| - |tail| - 1;
      assert base[dot] == '.';
      EndsWithTrans(p, base, base[dot..]);
    }
  }

  function ImageStem(n: nat): String
  {
    "image_" + NatToString(n)
  }

  /** The file name `download_image` saves image number `n` of `url` under. */
  function ImageFilename(url: String, n: nat): String
  {
    ImageStem(n) + NameExt(url)
  }

  /** The extension of the URL's part before its first '?', when there is a '?' and it has one; else ".png". */
  function NameExt(url: String): String
  {
    if '?' in url && Ext(Split(url, '?')[0]) != [] then Ext(Split(url, '?')[0]) else ".png"
  }

  /**
   * The name is "image_<n>" followed by ".png", or by the extension of the URL's part
   * before its first '?' when there is a '?' and that part has one.
   */
  lemma ImageFilenameRule(url: String, n: nat)
    ensures var name := ImageFilename(url, n);
      StartsWith(name, ImageStem(n) + ".")
    ensures '?' !in url ==> ImageFilename(url, n) == ImageStem(n) + ".png"
    ensures '?' in url ==>
      var before := Split(url, '?')[0];
      ImageFilename(url, n) == ImageStem(n) + (if Ext(before) == [] then ".png" else Ext(before)) &&
      '?' !in before && StartsWith(url, before)
  {
    NameExtDot(url);
    DotSuffix(ImageStem(n), NameExt(url));
    if '?' in url {
      SplitFirstPiece(url, '?');
    }
  }

  /** The extension part of the name starts with its dot. */
  lemma NameExtDot(url: String)
    ensures NameExt(url) != [] && NameExt(url)[0] == '.'
  {
    if '?' in url {
      ExtIsSuffix(Split(url, '?')[0]);
    }
    assert ".png"[0] == '.';
  }

  lemma DotSuffix(stem: String, e: String)
    requires e != [] && e[0] == '.'
    ensures StartsWith(stem + e, stem + ".")
  {
    assert (stem + e)[..|stem| + 1] == stem + ".";
  }

  /** The first piece of a split is the text before the first separator. */
  lemma SplitFirstPiece(s: String, sep: char)
    ensures sep !in Split(s, sep)[0] && StartsWith(s, Split(s, sep)[0])
  {
    match FindChar(s, sep, 0)
    case None =>
    case Some(i) => assert Split(s, sep)[0] == s[..i];
  }

  /** Distinct image numbers give distinct file names. */
  lemma ImageFilenamesDistinct(url1: String, url2: String, m: nat, n: nat)
    requires ImageFilename(url1, m) == ImageFilename(url2, n)
    ensures m == n
  {
    var name := ImageFilename(url1, m);
    NameDigits(url1, m);
    NameDigits(url2, n);
    assert NatToString(m) == name[6..][..FirstNonDigit(name[6..])] == NatToString(n);
    NatToStringInjective(m, n);
  }

  /** After "image_" come the digits of the number, then the '.' that starts the extension. */
  lemma NameDigits(url: String, n: nat)
    ensures var rest := ImageFilename(url, n)[6..];
      NatToString(n) == rest[..FirstNonDigit(rest)]
  {
    var name := ImageFilename(url, n);
    ImageFilenameRule(url, n);
    assert ImageStem(n) + "." == "image_" + (NatToString(n) + ".");
    StartsWithDrop(name, "image_", NatToString(n) + ".");
    NumberBeforeDot(name[6..], NatToString(n));
  }

  /** A run of digits followed by '.' is determined by the text it starts. */
  lemma NumberBeforeDot(s: String, d: String)
    requires AllDigits(d) && StartsWith(s, d + ".")
    ensures d == s[..FirstNonDigit(s)]
  {
    assert s[..|d| + 1] == d + ".";
    assert s[|d|] == '.';
    assert forall j :: 0 <= j < |d| ==> s[j] == d[j];
    FirstNonDigitIs(s, 0, |d|);
    assert s[..|d|] == d;
  }

  function FirstNonDigit(s: String): (k: nat)
    ensures k <= |s|
  {
    FirstNonDigitFrom(s, 0)
  }

  function FirstNonDigitFrom(s: String, i: nat): (k: nat)
    requires i <= |s|
    ensures i <= k <= |s|
    decreases |s| - i
  {
    if i == |s| || !IsDigit(s[i]) then i else FirstNonDigitFrom(s, i + 1)
  }

  lemma {:induction false} FirstNonDigitIs(s: String, i: nat, k: nat)
    requires i <= k < |s| && !IsDigit(s[k]) && forall j :: i <= j < k ==> IsDigit(s[j])
    ensures FirstNonDigitFrom(s, i) == k
    decreases k - i
  {
    if i < k {
      FirstNonDigitIs(s, i + 1, k);
    }
  }

  /** `content.replace('\n', ' ')[:100]`, or "Image <n>" for an empty content. */
  function AltText(content: String, n: nat): (alt: String)
    ensures content != [] ==> |alt| == (if |content| <= 100 then |content| else 100) && '\n' !in alt
    ensures content != [] ==> forall i :: 0 <= i < |alt| ==> alt[i] == if content[i] == '\n' then ' ' else content[i]
    ensures content == [] ==> alt == "Image " + NatToString(n)
  {
    if content == [] then "Image " + NatToString(n)
    else
      var flat := seq(|content|, i requires 0 <= i < |content| => if content[i] == '\n' then ' ' else content[i]);
      if |flat| <= 100 then flat else flat[..100]
  }

  // ---------------------------------------------------------------------------------------
  // Blocks

  /** One parsed block; a missing `type`, `content` or `image_url` is "". */
  datatype Block = Block(kind: String, content: String, imageUrl: String)

  /** One chunk; `blocks` is absent in some. */
  datatype Chunk = Chunk(blocks: Option<seq<Block>>)

  function ChunkBlocks(c: Chunk): seq<Block>
  {
    c.blocks.GetOr([])
  }

  /** The blocks of all chunks, as the `extend` loop gathers them. */
  function AllBlocks(chunks: seq<Chunk>): seq<Block>
  {
    Collect(chunks, ChunkBlocks)
  }

  method GatherBlocks(chunks: seq<Chunk>) returns (blocks: seq<Block>)
    ensures blocks == AllBlocks(chunks)
  {
    blocks := [];
    for i := 0 to |chunks|
      invariant blocks == Collect(chunks[..i], ChunkBlocks)
    {
      var chunk := chunks[i];
      var piece := if chunk.blocks.Some? then chunk.blocks.value else [];
      CollectStep(chunks, i, ChunkBlocks, blocks, piece);
      blocks := blocks + piece;
    }
    assert chunks[..|chunks|] == chunks;
  }

  /** The gathered list is the chunks' block lists concatenated in order. */
  lemma AllBlocksConcat(chunks: seq<Chunk>)
    ensures AllBlocks(chunks) == Flatten(Map(chunks, ChunkBlocks))
    ensures |AllBlocks(chunks)| == TotalLength(Map(chunks, ChunkBlocks))
  {
    CollectFlatten(chunks, ChunkBlocks);
    FlattenLength(Map(chunks, ChunkBlocks));
  }

  // ---------------------------------------------------------------------------------------
  // The title

  const DefaultTitle: String := "Untitled Blog"

  predicate IsTitleBlock(b: Block) { b.kind == "Title" }

  /** A Title block with something besides whitespace: the first loop stops at it. */
  predicate TitleCandidate(b: Block) { IsTitleBlock(b) && Trim(b.content) != [] }

  /** The first line of a block's stripped content. */
  function FirstLine(b: Block): String
  {
    Split(Trim(b.content), '\n')[0]
  }

  /** A Section Header or Text block with content whose first line is short: the second loop stops at it. */
  predicate FallbackCandidate(b: Block)
  {
    Trim(b.content) != [] && (b.kind == "Section Header" || b.kind == "Text") && |FirstLine(b)| < 100
  }

  /** `first_line.lstrip('#').strip()`. */
  function FallbackTitle(b: Block): String
  {
    Trim(StripStart(FirstLine(b), {'#'}))
  }

  /**
   * The first loop from block `i` on, with `title` as set so far: the stripped content of
   * each Title block is assigned, and the loop stops at the first that is not empty.
   */
  function TitleScan(blocks: seq<Block>, i: nat, title: String): (String, bool)
    requires i <= |blocks|
    decreases |blocks| - i
  {
    if i == |blocks| then (title, false)
    else if IsTitleBlock(blocks[i]) && Trim(blocks[i].content) != [] then (Trim(blocks[i].content), true)
    else if IsTitleBlock(blocks[i]) then TitleScan(blocks, i + 1, Trim(blocks[i].content))
    else TitleScan(blocks, i + 1, title)
  }

  /** The second loop from block `i` on: the first fallback candidate gives the title. */
  function FallbackScan(blocks: seq<Block>, i: nat, title: String): String
    requires i <= |blocks|
  {
    ScanFirst(blocks, i, FallbackCandidate, FallbackTitle, title)
  }

  function ChooseTitle(blocks: seq<Block>): String
  {
    var (t, found) := TitleScan(blocks, 0, DefaultTitle);
    if found then t else FallbackScan(blocks, 0, t)
  }

  /** The two title loops of `process_file`, each with its `break`. */
  method FindTitle(blocks: seq<Block>) returns (title: String)
    ensures title == ChooseTitle(blocks)
  {
    title := DefaultTitle;
    var foundTitle := false;
    var i := 0;
    while i < |blocks|
      invariant i <= |blocks|
      invariant TitleScan(blocks, 0, DefaultTitle) == TitleScan(blocks, i, title)
    {
      var block := blocks[i];
      if block.kind == "Title" {
        title := Trim(block.content);
        if title != [] {
          foundTitle := true;
          break;
        }
      }
      i := i + 1;
    }
    assert TitleScan(blocks, 0, DefaultTitle) == (title, foundTitle);
    if !foundTitle {
      ghost var t0 := title;
      var j := 0;
      while j < |blocks|
        invariant j <= |blocks|
        invariant FallbackScan(blocks, 0, t0) == FallbackScan(blocks, j, t0)
      {
        var block := blocks[j];
        var content := Trim(block.content);
        if content != [] && (block.kind == "Section Header" || block.kind == "Text") {
          var firstLine := Split(content, '\n')[0];
          if |firstLine| < 100 {
            title := Trim(StripStart(firstLine, {'#'}));
            break;
          }
        }
        j := j + 1;
      }
    }
  }

  /**
   * The first loop stops at the first Title candidate; without one, the title is "" if any
   * (empty) Title block was passed, or the one it started with.
   */
  lemma {:induction false} TitleScanSpec(blocks: seq<Block>, i: nat, title: String)
    requires i <= |blocks|
    ensures var k := FirstWhere(blocks, i, TitleCandidate);
      TitleScan(blocks, i, title) ==
        if k < |blocks| then (Trim(blocks[k].content), true)
        else (if FirstWhere(blocks, i, IsTitleBlock) < |blocks| then [] else title, false)
    decreases |blocks| - i
  {
    if i < |blocks| {
      var b := blocks[i];
      if TitleCandidate(b) {
        assert FirstWhere(blocks, i, TitleCandidate) == i;
      } else {
        var next := if IsTitleBlock(b) then Trim(b.content) else title;
        TitleScanSpec(blocks, i + 1, next);
        assert TitleScan(blocks, i, title) == TitleScan(blocks, i + 1, next);
        assert FirstWhere(blocks, i, TitleCandidate) == FirstWhere(blocks, i + 1, TitleCandidate);
        if IsTitleBlock(b) {
          assert FirstWhere(blocks, i, IsTitleBlock) == i && next == [];
        } else {
          assert FirstWhere(blocks, i, IsTitleBlock) == FirstWhere(blocks, i + 1, IsTitleBlock);
        }
      }
    } else {
      assert FirstWhere(blocks, i, TitleCandidate) == FirstWhere(blocks, i, IsTitleBlock) == |blocks|;
    }
  }

  /** The second loop stops at the first fallback candidate and otherwise keeps the title it was given. */
  lemma FallbackScanSpec(blocks: seq<Block>, i: nat, title: String)
    requires i <= |blocks|
    ensures var k := FirstWhere(blocks, i, FallbackCandidate);
      FallbackScan(blocks, i, title) == if k < |blocks| then FallbackTitle(blocks[k]) else title
  {
    ScanFirstIs(blocks, i, FallbackCandidate, FallbackTitle, title);
  }

  /**
   * The title is the stripped content of the first non-empty Title block; failing that, the
   * de-hashed first line of the first Section Header or Text block with a first line under
   * 100 characters; failing that, "" when some (empty) Title block exists and "Untitled Blog"
   * otherwise.
   */
  lemma ChooseTitleCases(blocks: seq<Block>)
    ensures var t := FirstWhere(blocks, 0, TitleCandidate);
      var f := FirstWhere(blocks, 0, FallbackCandidate);
      ChooseTitle(blocks) ==
        if t < |blocks| then Trim(blocks[t].content)
        else if f < |blocks| then FallbackTitle(blocks[f])
        else if FirstWhere(blocks, 0, IsTitleBlock) < |blocks| then []
        else DefaultTitle
  {
    TitleScanSpec(blocks, 0, DefaultTitle);
    FallbackScanSpec(blocks, 0, TitleScan(blocks, 0, DefaultTitle).0);
  }

  // ---------------------------------------------------------------------------------------
  // The slug

  const UntitledSlug: String := "untitled-blog"

  /** `os.path.basename(filename).replace('.json', '')`. */
  function FileStem(filename: String): String
  {
    RemoveAll(AfterLast(filename, '/'), ".json")
  }

  /** The directory name: the title's slug, or "blog-<file stem>" when that is empty or the default title's. */
  function SlugFor(title: String, filename: String): (slug: String)
  {
    var s := Slugify(title);
    if s == [] || s == UntitledSlug then "blog-" + FileStem(filename) else s
  }

  /** The slug is never empty, and either a proper `slugify` result or the file-name fallback. */
  lemma SlugForCases(title: String, filename: String)
    ensures SlugFor(title, filename) != []
    ensures var s := Slugify(title);
      if s != [] && s != UntitledSlug then SlugFor(title, filename) == s && IsSlug(s)
      else SlugFor(title, filename) == "blog-" + FileStem(filename)
    ensures Slugify([]) == []
  {
    SlugifyIsSlug(title);
    assert Strip([], {'-'}) == [];
  }

  // ---------------------------------------------------------------------------------------
  // Rendering

  /** Whether downloading `url` to `path` succeeded (status 200 and the file written). */
  type Fetch = (String, String) -> bool

  datatype RenderState = RenderState(lines: seq<String>, imageCount: nat)

  function AssetsDir(slug: String): String
  {
    "markdown_blogs/" + slug + "/assets"
  }

  function ImageLine(alt: String, filename: String): String
  {
    "\n![" + alt + "](assets/" + filename + ")\n"
  }

  /** Whether block `b` is an image whose download, as image number `n`, succeeds. */
  predicate Downloaded(b: Block, n: nat, assetsDir: String, fetch: Fetch)
  {
    b.imageUrl != [] && fetch(b.imageUrl, assetsDir + "/" + ImageFilename(b.imageUrl, n))
  }

  /** The line a non-image block contributes. */
  function TextLine(b: Block): Option<String>
  {
    if b.kind == "Title" then Some("# " + b.content + "\n")
    else if b.kind == "Section Header" then Some("## " + b.content + "\n")
    else if b.kind == "Footer" || b.kind == "Page Number" then None
    else Some(b.content + "\n")
  }

  /** One turn of the rendering loop. */
  function RenderStep(st: RenderState, b: Block, assetsDir: String, fetch: Fetch): RenderState
  {
    if b.content == [] && b.imageUrl == [] then st
    else if b.imageUrl != [] then
      if Downloaded(b, st.imageCount, assetsDir, fetch) then
        var name := ImageFilename(b.imageUrl, st.imageCount);
        RenderState(st.lines + [ImageLine(AltText(b.content, st.imageCount), name)], st.imageCount + 1)
      else st
    else
      match TextLine(b)
      case None => st
      case Some(line) => RenderState(st.lines + [line], st.imageCount)
  }

  /** The loop's state after the given blocks. */
  function Render(blocks: seq<Block>, assetsDir: String, fetch: Fetch): RenderState
  {
    if blocks == [] then RenderState([], 0)
    else RenderStep(Render(blocks[..|blocks| - 1], assetsDir, fetch), blocks[|blocks| - 1], assetsDir, fetch)
  }

  /** The file names of the images written, in order. */
  function Images(blocks: seq<Block>, assetsDir: String, fetch: Fetch): seq<String>
  {
    if blocks == [] then []
    else
      var init, b := blocks[..|blocks| - 1], blocks[|blocks| - 1];
      var n := Render(init, assetsDir, fetch).imageCount;
      Images(init, assetsDir, fetch) +
      if b.content == [] && b.imageUrl == [] then [] else
      if Downloaded(b, n, assetsDir, fetch) then [ImageFilename(b.imageUrl, n)] else []
  }

  lemma RenderSnoc(blocks: seq<Block>, i: nat, assetsDir: String, fetch: Fetch)
    requires i < |blocks|
    ensures Render(blocks[..i + 1], assetsDir, fetch) == RenderStep(Render(blocks[..i], assetsDir, fetch), blocks[i], assetsDir, fetch)
  {
    assert blocks[..i + 1][..i] == blocks[..i];
  }

  /** The rendering loop of `process_file`. */
  method RenderBlocks(blocks: seq<Block>, assetsDir: String, fetch: Fetch) returns (markdownLines: seq<String>, imageCount: nat)
    ensures RenderState(markdownLines, imageCount) == Render(blocks, assetsDir, fetch)
  {
    markdownLines := [];
    imageCount := 0;
    for i := 0 to |blocks|
      invariant RenderState(markdownLines, imageCount) == Render(blocks[..i], assetsDir, fetch)
    {
      RenderSnoc(blocks, i, assetsDir, fetch);
      var block := blocks[i];
      var content := block.content;
      var imageUrl := block.imageUrl;
      if content == [] && imageUrl == [] {
        continue;
      }
      if imageUrl != [] {
        var localFilename := ImageFilename(imageUrl, imageCount);
        if fetch(imageUrl, assetsDir + "/" + localFilename) {
          var altText := AltText(content, imageCount);
          markdownLines := markdownLines + [ImageLine(altText, localFilename)];
          imageCount := imageCount + 1;
        }
      } else if block.kind == "Title" {
        markdownLines := markdownLines + ["# " + content + "\n"];
      } else if block.kind == "Section Header" {
        markdownLines := markdownLines + ["## " + content + "\n"];
      } else if block.kind == "List Item" {
        markdownLines := markdownLines + [content + "\n"];
      } else if block.kind == "Footer" || block.kind == "Page Number" {
      } else {
        markdownLines := markdownLines + [content + "\n"];
      }
    }
    assert blocks[..|blocks|] == blocks;
  }

  /**
   * The counter counts the images written, and image `k` is named "image_<k>.": numbers
   * advance only on a successful download, so there are no gaps and no repeats.
   */
  lemma {:induction false} ImagesNumbered(blocks: seq<Block>, assetsDir: String, fetch: Fetch)
    ensures |Images(blocks, assetsDir, fetch)| == Render(blocks, assetsDir, fetch).imageCount
    ensures forall k :: 0 <= k < |Images(blocks, assetsDir, fetch)| ==>
      StartsWith(Images(blocks, assetsDir, fetch)[k], ImageStem(k) + ".")
    ensures |Render(blocks, assetsDir, fetch).lines| <= |blocks|
    decreases |blocks|
  {
    if blocks != [] {
      var init, b := blocks[..|blocks| - 1], blocks[|blocks| - 1];
      ImagesNumbered(init, assetsDir, fetch);
      var st := Render(init, assetsDir, fetch);
      var n := st.imageCount;
      assert Render(blocks, assetsDir, fetch) == RenderStep(st, b, assetsDir, fetch);
      RenderStepGrowth(st, b, assetsDir, fetch);
      var before := Images(init, assetsDir, fetch);
      var extra := if !(b.content == [] && b.imageUrl == []) && Downloaded(b, n, assetsDir, fetch)
        then [ImageFilename(b.imageUrl, n)] else [];
      var imgs := Images(blocks, assetsDir, fetch);
      assert imgs == before + extra;
      if extra != [] {
        ImageFilenameRule(b.imageUrl, n);
      }
      forall k | 0 <= k < |imgs| ensures StartsWith(imgs[k], ImageStem(k) + ".") {
        if k < |before| {
          assert imgs[k] == before[k];
        } else {
          assert k == |before| == n && extra != [];
          assert imgs[k] == ImageFilename(b.imageUrl, n);
        }
      }
    }
  }

  /** One turn of the loop adds at most one line, and counts one image exactly when it writes one. */
  lemma RenderStepGrowth(st: RenderState, b: Block, assetsDir: String, fetch: Fetch)
    ensures RenderStep(st, b, assetsDir, fetch).imageCount == st.imageCount +
      (if !(b.content == [] && b.imageUrl == []) && Downloaded(b, st.imageCount, assetsDir, fetch) then 1 else 0)
    ensures |RenderStep(st, b, assetsDir, fetch).lines| <= |st.lines| + 1
  {
  }

  /**
   * The line a rendered block adds: "# c" for a Title, "## c" for a Section Header, "c" for
   * any other kind but Footer and Page Number, and the image reference for a downloaded
   * image, each followed by a newline.
   */
  lemma RenderStepLine(st: RenderState, b: Block, assetsDir: String, fetch: Fetch)
    ensures b.imageUrl == [] && b.content != [] && b.kind == "Title" ==>
      RenderStep(st, b, assetsDir, fetch) == RenderState(st.lines + ["# " + b.content + "\n"], st.imageCount)
    ensures b.imageUrl == [] && b.content != [] && b.kind == "Section Header" ==>
      RenderStep(st, b, assetsDir, fetch) == RenderState(st.lines + ["## " + b.content + "\n"], st.imageCount)
    ensures b.imageUrl == [] && b.content != [] && b.kind !in ["Title", "Section Header", "Footer", "Page Number"] ==>
      RenderStep(st, b, assetsDir, fetch) == RenderState(st.lines + [b.content + "\n"], st.imageCount)
    ensures Downloaded(b, st.imageCount, assetsDir, fetch) ==>
      RenderStep(st, b, assetsDir, fetch) == RenderState(
        st.lines + [ImageLine(AltText(b.content, st.imageCount), ImageFilename(b.imageUrl, st.imageCount))],
        st.imageCount + 1)
  {
  }

  /** A line that ends in a newline character ends with "\n". */
  lemma NewlineEnd(s: String)
    requires s != [] && s[|s| - 1] == '\n'
    ensures EndsWith(s, "\n")
  {
  }

  /** One turn keeps the lines it had and adds at most one line, ending with a newline. */
  lemma RenderStepEndsLine(st: RenderState, b: Block, assetsDir: String, fetch: Fetch)
    ensures RenderStep(st, b, assetsDir, fetch).lines == st.lines ||
      (|RenderStep(st, b, assetsDir, fetch).lines| == |st.lines| + 1 &&
       RenderStep(st, b, assetsDir, fetch).lines[..|st.lines|] == st.lines &&
       EndsWith(RenderStep(st, b, assetsDir, fetch).lines[|st.lines|], "\n"))
  {
    var r := RenderStep(st, b, assetsDir, fetch);
    if r.lines != st.lines {
      var line := r.lines[|st.lines|];
      assert r.lines == st.lines + [line];
      NewlineEnd(line);
    }
  }

  /** Every line of the rendered post ends with a newline. */
  lemma {:induction false} LinesEndWithNewline(blocks: seq<Block>, assetsDir: String, fetch: Fetch)
    ensures forall k :: 0 <= k < |Render(blocks, assetsDir, fetch).lines| ==>
      EndsWith(Render(blocks, assetsDir, fetch).lines[k], "\n")
    decreases |blocks|
  {
    if blocks != [] {
      var init, b := blocks[..|blocks| - 1], blocks[|blocks| - 1];
      LinesEndWithNewline(init, assetsDir, fetch);
      var st := Render(init, assetsDir, fetch);
      var lines := RenderStep(st, b, assetsDir, fetch).lines;
      RenderStepEndsLine(st, b, assetsDir, fetch);
      forall k | 0 <= k < |lines| ensures EndsWith(lines[k], "\n") {
        if k < |st.lines| {
          assert lines[k] == st.lines[k];
        }
      }
    }
  }

  /** A block without content and without image, a failed download and a footer or page number each add nothing. */
  lemma RenderStepSilent(st: RenderState, b: Block, assetsDir: String, fetch: Fetch)
    ensures (b.content == [] && b.imageUrl == []) ==> RenderStep(st, b, assetsDir, fetch) == st
    ensures b.imageUrl != [] && !Downloaded(b, st.imageCount, assetsDir, fetch) ==> RenderStep(st, b, assetsDir, fetch) == st
    ensures b.imageUrl == [] && (b.kind == "Footer" || b.kind == "Page Number") ==> RenderStep(st, b, assetsDir, fetch) == st
    ensures RenderStep(st, b, assetsDir, fetch).imageCount == st.imageCount + (if RenderStep(st, b, assetsDir, fetch).lines != st.lines && b.imageUrl != [] then 1 else 0)
  {
  }

  // ---------------------------------------------------------------------------------------
  // One input file

  /** What reading the JSON file gives. */
  datatype JsonFile = NotFound | Unreadable | Parsed(chunks: seq<Chunk>)

  /** The post written: its directory slug and the text of its blog.md. */
  datatype BlogOut = BlogOut(slug: String, markdown: String)

  function ProcessResult(filename: String, file: JsonFile, fetch: Fetch): Option<BlogOut>
  {
    if !file.Parsed? then None
    else
      var blocks := AllBlocks(file.chunks);
      if blocks == [] then None
      else
        var slug := SlugFor(ChooseTitle(blocks), filename);
        Some(BlogOut(slug, Join(Render(blocks, AssetsDir(slug), fetch).lines, '\n')))
  }

  /** `process_file`. */
  method ProcessFile(filename: String, file: JsonFile, fetch: Fetch) returns (out: Option<BlogOut>)
    ensures out == ProcessResult(filename, file, fetch)
  {
    if !file.Parsed? {
      return None;
    }
    var blocks := GatherBlocks(file.chunks);
    if |blocks| == 0 {
      return None;
    }
    var title := FindTitle(blocks);
    var slug := Slugify(title);
    if slug == [] || slug == UntitledSlug {
      slug := "blog-" + FileStem(filename);
    }
    var assetsDir := AssetsDir(slug);
    var markdownLines, imageCount := RenderBlocks(blocks, assetsDir, fetch);
    return Some(BlogOut(slug, Join(markdownLines, '\n')));
  }

  /** Nothing is written exactly when the file is missing or unreadable or holds no blocks. */
  lemma NothingWrittenIff(filename: String, file: JsonFile, fetch: Fetch)
    ensures ProcessResult(filename, file, fetch).None? <==> !file.Parsed? || Flatten(Map(file.chunks, ChunkBlocks)) == []
    ensures ProcessResult(filename, file, fetch).Some? ==> ProcessResult(filename, file, fetch).value.slug != []
  {
    if file.Parsed? {
      AllBlocksConcat(file.chunks);
      var blocks := AllBlocks(file.chunks);
      SlugForCases(ChooseTitle(blocks), filename);
    }
  }
}
