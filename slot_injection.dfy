/**
 * Embedding compiled TikZ figures into the pandoc output (scripts/buildBlogs.mjs, lines
 * 185-201): `html.replace(/(<figure[^>]*>)\s*\n\s*\n\s*(<figcaption>)/g, callback)`, where the
 * callback hands out the processed figures one by one through the counter `figureCount`.
 */
module SlotInjection {
  import opened Wrappers
  import opened Text
  import opened Seqs

  const FigureOpen: String := "<figure"
  const CaptionTag: String := "<figcaption>"
  const SvgDir: String := "/generated/blogs/tikz/"
  const ImgAttributes: String :=
    "\" alt=\"TikZ Diagram\" style=\"max-width: 100%; height: auto; display: block; margin: 0 auto;\" />\n"

  /**
   * One match of the slot pattern: it starts at `start`, group 1 (`<figure…>`) ends at
   * `openEnd`, and group 2 (`<figcaption>`) starts at `captionStart`.
   */
  datatype Slot = Slot(start: nat, openEnd: nat, captionStart: nat)
  {
    /** Where the match ends. */
    function End(): nat { captionStart + |CaptionTag| }
  }

  /** The end of the whitespace run starting at `i`. */
  function SpaceRunEnd(s: String, i: nat): (j: nat)
    requires i <= |s|
    ensures i <= j <= |s|
    ensures forall k :: i <= k < j ==> IsSpace(s[k])
    ensures j < |s| ==> !IsSpace(s[j])
    decreases |s| - i
  {
    if i < |s| && IsSpace(s[i]) then SpaceRunEnd(s, i + 1) else i
  }

  /** The number of line breaks in `s`. */
  function NewlineCount(s: String): nat
    decreases |s|
  {
    if s == [] then 0 else (if s[0] == '\n' then 1 else 0) + NewlineCount(s[1..])
  }

  /**
   * The slot pattern as a property of the text: `<figure`, attributes without `>`, `>`, a
   * whitespace gap with at least two newlines, then `<figcaption>`.
   */
  predicate IsSlot(s: String, sl: Slot)
  {
    sl.start + |FigureOpen| < sl.openEnd <= sl.captionStart <= |s| &&
    OccursAt(s, FigureOpen, sl.start) &&
    (forall k :: sl.start + |FigureOpen| <= k < sl.openEnd - 1 ==> s[k] != '>') &&
    s[sl.openEnd - 1] == '>' &&
    (forall k :: sl.openEnd <= k < sl.captionStart ==> IsSpace(s[k])) &&
    NewlineCount(s[sl.openEnd..sl.captionStart]) >= 2 &&
    OccursAt(s, CaptionTag, sl.captionStart)
  }

  /**
   * The match at `i`, if any. `[^>]*>` ends at the first `>`; the gap `\s*\n\s*\n\s*` can only
   * be the whole whitespace run after it, since `<figcaption>` does not start with whitespace.
   */
  function SlotAt(s: String, i: nat): (r: Option<Slot>)
    ensures r.Some? ==> r.value.start == i < r.value.openEnd <= r.value.captionStart && r.value.End() <= |s|
  {
    if !OccursAt(s, FigureOpen, i) then None
    else
      match FindChar(s, '>', i + |FigureOpen|)
      case None => None
      case Some(c) =>
        var h := SpaceRunEnd(s, c + 1);
        if NewlineCount(s[c + 1..h]) >= 2 && OccursAt(s, CaptionTag, h) then Some(Slot(i, c + 1, h))
        else None
  }

  lemma SlotAtSound(s: String, sl: Slot)
    requires SlotAt(s, sl.start) == Some(sl)
    ensures IsSlot(s, sl)
  {
    assert FindChar(s, '>', sl.start + |FigureOpen|) == Some(sl.openEnd - 1);
  }

  lemma SlotAtComplete(s: String, sl: Slot)
    requires IsSlot(s, sl)
    ensures SlotAt(s, sl.start) == Some(sl)
  {
    assert FindChar(s, '>', sl.start + |FigureOpen|) == Some(sl.openEnd - 1);
    assert s[sl.captionStart] == CaptionTag[0];
    SpaceRunEndIs(s, sl.openEnd, sl.captionStart);
  }

  /** `SlotAt` finds exactly the slots of the pattern: both directions. */
  lemma SlotAtIff(s: String, sl: Slot)
    ensures SlotAt(s, sl.start) == Some(sl) <==> IsSlot(s, sl)
  {
    if SlotAt(s, sl.start) == Some(sl) {
      SlotAtSound(s, sl);
    }
    if IsSlot(s, sl) {
      SlotAtComplete(s, sl);
    }
  }

  /** A whitespace run followed by a non-space character ends there. */
  lemma {:induction false} SpaceRunEndIs(s: String, i: nat, j: nat)
    requires i <= j < |s| && !IsSpace(s[j])
    requires forall k :: i <= k < j ==> IsSpace(s[k])
    ensures SpaceRunEnd(s, i) == j
    decreases j - i
  {
    if i < j {
      SpaceRunEndIs(s, i + 1, j);
    }
  }

  /** The leftmost match at or after `from`. */
  function NextSlot(s: String, from: nat): (r: Option<Slot>)
    ensures r.Some? ==> from <= r.value.start < r.value.openEnd <= r.value.captionStart && r.value.End() <= |s|
    ensures r.Some? ==> SlotAt(s, r.value.start) == r
    decreases |s| - from
  {
    if from >= |s| then None
    else if SlotAt(s, from).Some? then SlotAt(s, from)
    else NextSlot(s, from + 1)
  }

  /** From `from` on, `NextSlot` skips no match, and `None` means there is none. */
  ghost predicate LeftmostFrom(s: String, from: nat)
  {
    (NextSlot(s, from).Some? ==> forall j :: from <= j < NextSlot(s, from).value.start ==> SlotAt(s, j).None?) &&
    (NextSlot(s, from).None? ==> forall j: nat :: from <= j ==> SlotAt(s, j).None?)
  }

  /** `NextSlot` skips no match, and `None` means there is none. */
  lemma {:induction false} NextSlotLeftmost(s: String, from: nat)
    ensures NextSlot(s, from).Some? ==>
      forall j :: from <= j < NextSlot(s, from).value.start ==> SlotAt(s, j).None?
    ensures NextSlot(s, from).None? ==> forall j: nat :: from <= j ==> SlotAt(s, j).None?
    decreases |s| - from
  {
    if from >= |s| {
      forall j: nat | from <= j ensures SlotAt(s, j).None? {
        SlotAtBeyond(s, j);
      }
    } else if SlotAt(s, from).None? {
      NextSlotLeftmost(s, from + 1);
      LeftmostStep(s, from);
    }
  }

  /** A position where no match starts passes the property on from the next position. */
  lemma {:induction false} LeftmostStep(s: String, from: nat)
    requires from < |s| && SlotAt(s, from).None? && LeftmostFrom(s, from + 1)
    ensures LeftmostFrom(s, from)
  {
    assert NextSlot(s, from) == NextSlot(s, from + 1);
  }

  /** No match starts at or past the end of the text. */
  lemma SlotAtBeyond(s: String, j: nat)
    requires |s| <= j
    ensures SlotAt(s, j).None?
  {
    assert !OccursAt(s, FigureOpen, j);
  }

  /** The matches of the global replace, left to right, each scan resuming where the last ended. */
  function SlotsFrom(s: String, from: nat): seq<Slot>
    decreases |s| - from
  {
    match NextSlot(s, from)
    case None => []
    case Some(sl) => [sl] + SlotsFrom(s, sl.End())
  }

  function SvgPath(slug: String, id: String): String
  {
    SvgDir + slug + "/" + id + ".svg"
  }

  /** The text the callback places between the two groups for figure `id`. */
  function ImgBlock(slug: String, id: String): String
  {
    "\n<img src=\"" + SvgPath(slug, id) + ImgAttributes
  }

  /**
   * The output of the replace from `from` on, `n` figures already handed out: while
   * `figureCount < processedFigures.length` a match becomes group 1, the image block and
   * group 2; after that each match is returned unchanged.
   */
  function InjectFrom(s: String, slug: String, ids: seq<String>, from: nat, n: nat): String
    requires from <= |s|
    decreases |s| - from
  {
    match NextSlot(s, from)
    case None => s[from..]
    case Some(sl) =>
      var replaced :=
        if n < |ids| then s[sl.start..sl.openEnd] + ImgBlock(slug, ids[n]) + CaptionTag
        else s[sl.start..sl.End()];
      s[from..sl.start] + replaced + InjectFrom(s, slug, ids, sl.End(), if n < |ids| then n + 1 else n)
  }

  /** One step of the replace: the text before the match, its replacement, then the rest. */
  lemma InjectFromNext(s: String, slug: String, ids: seq<String>, from: nat, n: nat, sl: Slot, replaced: String)
    requires from <= |s| && NextSlot(s, from) == Some(sl)
    requires replaced == if n < |ids| then s[sl.start..sl.openEnd] + ImgBlock(slug, ids[n]) + CaptionTag
                         else s[sl.start..sl.End()]
    ensures InjectFrom(s, slug, ids, from, n) ==
      s[from..sl.start] + replaced + InjectFrom(s, slug, ids, sl.End(), if n < |ids| then n + 1 else n)
  {
  }

  /** One step of the scan over the matches. */
  lemma SlotsFromNext(s: String, from: nat, sl: Slot)
    requires NextSlot(s, from) == Some(sl)
    ensures SlotsFrom(s, from) == [sl] + SlotsFrom(s, sl.End())
  {
  }

  /** Moving a piece from the pending text to the accumulated output keeps their concatenation. */
  lemma ShiftPiece(out: String, piece: String, rest: String, pending: String)
    requires pending == piece + rest
    ensures out + pending == (out + piece) + rest
  {
  }

  /**
   * The replace with its callback: returns the new HTML and the final value of
   * `figureCount`, which is the smaller of the number of figures and the number of slots.
   */
  method EmbedSvgs(html: String, slug: String, processed: seq<String>) returns (out: String, figureCount: nat)
    ensures out == InjectFrom(html, slug, processed, 0, 0)
    ensures figureCount == Min(|processed|, |SlotsFrom(html, 0)|)
  {
    out := "";
    figureCount := 0;
    var pos := 0;
    var seen := 0;
    while true
      invariant pos <= |html|
      invariant out + InjectFrom(html, slug, processed, pos, figureCount) == InjectFrom(html, slug, processed, 0, 0)
      invariant seen + |SlotsFrom(html, pos)| == |SlotsFrom(html, 0)|
      invariant figureCount == Min(|processed|, seen)
      decreases |html| - pos
    {
      var m := NextSlot(html, pos);
      if m.None? {
        out := out + html[pos..];
        break;
      }
      var sl := m.value;
      var replaced;
      var next := figureCount;
      if figureCount < |processed| {
        replaced := html[sl.start..sl.openEnd] + ImgBlock(slug, processed[figureCount]) + CaptionTag;
        next := figureCount + 1;
      } else {
        replaced := html[sl.start..sl.End()];
      }
      InjectFromNext(html, slug, processed, pos, figureCount, sl, replaced);
      SlotsFromNext(html, pos, sl);
      ShiftPiece(out, html[pos..sl.start] + replaced, InjectFrom(html, slug, processed, sl.End(), next),
        InjectFrom(html, slug, processed, pos, figureCount));
      out := out + (html[pos..sl.start] + replaced);
      figureCount := next;
      seen := seen + 1;
      pos := sl.End();
    }
  }

  // ---------------------------------------------------------------------------------------
  // Reference: splicing blocks into the gaps of a list of slots

  /** `slots` lie left to right in `s[from..]` without overlapping. */
  predicate Chained(s: String, from: nat, slots: seq<Slot>)
    decreases |slots|
  {
    slots == [] ||
    (from <= slots[0].start <= slots[0].openEnd <= slots[0].captionStart && slots[0].End() <= |s| &&
     Chained(s, slots[0].End(), slots[1..]))
  }

  /**
   * `s[from..]` with the gap of the k-th slot replaced by `blocks[k]`, for every k below
   * both lengths; every other character is kept.
   */
  function Splice(s: String, from: nat, slots: seq<Slot>, blocks: seq<String>): String
    requires from <= |s| && Chained(s, from, slots)
    decreases |slots|
  {
    if slots == [] || blocks == [] then s[from..]
    else
      var sl := slots[0];
      s[from..sl.openEnd] + blocks[0] + s[sl.captionStart..sl.End()] + Splice(s, sl.End(), slots[1..], blocks[1..])
  }

  lemma {:induction false} SlotsChained(s: String, from: nat)
    ensures Chained(s, from, SlotsFrom(s, from))
    decreases |s| - from
  {
    match NextSlot(s, from)
    case None =>
    case Some(sl) =>
      SlotsChained(s, sl.End());
      assert SlotsFrom(s, from)[1..] == SlotsFrom(s, sl.End());
  }

  function Blocks(slug: String, ids: seq<String>): (r: seq<String>)
    ensures |r| == |ids|
    decreases |ids|
  {
    if ids == [] then [] else [ImgBlock(slug, ids[0])] + Blocks(slug, ids[1..])
  }

  lemma BlocksCons(slug: String, ids: seq<String>, n: nat)
    requires n < |ids|
    ensures Blocks(slug, ids[n..]) == [ImgBlock(slug, ids[n])] + Blocks(slug, ids[n + 1..])
  {
    assert ids[n..][1..] == ids[n + 1..];
  }

  /** One step of the splice: the first gap receives the first block. */
  lemma SpliceCons(s: String, from: nat, sl: Slot, rest: seq<Slot>, block: String, blocks: seq<String>)
    requires from <= |s| && Chained(s, from, [sl] + rest)
    ensures Chained(s, sl.End(), rest)
    ensures Splice(s, from, [sl] + rest, [block] + blocks) ==
            s[from..sl.openEnd] + block + s[sl.captionStart..sl.End()] + Splice(s, sl.End(), rest, blocks)
  {
    assert ([sl] + rest)[1..] == rest;
    assert ([block] + blocks)[1..] == blocks;
  }

  /** The filled replacement, rearranged as a splice of the gap. */
  lemma FilledPiece(s: String, from: nat, sl: Slot, block: String, rest: String)
    requires from <= sl.start <= sl.openEnd <= sl.captionStart && OccursAt(s, CaptionTag, sl.captionStart)
    ensures s[from..sl.start] + (s[sl.start..sl.openEnd] + block + CaptionTag) + rest ==
            s[from..sl.openEnd] + block + s[sl.captionStart..sl.End()] + rest
  {
    assert s[from..sl.openEnd] == s[from..sl.start] + s[sl.start..sl.openEnd];
  }

  /** A match returned unchanged, followed by the unchanged rest, is the unchanged text. */
  lemma KeptPiece(s: String, from: nat, sl: Slot)
    requires from <= sl.start <= sl.End() <= |s|
    ensures s[from..sl.start] + s[sl.start..sl.End()] + s[sl.End()..] == s[from..]
  {
  }

  /**
   * Positional pairing: the replace puts the image of `ids[n + k]` into the gap of the k-th
   * slot, for each k below both counts, and leaves every other character of the HTML as it was.
   */
  lemma {:induction false} InjectIsSplice(s: String, slug: String, ids: seq<String>, from: nat, n: nat)
    requires from <= |s| && n <= |ids|
    ensures Chained(s, from, SlotsFrom(s, from))
    ensures InjectFrom(s, slug, ids, from, n) == Splice(s, from, SlotsFrom(s, from), Blocks(slug, ids[n..]))
    decreases |s| - from
  {
    SlotsChained(s, from);
    var m := NextSlot(s, from);
    if m.Some? {
      var sl := m.value;
      var e := sl.End();
      SlotsFromNext(s, from, sl);
      SlotsChained(s, e);
      var after := SlotsFrom(s, e);
      if n < |ids| {
        var block := ImgBlock(slug, ids[n]);
        InjectFromNext(s, slug, ids, from, n, sl, s[sl.start..sl.openEnd] + block + CaptionTag);
        InjectIsSplice(s, slug, ids, e, n + 1);
        BlocksCons(slug, ids, n);
        FilledPiece(s, from, sl, block, InjectFrom(s, slug, ids, e, n + 1));
        SpliceCons(s, from, sl, after, block, Blocks(slug, ids[n + 1..]));
      } else {
        InjectFromNext(s, slug, ids, from, n, sl, s[sl.start..e]);
        InjectIsSplice(s, slug, ids, e, n);
        KeptPiece(s, from, sl);
        assert Blocks(slug, ids[n..]) == [];
      }
    }
  }

  /** With no figure left to hand out, the HTML from `from` on is returned unchanged. */
  lemma InjectNothing(s: String, slug: String, ids: seq<String>, from: nat)
    requires from <= |s|
    ensures InjectFrom(s, slug, ids, from, |ids|) == s[from..]
  {
    InjectIsSplice(s, slug, ids, from, |ids|);
  }
}
