/**
 * TikZ figure extraction (`extractTikzFigures` in scripts/buildBlogs.mjs and in
 * scripts/processTikz.js): every non-overlapping lazy match of
 * `\begin{tikzpicture}[\s\S]*?\end{tikzpicture}`, in source order, numbered from 0.
 * The two scripts differ only in the id prefix ("fig-" and "tikz-fig-").
 */
module TikzFigures {
  import opened Wrappers
  import opened Text
  import opened Seqs

  const BeginTag: String := "\\begin{tikzpicture}"
  const EndTag: String := "\\end{tikzpicture}"

  /** One extracted figure: its id and its code, delimiters included. */
  datatype Figure = Figure(id: String, code: String)

  /** The half-open range `[start, end)` of one match in the LaTeX source. */
  datatype Span = Span(start: nat, end: nat)

  /** `sp` covers a begin tag, then text without an end tag, then the end tag. */
  predicate IsLazyMatch(s: String, sp: Span)
  {
    sp.start + |BeginTag| + |EndTag| <= sp.end <= |s| &&
    OccursAt(s, BeginTag, sp.start) &&
    OccursAt(s, EndTag, sp.end - |EndTag|) &&
    forall j :: sp.start + |BeginTag| <= j < sp.end - |EndTag| ==> !OccursAt(s, EndTag, j)
  }

  /** The matches `RegExp.prototype.exec` returns one by one, as `lastIndex` moves from `from`. */
  function SpansFrom(s: String, from: nat): (r: seq<Span>)
    ensures forall k :: 0 <= k < |r| ==>
      from <= r[k].start && r[k].start + |BeginTag| + |EndTag| <= r[k].end <= |s|
    decreases |s| - from
  {
    match FindDelimited(s, BeginTag, EndTag, from)
    case None => []
    case Some((p, q)) => [Span(p, q + |EndTag|)] + SpansFrom(s, q + |EndTag|)
  }

  /** The figure records the loop produces from `from` on, the first numbered `id`. */
  function FiguresFrom(s: String, prefix: String, from: nat, id: nat): seq<Figure>
    decreases |s| - from
  {
    match FindDelimited(s, BeginTag, EndTag, from)
    case None => []
    case Some((p, q)) =>
      [Figure(prefix + NatToString(id), s[p..q + |EndTag|])] + FiguresFrom(s, prefix, q + |EndTag|, id + 1)
  }

  /** The figures of a whole document, numbered from 0. */
  function Figures(s: String, prefix: String): seq<Figure>
  {
    FiguresFrom(s, prefix, 0, 0)
  }

  /** One `exec` step on the spans: the match at `from` comes first, then those after it. */
  lemma SpansFromNext(s: String, from: nat, p: nat, next: nat)
    requires FindDelimited(s, BeginTag, EndTag, from).Some?
    requires p == FindDelimited(s, BeginTag, EndTag, from).value.0
    requires next == FindDelimited(s, BeginTag, EndTag, from).value.1 + |EndTag|
    ensures SpansFrom(s, from) == [Span(p, next)] + SpansFrom(s, next)
  {
  }

  /** The same step on the figures: the match at `from` becomes figure number `id`. */
  lemma FiguresFromNext(s: String, prefix: String, from: nat, p: nat, next: nat, id: nat, figure: Figure)
    requires FindDelimited(s, BeginTag, EndTag, from).Some?
    requires p == FindDelimited(s, BeginTag, EndTag, from).value.0
    requires next == FindDelimited(s, BeginTag, EndTag, from).value.1 + |EndTag|
    requires figure == Figure(prefix + NatToString(id), s[p..next])
    ensures FiguresFrom(s, prefix, from, id) == [figure] + FiguresFrom(s, prefix, next, id + 1)
  {
  }

  /** The `while ((match = tikzRegex.exec(texContent)) !== null)` loop, with `figureId++`. */
  method ExtractTikzFigures(texContent: String, prefix: String) returns (figures: seq<Figure>)
    ensures figures == Figures(texContent, prefix)
  {
    figures := [];
    var figureId := 0;
    var lastIndex := 0;
    while true
      invariant lastIndex <= |texContent|
      invariant figureId == |figures|
      invariant figures + FiguresFrom(texContent, prefix, lastIndex, figureId) == Figures(texContent, prefix)
      decreases |texContent| - lastIndex
    {
      var m := FindDelimited(texContent, BeginTag, EndTag, lastIndex);
      if m.None? {
        break;
      }
      var next := m.value.1 + |EndTag|;
      var figure := Figure(prefix + NatToString(figureId), texContent[m.value.0..next]);
      FiguresFromNext(texContent, prefix, lastIndex, m.value.0, next, figureId, figure);
      AppendShift(figures, figure, FiguresFrom(texContent, prefix, next, figureId + 1),
        FiguresFrom(texContent, prefix, lastIndex, figureId));
      figures := figures + [figure];
      figureId := figureId + 1;
      lastIndex := next;
    }
  }

  /** The record for span `sp` numbered `n`. */
  function FigureOf(s: String, prefix: String, n: nat, sp: Span): Figure
    requires sp.start <= sp.end <= |s|
  {
    Figure(prefix + NatToString(n), s[sp.start..sp.end])
  }

  /** Prepending a span and its figure keeps figures and spans in pointwise correspondence. */
  lemma ConsFigure(s: String, prefix: String, id: nat, sp: Span, spans: seq<Span>, figs: seq<Figure>)
    requires sp.start <= sp.end <= |s| && |figs| == |spans|
    requires forall k :: 0 <= k < |spans| ==> spans[k].start <= spans[k].end <= |s|
    requires forall k :: 0 <= k < |spans| ==> figs[k] == FigureOf(s, prefix, id + 1 + k, spans[k])
    ensures forall k :: 0 <= k < |spans| + 1 ==>
      ([FigureOf(s, prefix, id, sp)] + figs)[k] == FigureOf(s, prefix, id + k, ([sp] + spans)[k])
  {
    forall k | 0 < k < |spans| + 1
      ensures ([FigureOf(s, prefix, id, sp)] + figs)[k] == FigureOf(s, prefix, id + k, ([sp] + spans)[k])
    {
      assert ([sp] + spans)[k] == spans[k - 1];
    }
  }

  /** The figures are the spans, in order: the k-th is numbered `id + k` and holds span k's text. */
  lemma {:induction false} FiguresFromSpans(s: String, prefix: String, from: nat, id: nat)
    ensures |FiguresFrom(s, prefix, from, id)| == |SpansFrom(s, from)|
    ensures forall k :: 0 <= k < |SpansFrom(s, from)| ==>
      FiguresFrom(s, prefix, from, id)[k] == FigureOf(s, prefix, id + k, SpansFrom(s, from)[k])
    decreases |s| - from
  {
    var m := FindDelimited(s, BeginTag, EndTag, from);
    if m.Some? {
      var p, next := m.value.0, m.value.1 + |EndTag|;
      var sp := Span(p, next);
      SpansFromNext(s, from, p, next);
      FiguresFromNext(s, prefix, from, p, next, id, FigureOf(s, prefix, id, sp));
      FiguresFromSpans(s, prefix, next, id + 1);
      ConsFigure(s, prefix, id, sp, SpansFrom(s, next), FiguresFrom(s, prefix, next, id + 1));
    }
  }

  // ---------------------------------------------------------------------------------------
  // What the extraction promises

  /** Every span is a lazy match: a begin tag, then no end tag, then the first end tag. */
  lemma {:induction false} SpansAreLazyMatches(s: String, from: nat)
    ensures forall k :: 0 <= k < |SpansFrom(s, from)| ==> IsLazyMatch(s, SpansFrom(s, from)[k])
    decreases |s| - from
  {
    var m := FindDelimited(s, BeginTag, EndTag, from);
    if m.Some? {
      var p, next := m.value.0, m.value.1 + |EndTag|;
      SpansFromNext(s, from, p, next);
      FindDelimitedLeftmost(s, BeginTag, EndTag, from);
      assert IsLazyMatch(s, Span(p, next));
      SpansAreLazyMatches(s, next);
      var rest := SpansFrom(s, next);
      forall k | 0 < k < |rest| + 1 ensures IsLazyMatch(s, ([Span(p, next)] + rest)[k]) {
        assert ([Span(p, next)] + rest)[k] == rest[k - 1];
      }
    }
  }

  /** Spans in increasing order that do not overlap. */
  predicate InOrder(r: seq<Span>)
  {
    forall k, k2 :: 0 <= k < k2 < |r| ==> r[k].end <= r[k2].start
  }

  lemma ConsInOrder(sp: Span, rest: seq<Span>)
    requires InOrder(rest)
    requires forall k :: 0 <= k < |rest| ==> sp.end <= rest[k].start
    ensures InOrder([sp] + rest)
  {
    var r := [sp] + rest;
    forall k, k2 | 0 <= k < k2 < |r| ensures r[k].end <= r[k2].start {
      assert r[k2] == rest[k2 - 1];
      if k > 0 {
        assert r[k] == rest[k - 1];
      }
    }
  }

  /** The spans come in source order and do not overlap. */
  lemma {:induction false} SpansOrdered(s: String, from: nat)
    ensures InOrder(SpansFrom(s, from))
    decreases |s| - from
  {
    var m := FindDelimited(s, BeginTag, EndTag, from);
    if m.Some? {
      var p, next := m.value.0, m.value.1 + |EndTag|;
      SpansFromNext(s, from, p, next);
      SpansOrdered(s, next);
      ConsInOrder(Span(p, next), SpansFrom(s, next));
    }
  }

  /**
   * The spans are all the matches: no begin tag is passed over before the first span or
   * between two spans, and after the last span no begin tag is followed by an end tag.
   */
  lemma SpansAreAllMatches(s: String, from: nat)
    ensures var r := SpansFrom(s, from);
      forall j :: from <= j < (if r == [] then from else r[0].start) ==> !OccursAt(s, BeginTag, j)
    ensures var r := SpansFrom(s, from);
      forall k, j :: 0 <= k < |r| - 1 && r[k].end <= j < r[k + 1].start ==> !OccursAt(s, BeginTag, j)
    ensures var r := SpansFrom(s, from);
      var last := if r == [] then from else r[|r| - 1].end;
      forall j, i :: last <= j && j + |BeginTag| <= i && OccursAt(s, BeginTag, j) ==> !OccursAt(s, EndTag, i)
  {
    SpansFirstGap(s, from);
    SpansInnerGaps(s, from);
    SpansTail(s, from);
  }

  /** No begin tag before the first match. */
  lemma SpansFirstGap(s: String, from: nat)
    ensures var r := SpansFrom(s, from);
      forall j :: from <= j < (if r == [] then from else r[0].start) ==> !OccursAt(s, BeginTag, j)
  {
    FindDelimitedLeftmost(s, BeginTag, EndTag, from);
    var m := FindDelimited(s, BeginTag, EndTag, from);
    if m.Some? {
      SpansFromNext(s, from, m.value.0, m.value.1 + |EndTag|);
    }
  }

  /** No begin tag between one match and the next. */
  lemma {:induction false} SpansInnerGaps(s: String, from: nat)
    ensures var r := SpansFrom(s, from);
      forall k, j :: 0 <= k < |r| - 1 && r[k].end <= j < r[k + 1].start ==> !OccursAt(s, BeginTag, j)
    decreases |s| - from
  {
    var m := FindDelimited(s, BeginTag, EndTag, from);
    if m.Some? {
      var next := m.value.1 + |EndTag|;
      SpansFromNext(s, from, m.value.0, next);
      SpansInnerGaps(s, next);
      SpansFirstGap(s, next);
      var r, rest := SpansFrom(s, from), SpansFrom(s, next);
      forall k, j | 0 <= k < |r| - 1 && r[k].end <= j < r[k + 1].start ensures !OccursAt(s, BeginTag, j) {
        assert r[k + 1] == rest[k];
        if k > 0 {
          assert r[k] == rest[k - 1];
        }
      }
    }
  }

  /** After the last match, no begin tag is followed by an end tag. */
  lemma {:induction false} SpansTail(s: String, from: nat)
    ensures var r := SpansFrom(s, from);
      var last := if r == [] then from else r[|r| - 1].end;
      forall j, i :: last <= j && j + |BeginTag| <= i && OccursAt(s, BeginTag, j) ==> !OccursAt(s, EndTag, i)
    decreases |s| - from
  {
    FindDelimitedLeftmost(s, BeginTag, EndTag, from);
    var m := FindDelimited(s, BeginTag, EndTag, from);
    if m.Some? {
      var next := m.value.1 + |EndTag|;
      SpansFromNext(s, from, m.value.0, next);
      SpansTail(s, next);
      var r, rest := SpansFrom(s, from), SpansFrom(s, next);
      if rest != [] {
        assert r[|r| - 1] == rest[|rest| - 1];
      }
    }
  }

  /** Numbering `prefix + k` never gives two positions the same id. */
  lemma NumberedIdsDistinct(figs: seq<Figure>, prefix: String)
    requires forall k :: 0 <= k < |figs| ==> figs[k].id == prefix + NatToString(k)
    ensures forall k, k2 :: 0 <= k < k2 < |figs| ==> figs[k].id != figs[k2].id
  {
    forall k, k2 | 0 <= k < k2 < |figs| ensures figs[k].id != figs[k2].id {
      if figs[k].id == figs[k2].id {
        assert NatToString(k) == figs[k].id[|prefix|..];
        assert NatToString(k2) == figs[k2].id[|prefix|..];
        NatToStringInjective(k, k2);
      }
    }
  }

  /** Records built by `FigureOf` at positions 0, 1, ... carry the ids prefix + "0", "1", .... */
  lemma FigureOfIds(s: String, prefix: String, figs: seq<Figure>, spans: seq<Span>)
    requires |figs| == |spans|
    requires forall k :: 0 <= k < |spans| ==> spans[k].start <= spans[k].end <= |s|
    requires forall k :: 0 <= k < |spans| ==> figs[k] == FigureOf(s, prefix, k, spans[k])
    ensures forall k :: 0 <= k < |figs| ==> figs[k].id == prefix + NatToString(k)
  {
  }

  /** Figure ids are prefix + "0", "1", ... with no gaps, hence pairwise distinct. */
  lemma FigureIdsSequential(s: String, prefix: String)
    ensures forall k :: 0 <= k < |Figures(s, prefix)| ==> Figures(s, prefix)[k].id == prefix + NatToString(k)
    ensures forall k, k2 :: 0 <= k < k2 < |Figures(s, prefix)| ==> Figures(s, prefix)[k].id != Figures(s, prefix)[k2].id
  {
    FiguresFromSpans(s, prefix, 0, 0);
    FigureOfIds(s, prefix, Figures(s, prefix), SpansFrom(s, 0));
    NumberedIdsDistinct(Figures(s, prefix), prefix);
  }

  /** The text of a lazy match starts with the begin tag and ends at its first end tag. */
  lemma LazyMatchText(s: String, sp: Span)
    requires IsLazyMatch(s, sp)
    ensures var code := s[sp.start..sp.end];
      StartsWith(code, BeginTag) && EndsWith(code, EndTag) && |BeginTag| + |EndTag| <= |code| &&
      forall j :: |BeginTag| <= j < |code| - |EndTag| ==> !OccursAt(code, EndTag, j)
  {
    var code := s[sp.start..sp.end];
    OccursInSlice(s, sp.start, sp.end, BeginTag, 0);
    assert code[|code| - |EndTag|..] == s[sp.end - |EndTag|..sp.end];
    forall j | |BeginTag| <= j < |code| - |EndTag| ensures !OccursAt(code, EndTag, j) {
      OccursInSlice(s, sp.start, sp.end, EndTag, j);
    }
  }

  /**
   * Each figure's code is its span of the source: it begins with the begin tag and ends at
   * the first end tag after it.
   */
  lemma FigureCodesDelimited(s: String, prefix: String)
    ensures |Figures(s, prefix)| == |SpansFrom(s, 0)|
    ensures forall k :: 0 <= k < |Figures(s, prefix)| ==>
      var sp := SpansFrom(s, 0)[k];
      Figures(s, prefix)[k].code == s[sp.start..sp.end]
    ensures forall k :: 0 <= k < |Figures(s, prefix)| ==>
      var code := Figures(s, prefix)[k].code;
      StartsWith(code, BeginTag) && EndsWith(code, EndTag) && |BeginTag| + |EndTag| <= |code| &&
      forall j :: |BeginTag| <= j < |code| - |EndTag| ==> !OccursAt(code, EndTag, j)
  {
    FiguresFromSpans(s, prefix, 0, 0);
    SpansAreLazyMatches(s, 0);
    var figs, spans := Figures(s, prefix), SpansFrom(s, 0);
    forall k | 0 <= k < |figs|
      ensures var code := figs[k].code;
        StartsWith(code, BeginTag) && EndsWith(code, EndTag) && |BeginTag| + |EndTag| <= |code| &&
        forall j :: |BeginTag| <= j < |code| - |EndTag| ==> !OccursAt(code, EndTag, j)
    {
      LazyMatchText(s, spans[k]);
    }
  }

  /** No figures exactly when no begin tag is ever followed by an end tag. */
  lemma NoFiguresIff(s: String, prefix: String)
    ensures Figures(s, prefix) == [] <==>
      forall j: nat, i: nat :: j + |BeginTag| <= i && OccursAt(s, BeginTag, j) ==> !OccursAt(s, EndTag, i)
  {
    FiguresFromSpans(s, prefix, 0, 0);
    var spans := SpansFrom(s, 0);
    if spans == [] {
      SpansAreAllMatches(s, 0);
    } else {
      SpansAreLazyMatches(s, 0);
      var sp := spans[0];
      assert IsLazyMatch(s, sp);
      var j, i := sp.start, sp.end - |EndTag|;
      assert j + |BeginTag| <= i && OccursAt(s, BeginTag, j) && OccursAt(s, EndTag, i);
    }
  }
}
