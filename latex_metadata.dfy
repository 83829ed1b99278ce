/**
 * Metadata and excerpt of a LaTeX post (`extractLatexMetadata` and the excerpt code of
 * scripts/buildBlogs.mjs). Each regular expression of the script is written out as a
 * scanner over the characters it inspects.
 */
module LatexMetadata {
  import opened Wrappers
  import opened Text

  // ---------------------------------------------------------------------------------------
  // Header commands: `texContent.match(/\\title\{([^}]+)\}/)` and its two siblings

  const TitleOpen: String := "\\title{"
  const AuthorOpen: String := "\\author{"
  const DateOpen: String := "\\date{"

  /**
   * The capture of `open([^}]+)}` if the regex matches at `i`: the greedy `[^}]+` runs to the
   * first `}` after `open`, and it must be non-empty.
   */
  function ArgAt(s: String, open: String, i: nat): (r: Option<String>)
    ensures r.Some? ==> r.value != [] && '}' !in r.value
  {
    if !OccursAt(s, open, i) then None
    else
      match FindChar(s, '}', i + |open|)
      case None => None
      case Some(c) => if c == i + |open| then None else Some(s[i + |open|..c])
  }

  /** The regex matches at `i` with capture `v` exactly when `open + v + "}"` occurs there. */
  lemma ArgAtIff(s: String, open: String, i: nat, v: String)
    ensures ArgAt(s, open, i) == Some(v) <==>
      v != [] && '}' !in v && OccursAt(s, open + v + "}", i)
  {
    var w := open + v + "}";
    var b := i + |open|;
    if ArgAt(s, open, i) == Some(v) {
      var c := FindChar(s, '}', b).value;
      assert c == b + |v|;
      assert s[i..i + |w|] == s[i..b] + s[b..c] + [s[c]];
    }
    if v != [] && '}' !in v && OccursAt(s, w, i) {
      ArgOccurrence(s, open, i, v);
    }
  }

  /** An occurrence of `open + v + "}"` with `v` free of `}` is a match capturing `v`. */
  lemma ArgOccurrence(s: String, open: String, i: nat, v: String)
    requires v != [] && '}' !in v && OccursAt(s, open + v + "}", i)
    ensures ArgAt(s, open, i) == Some(v)
  {
    var w := open + v + "}";
    var b := i + |open|;
    assert forall k :: 0 <= k < |w| ==> s[i + k] == w[k];
    assert forall k :: 0 <= k < |open| ==> w[k] == open[k];
    assert forall k :: 0 <= k < |v| ==> w[|open| + k] == v[k];
    assert w[|w| - 1] == '}';
    assert s[i..b] == open;
    forall j | b <= j < b + |v| ensures s[j] != '}' && s[j] == v[j - b] {
      assert s[j] == w[|open| + (j - b)];
    }
    assert s[b + |v|] == '}';
    assert FindChar(s, '}', b) == Some(b + |v|);
    assert s[b..b + |v|] == v;
  }

  /** There is no match at or past the end of the text. */
  lemma ArgAtBeyond(s: String, open: String, j: nat)
    requires |s| <= j
    ensures ArgAt(s, open, j).None?
  {
    assert FindChar(s, '}', j + |open|).None?;
  }

  /** The position of the leftmost match at or after `from`. */
  function FirstArgIndex(s: String, open: String, from: nat): (r: Option<nat>)
    ensures r.Some? ==> from <= r.value && ArgAt(s, open, r.value).Some?
    decreases |s| - from
  {
    if from >= |s| then None
    else if ArgAt(s, open, from).Some? then Some(from)
    else FirstArgIndex(s, open, from + 1)
  }

  /** `FirstArgIndex` skips no match, and `None` means there is none. */
  lemma {:induction false} FirstArgIndexLeftmost(s: String, open: String, from: nat)
    ensures FirstArgIndex(s, open, from).Some? ==>
      forall j :: from <= j < FirstArgIndex(s, open, from).value ==> ArgAt(s, open, j).None?
    ensures FirstArgIndex(s, open, from).None? ==> forall j: nat :: from <= j ==> ArgAt(s, open, j).None?
    decreases |s| - from
  {
    if from >= |s| {
      forall j: nat | from <= j ensures ArgAt(s, open, j).None? {
        ArgAtBeyond(s, open, j);
      }
    } else if ArgAt(s, open, from).None? {
      FirstArgIndexLeftmost(s, open, from + 1);
    }
  }

  /** The capture of the leftmost match, if any. */
  function CommandArg(s: String, open: String): (r: Option<String>)
    ensures r.Some? ==> r.value != [] && '}' !in r.value
  {
    match FirstArgIndex(s, open, 0)
    case None => None
    case Some(i) => ArgAt(s, open, i)
  }

  /** A header field: the capture of its command, or the default. */
  function Field(s: String, open: String, default: String): String
  {
    CommandArg(s, open).GetOr(default)
  }

  datatype LatexMeta = LatexMeta(title: String, author: String, date: String)

  /** `extractLatexMetadata`, with the build date passed in as `today`. */
  function ExtractLatexMetadata(texContent: String, today: String): (m: LatexMeta)
    ensures m.title != [] && m.author != []
    ensures today != [] ==> m.date != []
  {
    LatexMeta(Field(texContent, TitleOpen, "Untitled"),
              Field(texContent, AuthorOpen, "Unknown"),
              Field(texContent, DateOpen, today))
  }

  /**
   * A field is the capture of the leftmost `open…}` whose argument is non-empty and free of
   * `}`; when no such text occurs anywhere, it is the default.
   */
  lemma FieldIsLeftmostCapture(s: String, open: String, default: String)
    ensures CommandArg(s, open).Some? ==>
      var v := Field(s, open, default);
      exists i: nat :: OccursAt(s, open + v + "}", i) &&
        forall j: nat, w: String :: j < i && w != [] && '}' !in w ==> !OccursAt(s, open + w + "}", j)
    ensures CommandArg(s, open).None? ==>
      Field(s, open, default) == default &&
      forall j: nat, w: String :: w != [] && '}' !in w ==> !OccursAt(s, open + w + "}", j)
  {
    FirstArgIndexLeftmost(s, open, 0);
    match FirstArgIndex(s, open, 0)
    case None =>
      forall j: nat, w: String | w != [] && '}' !in w ensures !OccursAt(s, open + w + "}", j) {
        ArgAtIff(s, open, j, w);
      }
    case Some(i) =>
      var v := ArgAt(s, open, i).value;
      assert Field(s, open, default) == v;
      ArgAtIff(s, open, i, v);
      forall j: nat, w: String | j < i && w != [] && '}' !in w ensures !OccursAt(s, open + w + "}", j) {
        ArgAtIff(s, open, j, w);
      }
      assert OccursAt(s, open + v + "}", i);
  }

  /**
   * The three fields are independent: each depends on its own command only, and the build
   * date is used exactly when there is no `\date{…}`.
   */
  lemma MetadataFieldsIndependent(s: String, today: String, today2: String)
    ensures ExtractLatexMetadata(s, today).title == ExtractLatexMetadata(s, today2).title
    ensures ExtractLatexMetadata(s, today).author == ExtractLatexMetadata(s, today2).author
    ensures CommandArg(s, DateOpen).None? ==> ExtractLatexMetadata(s, today).date == today
    ensures CommandArg(s, DateOpen).Some? ==>
      ExtractLatexMetadata(s, today).date == ExtractLatexMetadata(s, today2).date
  {
  }

  // ---------------------------------------------------------------------------------------
  // Excerpt source: the abstract, else the text between \maketitle and the next \section

  const AbstractOpen: String := "\\begin{abstract}"
  const AbstractClose: String := "\\end{abstract}"
  const MaketitleTag: String := "\\maketitle"
  const SectionTag: String := "\\section"

  /** `abstractMatch ? abstractMatch[1].trim() : ""` for the lazy abstract regex. */
  function AbstractText(tex: String): String
  {
    match FindDelimited(tex, AbstractOpen, AbstractClose, 0)
    case None => ""
    case Some((p, q)) => Trim(tex[p + |AbstractOpen|..q])
  }

  /**
   * `contentMatch[0].replace(/\\maketitle/, '').replace(/\\section/, '').trim()` for the lazy
   * match of `\\maketitle[\s\S]*?\\section`, or "" without a match.
   */
  function MaketitleText(tex: String): String
  {
    MarkedText(tex, MaketitleTag, SectionTag)
  }

  /** The lazy match of `open[\s\S]*?close` with each marker replaced once by nothing, trimmed. */
  function MarkedText(tex: String, open: String, close: String): String
  {
    match FindDelimited(tex, open, close, 0)
    case None => ""
    case Some((p, q)) => TrimUnmarked(tex, open, close, p, q)
  }

  /** The trimmed match `tex[p..q + |close|]` with its markers removed. */
  function TrimUnmarked(tex: String, open: String, close: String, p: nat, q: nat): String
    requires p <= q + |close| <= |tex|
  {
    Trim(Unmark(tex[p..q + |close|], open, close))
  }

  /** The two `replace` calls on the match: the first `open` and then the first `close` are deleted. */
  function Unmark(m: String, open: String, close: String): String
  {
    ReplaceFirst(ReplaceFirst(m, open, ""), close, "")
  }

  /** `replace(tag, '')` on a text that starts with `tag` drops that prefix. */
  lemma ReplaceLeading(whole: String, tag: String)
    requires OccursAt(whole, tag, 0)
    ensures ReplaceFirst(whole, tag, "") == whole[|tag|..]
  {
    IndexOfFromIs(whole, tag, 0, 0);
  }

  /** `replace(tag, '')` on a text whose first occurrence of `tag` ends it drops that suffix. */
  lemma ReplaceTrailing(rest: String, tag: String, k: nat)
    requires k + |tag| == |rest| && OccursAt(rest, tag, k)
    requires forall j :: 0 <= j < k ==> !OccursAt(rest, tag, j)
    ensures ReplaceFirst(rest, tag, "") == rest[..k]
  {
    IndexOfFromIs(rest, tag, 0, k);
    assert rest[k + |tag|..] == [];
  }

  /** The matched text minus the opening marker is the text after it, up to the end of the match. */
  lemma MarkedRest(tex: String, open: String, close: String, p: nat, q: nat)
    requires FindDelimited(tex, open, close, 0) == Some((p, q))
    ensures ReplaceFirst(tex[p..q + |close|], open, "") == tex[p + |open|..q + |close|]
  {
    var e := q + |close|;
    OccursInSlice(tex, p, e, open, 0);
    ReplaceLeading(tex[p..e], open);
    assert tex[p..e][|open|..] == tex[p + |open|..e];
  }

  /** In the text after the opening marker, the first closing marker is the one that ends the match. */
  lemma MarkedClose(tex: String, open: String, close: String, p: nat, q: nat, rest: String)
    requires FindDelimited(tex, open, close, 0) == Some((p, q))
    requires rest == tex[p + |open|..q + |close|]
    ensures ReplaceFirst(rest, close, "") == tex[p + |open|..q]
  {
    var a := p + |open|;
    var e := q + |close|;
    var k := q - a;
    FindDelimitedLeftmost(tex, open, close, 0);
    forall j | 0 <= j < k ensures !OccursAt(rest, close, j) {
      OccursInSlice(tex, a, e, close, j);
    }
    OccursInSlice(tex, a, e, close, k);
    ReplaceTrailing(rest, close, k);
  }

  /** Removing both markers from the match leaves exactly the text between them. */
  lemma MarkedTextBetween(tex: String, open: String, close: String, p: nat, q: nat)
    requires FindDelimited(tex, open, close, 0) == Some((p, q))
    ensures MarkedText(tex, open, close) == Trim(tex[p + |open|..q])
  {
    MarkedTextAt(tex, open, close, p, q);
    UnmarkBetween(tex, open, close, p, q);
  }

  lemma {:induction false} UnmarkBetween(tex: String, open: String, close: String, p: nat, q: nat)
    requires FindDelimited(tex, open, close, 0) == Some((p, q))
    ensures Unmark(tex[p..q + |close|], open, close) == tex[p + |open|..q]
  {
    MarkedRest(tex, open, close, p, q);
    MarkedClose(tex, open, close, p, q, tex[p + |open|..q + |close|]);
  }

  lemma {:induction false} MarkedTextAt(tex: String, open: String, close: String, p: nat, q: nat)
    requires FindDelimited(tex, open, close, 0) == Some((p, q))
    ensures MarkedText(tex, open, close) == Trim(Unmark(tex[p..q + |close|], open, close))
  {
    assert MarkedText(tex, open, close) == TrimUnmarked(tex, open, close, p, q);
  }

  /** The `\maketitle` text is the trimmed text between the marker and the first `\section` after it. */
  lemma MaketitleTextBetween(tex: String, p: nat, q: nat)
    requires FindDelimited(tex, MaketitleTag, SectionTag, 0) == Some((p, q))
    ensures MaketitleText(tex) == Trim(tex[p + |MaketitleTag|..q])
  {
    MarkedTextBetween(tex, MaketitleTag, SectionTag, p, q);
  }

  /** `excerpt` after the two tiers: the abstract if it is non-empty after trimming, else the second tier. */
  function ExcerptSource(tex: String): String
  {
    var a := AbstractText(tex);
    if a != [] then a else MaketitleText(tex)
  }

  /**
   * The excerpt source is the trimmed body of the first abstract environment when that is
   * not blank; otherwise the trimmed text between the first `\maketitle` and the `\section`
   * after it; otherwise empty.
   */
  lemma ExcerptSourceCases(tex: String)
    ensures var am := FindDelimited(tex, AbstractOpen, AbstractClose, 0);
      am.Some? && Trim(tex[am.value.0 + |AbstractOpen|..am.value.1]) != [] ==>
        ExcerptSource(tex) == Trim(tex[am.value.0 + |AbstractOpen|..am.value.1])
    ensures var am := FindDelimited(tex, AbstractOpen, AbstractClose, 0);
      var mm := FindDelimited(tex, MaketitleTag, SectionTag, 0);
      (am.None? || Trim(tex[am.value.0 + |AbstractOpen|..am.value.1]) == []) ==>
        ExcerptSource(tex) == if mm.Some? then Trim(tex[mm.value.0 + |MaketitleTag|..mm.value.1]) else ""
  {
    var mm := FindDelimited(tex, MaketitleTag, SectionTag, 0);
    if mm.Some? {
      MaketitleTextBetween(tex, mm.value.0, mm.value.1);
    }
  }

  // ---------------------------------------------------------------------------------------
  // The sanitiser: five `.replace` calls, `trim()` and `substring(0, 200)`

  const BeginOpen: String := "\\begin{"
  const EndOpen: String := "\\end{"
  const MaxExcerpt: nat := 200
  const MinExcerpt: nat := 20
  const Placeholder: String := "Click to read more..."

  /** `replace(/<open>[^}]+\}/g, '')`: every match, scanned left to right, is deleted. */
  function RemoveTags(s: String, open: String): (r: String)
    ensures |r| <= |s|
    ensures forall i :: 0 <= i < |r| ==> r[i] in s
    decreases |s|
  {
    if s == [] then []
    else
      match ArgAt(s, open, 0)
      case Some(v) =>
        var rest := RemoveTags(s[|open| + |v| + 1..], open);
        assert forall i :: 0 <= i < |rest| ==> rest[i] in s;
        rest
      case None =>
        var rest := RemoveTags(s[1..], open);
        assert forall i :: 0 <= i < |rest| ==> rest[i] in s;
        [s[0]] + rest
  }

  /** The end of the greedy letter run `[a-zA-Z]+` starting at `i` (`i` itself when none). */
  function LetterRunEnd(s: String, i: nat): (j: nat)
    ensures i <= j && (j <= |s| || j == i)
    ensures forall k :: i <= k < j ==> IsLetter(s[k])
    ensures j < |s| ==> !IsLetter(s[j])
    decreases |s| - i
  {
    if i < |s| && IsLetter(s[i]) then LetterRunEnd(s, i + 1) else i
  }

  /** An optional group `open[^close]*close` at `j`: where the regex resumes after it. */
  function OptionalGroupEnd(s: String, j: nat, open: char, close: char): (k: nat)
    ensures j <= k && (j <= |s| ==> k <= |s|)
    ensures k > j ==> j < |s| && s[j] == open && s[k - 1] == close
  {
    if j < |s| && s[j] == open then
      match FindChar(s, close, j + 1)
      case Some(c) => c + 1
      case None => j
    else j
  }

  /**
   * Where the match of `\\[a-zA-Z]+(\[[^\]]*\])?(\{[^}]*\})?` starting at `i` ends: a
   * backslash, the longest letter run, then whichever optional groups are present.
   */
  function CommandEnd(s: String, i: nat): (r: Option<nat>)
    ensures r.Some? <==> i + 1 < |s| && s[i] == '\\' && IsLetter(s[i + 1])
    ensures r.Some? ==> i + 2 <= r.value <= |s|
  {
    if i + 1 < |s| && s[i] == '\\' && IsLetter(s[i + 1]) then
      var j := LetterRunEnd(s, i + 1);
      var k := OptionalGroupEnd(s, j, '[', ']');
      Some(OptionalGroupEnd(s, k, '{', '}'))
    else None
  }

  /** No backslash directly followed by a letter: no command is left to replace. */
  predicate NoCommand(s: String)
  {
    forall i :: 0 <= i < |s| - 1 ==> !(s[i] == '\\' && IsLetter(s[i + 1]))
  }

  /** `replace(/\\[a-zA-Z]+.../g, ' ')`: every command, with its optional arguments, becomes one space. */
  function ReplaceCommands(s: String): (r: String)
    ensures |r| <= |s|
    ensures NoCommand(r)
    ensures r != [] ==> r[0] == ' ' || r[0] == s[0]
    ensures forall i :: 0 <= i < |r| ==> r[i] == ' ' || r[i] in s
    decreases |s|
  {
    if s == [] then []
    else
      match CommandEnd(s, 0)
      case Some(e) =>
        var rest := ReplaceCommands(s[e..]);
        assert forall i :: 0 <= i < |rest| ==> rest[i] == ' ' || rest[i] in s;
        [' '] + rest
      case None =>
        var rest := ReplaceCommands(s[1..]);
        assert forall i :: 0 <= i < |rest| ==> rest[i] == ' ' || rest[i] in s;
        [s[0]] + rest
  }

  /** The whole cleaning chain of lines 159-166. */
  function Clean(excerpt: String): String
  {
    var noTags := RemoveTags(RemoveTags(excerpt, BeginOpen), EndOpen);
    Finish(RemoveChars(ReplaceCommands(noTags), {'{', '}'}))
  }

  /** The last three steps: collapse whitespace runs, trim, keep the first 200 characters. */
  function Finish(noBraces: String): String
  {
    var t := Trim(CollapseSpaces(noBraces));
    t[..if |t| < MaxExcerpt then |t| else MaxExcerpt]
  }

  /** Text without braces or line breaks whose only whitespace is single spaces. */
  predicate Sanitised(s: String)
  {
    (forall i :: 0 <= i < |s| ==> s[i] != '{' && s[i] != '}' && s[i] != '\n') &&
    (forall i :: 0 <= i < |s| && IsSpace(s[i]) ==> s[i] == ' ') &&
    NoDoubleSpace(s)
  }

  lemma {:induction false} SanitisedSlice(s: String, a: nat, b: nat, t: String)
    requires a <= b <= |s| && Sanitised(s) && t == s[a..b]
    ensures Sanitised(t)
  {
    forall i | 0 <= i < |t| - 1 ensures !(IsSpace(t[i]) && IsSpace(t[i + 1])) {
      assert t[i] == s[a + i] && t[i + 1] == s[a + i + 1];
    }
  }

  /** Collapsing the whitespace of a brace-free text sanitises it. */
  lemma CollapseSanitises(n: String)
    requires forall i :: 0 <= i < |n| ==> n[i] != '{' && n[i] != '}'
    ensures Sanitised(CollapseSpaces(n))
  {
    var c := CollapseSpaces(n);
    forall i | 0 <= i < |c| ensures c[i] != '{' && c[i] != '}' && c[i] != '\n' {
      if !IsSpace(c[i]) {
        assert c[i] in n;
      }
    }
  }

  /** Trimming and cutting to 200 characters keeps a text sanitised. */
  lemma {:induction false} TrimCutSanitises(c: String)
    requires Sanitised(c)
    ensures var t := Trim(c); Sanitised(t[..if |t| < MaxExcerpt then |t| else MaxExcerpt])
  {
    var t := Trim(c);
    TrimSanitises(c, t);
    var n := if |t| < MaxExcerpt then |t| else MaxExcerpt;
    SanitisedSlice(t, 0, n, t[..n]);
  }

  lemma {:induction false} TrimSanitises(c: String, t: String)
    requires Sanitised(c) && t == Trim(c)
    ensures Sanitised(t)
  {
    TrimSlice(c);
    var off := |c| - |TrimStart(c)|;
    SanitisedSlice(c, off, off + |t|, t);
  }

  /**
   * The cleaned excerpt has no `{`, `}` or newline, no two whitespace characters in a row,
   * at most 200 characters, and does not start with whitespace.
   */
  lemma CleanSanitises(excerpt: String)
    ensures Sanitised(Clean(excerpt))
    ensures |Clean(excerpt)| <= MaxExcerpt
    ensures Clean(excerpt) == [] || !IsSpace(Clean(excerpt)[0])
  {
    var noTags := RemoveTags(RemoveTags(excerpt, BeginOpen), EndOpen);
    FinishSanitises(RemoveChars(ReplaceCommands(noTags), {'{', '}'}));
  }

  /** Finishing a brace-free text sanitises it, bounds it and leaves no leading whitespace. */
  lemma FinishSanitises(n: String)
    requires forall i :: 0 <= i < |n| ==> n[i] != '{' && n[i] != '}'
    ensures Sanitised(Finish(n))
    ensures |Finish(n)| <= MaxExcerpt
    ensures Finish(n) == [] || !IsSpace(Finish(n)[0])
  {
    CollapseSanitises(n);
    TrimCutSanitises(CollapseSpaces(n));
  }

  /** `if (!excerpt || excerpt.length < 20) excerpt = "Click to read more..."`. */
  function FinalExcerpt(cleaned: String): String
  {
    if cleaned == [] || |cleaned| < MinExcerpt then Placeholder else cleaned
  }

  /** The excerpt stored in the metadata record of a post. */
  function Excerpt(tex: String): String
  {
    FinalExcerpt(Clean(ExcerptSource(tex)))
  }

  /**
   * The stored excerpt has 20 to 200 characters, and it is the placeholder exactly when the
   * cleaned text is shorter than 20 characters or is itself the placeholder text.
   */
  lemma ExcerptBounds(tex: String)
    ensures MinExcerpt <= |Excerpt(tex)| <= MaxExcerpt
    ensures Excerpt(tex) == Placeholder <==>
      |Clean(ExcerptSource(tex))| < MinExcerpt || Clean(ExcerptSource(tex)) == Placeholder
    ensures Excerpt(tex) != Placeholder ==> Excerpt(tex) == Clean(ExcerptSource(tex))
  {
    CleanSanitises(ExcerptSource(tex));
  }
}
