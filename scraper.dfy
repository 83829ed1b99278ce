/**
 * The publication scraper scrape_publications.py, over pages that are already parsed: an
 * element stands for a BeautifulSoup element by its text and its anchors, an entry of a
 * CBMM page by the texts and attributes the scraper reads from it. The old CBCL page carries
 * the current year from one element to the next; the CBMM entries are taken one at a time;
 * `main` concatenates all pages, keeps one record per title and sorts by year.
 */
module Scraper {
  import opened Wrappers
  import opened Text
  import opened Seqs

  /** A record of publications.json; `link` is `null` when the anchor has no `href`. */
  datatype Pub = Pub(title: String, authors: String, venue: String, year: String, link: Option<String>)

  // ---------------------------------------------------------------------------------------
  // parse_old_cbcl

  /** An `<a>` element: its `href` attribute, if any, and its text. */
  datatype Anchor = Anchor(href: Option<String>, text: String)

  /** A `p`, `h3`, `h4` or `div` element of the content: `get_text()` and its anchors in order. */
  datatype Element = Element(text: String, anchors: seq<Anchor>)

  /** `re.match(r'^\d{4}:?$', text)`: four digits and an optional colon, nothing else. */
  predicate IsYearHeader(text: String)
  {
    (|text| == 4 || (|text| == 5 && text[4] == ':')) && AllDigits(text[..4])
  }

  /** `text.replace(':', '').strip()`. */
  function HeaderYear(text: String): String
  {
    Trim(RemoveChars(text, {':'}))
  }

  /** The year a header sets is its four digits. */
  lemma HeaderYearDigits(text: String)
    requires IsYearHeader(text)
    ensures HeaderYear(text) == text[..4]
    ensures |HeaderYear(text)| == 4 && AllDigits(HeaderYear(text))
  {
    var d := text[..4];
    if |text| == 5 {
      ColonDropped(text, d);
    } else {
      assert text == d;
    }
    DigitsKept(d);
  }

  lemma DigitsKept(d: String)
    requires AllDigits(d)
    ensures RemoveChars(d, {':'}) == d && Trim(d) == d
  {
    assert forall i :: 0 <= i < |d| ==> d[i] !in {':'};
    assert NoSpaceIn(d);
    TrimNoSpace(d);
  }

  lemma ColonDropped(text: String, d: String)
    requires |text| == 5 && text[4] == ':' && d == text[..4]
    ensures RemoveChars(text, {':'}) == RemoveChars(d, {':'})
  {
    assert text == d + [':'];
    RemoveCharsConcat(d, [':'], {':'});
    assert RemoveChars([':'], {':'}) == [];
  }

  /** The characters `rstrip('.,[]')` removes from the authors. */
  const AuthorTail: set<char> := {'.', ',', '[', ']'}

  /** The characters `strip(' .,')` removes from the venue. */
  const VenueEnds: set<char> := {' ', '.', ','}

  /** `re.sub(r'^\d+\.?\s*', '', s)`: a leading number, an optional dot and the spaces after it. */
  function DropNumbering(s: String): (r: String)
    ensures |r| <= |s| && r == s[|s| - |r|..]
  {
    if s != [] && IsDigit(s[0]) then
      var j := DigitsEnd(s, 0);
      var k := if j < |s| && s[j] == '.' then j + 1 else j;
      s[SkipSpaces(s, k)..]
    else s
  }

  /**
   * What the numbering removal takes off is a non-empty digit run, at most one dot and a
   * whitespace run, and what it leaves does not start with whitespace; text that does not
   * start with a digit is left alone.
   */
  lemma DropNumberingRemoves(s: String)
    ensures var r := DropNumbering(s);
      var n := |s| - |r|;
      (s == [] || !IsDigit(s[0]) ==> r == s) &&
      (s != [] && IsDigit(s[0]) ==>
        n > 0 && (r == [] || !IsSpace(r[0])) &&
        forall k :: 0 <= k < n ==> IsDigit(s[k]) || s[k] == '.' || IsSpace(s[k]))
  {
  }

  /**
   * The authors and the venue text of an old entry (lines 45-53): split at the first
   * occurrence of the (non-empty) title, or "Unknown" and the whole text without one.
   */
  function OldAuthorsVenue(fullText: String, title: String): (String, String)
    requires title != []
  {
    match IndexOf(fullText, title)
    case Some(i) =>
      (Trim(DropNumbering(StripEnd(Trim(fullText[..i]), AuthorTail))),
       Strip(Trim(fullText[i + |title|..]), VenueEnds))
    case None => ("Unknown", Strip(fullText, VenueEnds))
  }

  /**
   * The authors never start or end with whitespace, and the venue never starts or ends with
   * a space, a dot or a comma; when the title does not occur in the text, the authors are
   * "Unknown" and the venue is the whole text stripped.
   */
  lemma OldAuthorsVenueEnds(fullText: String, title: String)
    requires title != []
    ensures var (authors, venue) := OldAuthorsVenue(fullText, title);
      (authors == [] || (!IsSpace(authors[0]) && !IsSpace(authors[|authors| - 1]))) &&
      (venue == [] || (venue[0] !in VenueEnds && venue[|venue| - 1] !in VenueEnds)) &&
      (IndexOf(fullText, title).None? ==> authors == "Unknown" && venue == Strip(fullText, VenueEnds))
  {
  }

  /**
   * When the title occurs in the text, the authors are one contiguous piece of the text before
   * its first occurrence and the venue one contiguous piece of the text after it.
   */
  lemma OldAuthorsVenuePieces(fullText: String, title: String, i: nat) returns (a: nat, v: nat)
    requires title != [] && IndexOf(fullText, title) == Some(i)
    ensures OccursAt(fullText, title, i)
    ensures var (authors, venue) := OldAuthorsVenue(fullText, title);
      a + |authors| <= i && PieceAt(fullText, authors, a) &&
      i + |title| <= v && PieceAt(fullText, venue, v)
  {
    var before := fullText[..i];
    var t1 := Trim(before);
    var t2 := StripEnd(t1, AuthorTail);
    var t3 := DropNumbering(t2);
    a := AuthorsPiece(fullText, i, before, t1, t2, t3, Trim(t3));
    var after := fullText[i + |title|..];
    v := VenuePiece(fullText, i + |title|, after, Strip(Trim(after), VenueEnds));
  }

  /** The authors text is a piece of the text before the title. */
  lemma AuthorsPiece(fullText: String, i: nat, before: String, t1: String, t2: String, t3: String,
                     authors: String) returns (a: nat)
    requires i <= |fullText| && before == fullText[..i]
    requires t1 == Trim(before) && t2 == StripEnd(t1, AuthorTail) && t3 == DropNumbering(t2)
    requires authors == Trim(t3)
    ensures a + |authors| <= i && PieceAt(fullText, authors, a)
  {
    assert PieceAt(before, before, 0);
    var o1 := StripOfPiece(before, before, 0, Whitespace, t1);
    StripEndOfPiece(before, t1, o1, AuthorTail, t2);
    var o3 := DropNumberingOfPiece(before, t2, o1, t3);
    a := StripOfPiece(before, t3, o3, Whitespace, authors);
    PrefixPiece(fullText, i);
    PieceCompose(fullText, before, 0, authors, a);
  }

  lemma DropNumberingOfPiece(s: String, t: String, a: nat, u: String) returns (b: nat)
    requires PieceAt(s, t, a) && u == DropNumbering(t)
    ensures PieceAt(s, u, b)
  {
    b := a + |t| - |u|;
  }

  /** The venue text is a piece of the text after the title. */
  lemma VenuePiece(fullText: String, j: nat, after: String, venue: String) returns (v: nat)
    requires j <= |fullText| && after == fullText[j..] && venue == Strip(Trim(after), VenueEnds)
    ensures j <= v && PieceAt(fullText, venue, v)
  {
    SuffixPiece(fullText, j);
    var t1 := Trim(after);
    var o1 := StripOfPiece(fullText, after, j, Whitespace, t1);
    v := StripOfPiece(fullText, t1, o1, VenueEnds, venue);
  }

  /** The record of an element after a year header whose first anchor has a non-empty text. */
  function OldEntry(e: Element, title: String, year: String): Pub
    requires e.anchors != [] && title != []
  {
    var (authors, venue) := OldAuthorsVenue(e.text, title);
    Pub(title, authors, venue, year, e.anchors[0].href)
  }

  /** The loop state of `parse_old_cbcl`: the current year and the records so far. */
  datatype OldScan = OldScan(currentYear: String, pubs: seq<Pub>)

  /**
   * One element of the loop (lines 27-62). `None` is the `ValueError` `split` raises when the
   * first anchor's text is empty, which nothing catches.
   */
  function OldStep(st: OldScan, e: Element): (r: Option<OldScan>)
    ensures r.None? <==>
      !IsYearHeader(Trim(e.text)) && st.currentYear != [] && e.anchors != [] && Trim(e.anchors[0].text) == []
    ensures r.Some? ==> |st.pubs| <= |r.value.pubs| <= |st.pubs| + 1 && r.value.pubs[..|st.pubs|] == st.pubs
    ensures r.Some? && IsYearHeader(Trim(e.text)) ==>
      r.value == OldScan(HeaderYear(Trim(e.text)), st.pubs)
    ensures r.Some? && |r.value.pubs| > |st.pubs| ==>
      st.currentYear != [] && e.anchors != [] && r.value.currentYear == st.currentYear &&
      r.value.pubs[|st.pubs|] == OldEntry(e, Trim(e.anchors[0].text), st.currentYear)
  {
    var text := Trim(e.text);
    if IsYearHeader(text) then Some(OldScan(HeaderYear(text), st.pubs))
    else if st.currentYear == [] || e.anchors == [] then Some(st)
    else
      var title := Trim(e.anchors[0].text);
      if title == [] then None
      else Some(OldScan(st.currentYear, st.pubs + [OldEntry(e, title, st.currentYear)]))
  }

  /** The loop over the first `|es|` elements, or `None` once one of them has raised. */
  function OldRun(es: seq<Element>): Option<OldScan>
  {
    if es == [] then Some(OldScan([], []))
    else
      match OldRun(es[..|es| - 1])
      case None => None
      case Some(st) => OldStep(st, es[|es| - 1])
  }

  /** `parse_old_cbcl`: `content` is `None` when the file cannot be read or has no content element. */
  function OldCbcl(content: Option<seq<Element>>): Option<seq<Pub>>
  {
    match content
    case None => Some([])
    case Some(es) => match OldRun(es) case None => None case Some(st) => Some(st.pubs)
  }

  method ParseOldCbcl(content: Option<seq<Element>>) returns (publications: Option<seq<Pub>>)
    ensures publications == OldCbcl(content)
  {
    if content.None? {
      return Some([]);
    }
    var es := content.value;
    var currentYear: String := "";
    var pubs: seq<Pub> := [];
    for i := 0 to |es|
      invariant OldRun(es[..i]) == Some(OldScan(currentYear, pubs))
    {
      OldRunStep(es, i, OldScan(currentYear, pubs));
      var element := es[i];
      var text := Trim(element.text);
      if IsYearHeader(text) {
        currentYear := HeaderYear(text);
        continue;
      }
      if currentYear == [] {
        continue;
      }
      if element.anchors == [] {
        continue;
      }
      var title := Trim(element.anchors[0].text);
      if title == [] {
        OldRunAbortSticky(es, i + 1);
        return None;
      }
      pubs := pubs + [OldEntry(element, title, currentYear)];
    }
    assert es[..|es|] == es;
    return Some(pubs);
  }

  lemma OldRunStep(es: seq<Element>, i: nat, st: OldScan)
    requires i < |es| && OldRun(es[..i]) == Some(st)
    ensures OldRun(es[..i + 1]) == OldStep(st, es[i])
  {
    assert es[..i + 1][..i] == es[..i];
  }

  /** The shape every record of the old page has. */
  predicate OldRecord(p: Pub)
  {
    |p.year| == 4 && AllDigits(p.year) && p.title != [] &&
    !IsSpace(p.title[0]) && !IsSpace(p.title[|p.title| - 1]) &&
    (p.venue == [] || (p.venue[0] !in VenueEnds && p.venue[|p.venue| - 1] !in VenueEnds))
  }

  /**
   * Every record carries a four-digit year from a header, a non-empty trimmed title and a
   * venue without stray separators at its ends; there is at most one record per element, and
   * before the first header the current year is empty.
   */
  lemma {:induction false} OldRunRecords(es: seq<Element>)
    ensures OldRun(es).Some? ==>
      var st := OldRun(es).value;
      |st.pubs| <= |es| &&
      (st.currentYear == [] || (|st.currentYear| == 4 && AllDigits(st.currentYear))) &&
      forall j :: 0 <= j < |st.pubs| ==> OldRecord(st.pubs[j])
  {
    if es != [] {
      var init := es[..|es| - 1];
      OldRunRecords(init);
      if OldRun(init).Some? {
        var st := OldRun(init).value;
        var e := es[|es| - 1];
        OldStepRecords(st, e);
      }
    }
  }

  lemma OldStepRecords(st: OldScan, e: Element)
    requires st.currentYear == [] || (|st.currentYear| == 4 && AllDigits(st.currentYear))
    requires forall j :: 0 <= j < |st.pubs| ==> OldRecord(st.pubs[j])
    ensures OldStep(st, e).Some? ==>
      var r := OldStep(st, e).value;
      (r.currentYear == [] || (|r.currentYear| == 4 && AllDigits(r.currentYear))) &&
      forall j :: 0 <= j < |r.pubs| ==> OldRecord(r.pubs[j])
  {
    var text := Trim(e.text);
    if IsYearHeader(text) {
      HeaderYearDigits(text);
    } else if st.currentYear != [] && e.anchors != [] && Trim(e.anchors[0].text) != [] {
      var p := OldEntry(e, Trim(e.anchors[0].text), st.currentYear);
      OldEntryRecord(e, Trim(e.anchors[0].text), st.currentYear);
      AppendRecord(st.pubs, p);
    }
  }

  lemma AppendRecord(pubs: seq<Pub>, p: Pub)
    requires forall j :: 0 <= j < |pubs| ==> OldRecord(pubs[j])
    requires OldRecord(p)
    ensures forall j :: 0 <= j < |pubs + [p]| ==> OldRecord((pubs + [p])[j])
  {
  }

  lemma OldEntryRecord(e: Element, title: String, year: String)
    requires e.anchors != [] && title == Trim(e.anchors[0].text) && title != []
    requires |year| == 4 && AllDigits(year)
    ensures OldRecord(OldEntry(e, title, year))
  {
    var av := OldAuthorsVenue(e.text, title);
    VenueEndsOf(e.text, title);
    assert OldEntry(e, title, year) == Pub(title, av.0, av.1, year, e.anchors[0].href);
  }

  lemma VenueEndsOf(fullText: String, title: String)
    requires title != []
    ensures var v := OldAuthorsVenue(fullText, title).1;
      v == [] || (v[0] !in VenueEnds && v[|v| - 1] !in VenueEnds)
  {
    OldAuthorsVenueEnds(fullText, title);
  }

  /** Elements before the first year header produce nothing and cannot raise. */
  lemma {:induction false} OldRunBeforeHeader(es: seq<Element>)
    requires forall k :: 0 <= k < |es| ==> !IsYearHeader(Trim(es[k].text))
    ensures OldRun(es) == Some(OldScan([], []))
  {
    if es != [] {
      OldRunBeforeHeader(es[..|es| - 1]);
    }
  }

  /** Once an element has raised, the whole parse has: nothing from the old page survives. */
  lemma {:induction false} OldRunAbortSticky(es: seq<Element>, n: nat)
    requires n <= |es| && OldRun(es[..n]).None?
    ensures OldRun(es).None?
    decreases |es|
  {
    if n < |es| {
      assert es[..|es| - 1][..n] == es[..n];
      OldRunAbortSticky(es[..|es| - 1], n);
    } else {
      assert es[..n] == es;
    }
  }

  // ---------------------------------------------------------------------------------------
  // parse_cbmm_page: the patterns

  /** The end of `https?://` at `k`: `s?` tries the longer form first. */
  function SchemeEnd(s: String, k: nat): (m: Option<nat>)
    ensures m.Some? ==> k + 7 <= m.value <= |s| && OccursAt(s, "http", k)
    ensures m.Some? ==> forall j :: k <= j < m.value ==> s[j] != '>'
  {
    if OccursAt(s, "https://", k) then
      SchemeChars(s, k, "https://");
      Some(k + 8)
    else if OccursAt(s, "http://", k) then
      SchemeChars(s, k, "http://");
      Some(k + 7)
    else None
  }

  lemma SchemeChars(s: String, k: nat, scheme: String)
    requires scheme == "https://" || scheme == "http://"
    requires OccursAt(s, scheme, k)
    ensures OccursAt(s, "http", k)
    ensures forall j :: k <= j < k + |scheme| ==> s[j] != '>'
  {
    assert s[k..k + 4] == scheme[..4];
    forall j | k <= j < k + |scheme| ensures s[j] != '>' {
      assert s[j] == scheme[j - k];
    }
  }

  /** The end of `(?:at\s*<|arXiv:)` at `i`. */
  function ReferenceLead(s: String, i: nat): (j: Option<nat>)
    ensures j.Some? ==> i < j.value <= |s|
  {
    if OccursAt(s, "at", i) then
      var j := SkipSpaces(s, i + 2);
      if j < |s| && s[j] == '<' then Some(j + 1) else None
    else if OccursAt(s, "arXiv:", i) then Some(i + 6)
    else None
  }

  /** The end of the run of `[\d\.]` characters starting at `i`. */
  function IdEnd(s: String, i: nat): (j: nat)
    ensures i <= j && (i <= |s| ==> j <= |s|)
    ensures forall k :: i <= k < j ==> k < |s| && (IsDigit(s[k]) || s[k] == '.')
    ensures j < |s| ==> !(IsDigit(s[j]) || s[j] == '.')
    decreases |s| - i
  {
    if i < |s| && (IsDigit(s[i]) || s[i] == '.') then IdEnd(s, i + 1) else i
  }

  const ArxivPath: String := "arxiv.org/abs/"

  /** Group 1 of `(?:at\s*<|arXiv:)\s*(https?://arxiv\.org/abs/[\d\.]+)` matched at `i`. */
  function ArxivAt(s: String, i: nat): (u: Option<String>)
    ensures u.Some? ==> StartsWith(u.value, "http")
  {
    match ReferenceLead(s, i)
    case None => None
    case Some(j) =>
      var k := SkipSpaces(s, j);
      match SchemeEnd(s, k)
      case None => None
      case Some(m) =>
        var e := IdEnd(s, m + |ArxivPath|);
        if OccursAt(s, ArxivPath, m) && e > m + |ArxivPath| then
          HttpPiece(s, k, e);
          Some(s[k..e])
        else None
  }

  /** Group 1 of `<\s*(https?://[^>]+)\s*>` matched at `i`: it runs up to the first `>`. */
  function BracketAt(s: String, i: nat): (u: Option<String>)
    ensures u.Some? ==> StartsWith(u.value, "http") && forall k :: 0 <= k < |u.value| ==> u.value[k] != '>'
  {
    if i < |s| && s[i] == '<' then
      var k := SkipSpaces(s, i + 1);
      match SchemeEnd(s, k)
      case None => None
      case Some(m) =>
        match FindChar(s, '>', m)
        case Some(c) =>
          if c > m then
            HttpPiece(s, k, c);
            Some(s[k..c])
          else None
        case None => None
    else None
  }

  lemma HttpPiece(s: String, k: nat, e: nat)
    requires OccursAt(s, "http", k) && k + 4 <= e <= |s|
    ensures StartsWith(s[k..e], "http")
  {
    assert s[k..e][..4] == s[k..k + 4];
  }

  /** `re.search` of the arXiv pattern: its leftmost match. */
  function ArxivUrl(s: String): Option<String>
  {
    Search(|s|, (i: nat) => ArxivAt(s, i))
  }

  /** `re.search` of the bracketed pattern: its leftmost match. */
  function BracketUrl(s: String): Option<String>
  {
    Search(|s|, (i: nat) => BracketAt(s, i))
  }

  /** `\((\d{4})\)` matched at `i`: the four digits. */
  function ParenYearAt(s: String, i: nat): (y: Option<String>)
    ensures y.Some? ==> |y.value| == 4 && AllDigits(y.value)
  {
    if i + 6 <= |s| && s[i] == '(' && AllDigits(s[i + 1..i + 5]) && s[i + 5] == ')' then
      Some(s[i + 1..i + 5])
    else None
  }

  /** `\b(19|20)\d{2}\b` matched at `i`: four digits not joined to other word characters. */
  function WordYearAt(s: String, i: nat): (y: Option<String>)
    ensures y.Some? ==> |y.value| == 4 && AllDigits(y.value) && (y.value[..2] == "19" || y.value[..2] == "20")
  {
    if i + 4 <= |s| && (s[i..i + 2] == "19" || s[i..i + 2] == "20") && IsDigit(s[i + 2]) && IsDigit(s[i + 3])
       && (i == 0 || !IsWordChar(s[i - 1])) && (i + 4 == |s| || !IsWordChar(s[i + 4]))
    then
      assert AllDigits(s[i..i + 4]) by {
        assert s[i] == s[i..i + 2][0] && s[i + 1] == s[i..i + 2][1];
      }
      Some(s[i..i + 4])
    else None
  }

  /** Lines 160-176: the separator bar's text, else `(dddd)`, else a 19xx/20xx word, else "". */
  function CbmmYear(separator: Option<String>, fullText: String): String
  {
    var bar := match separator case Some(t) => Trim(t) case None => "";
    if bar != [] then bar
    else
      match Search(|fullText|, (i: nat) => ParenYearAt(fullText, i))
      case Some(y) => y
      case None =>
        match Search(|fullText|, (i: nat) => WordYearAt(fullText, i))
        case Some(y) => y
        case None => ""
  }

  /**
   * A non-blank separator bar gives the year as it is written; otherwise the year is four
   * digits taken from the text, or empty.
   */
  lemma CbmmYearShape(separator: Option<String>, fullText: String)
    ensures var y := CbmmYear(separator, fullText);
      (separator.Some? && Trim(separator.value) != [] ==> y == Trim(separator.value)) &&
      (separator.None? || Trim(separator.value) == [] ==> y == [] || (|y| == 4 && AllDigits(y)))
  {
    var _ := SearchSome(|fullText|, (i: nat) => ParenYearAt(fullText, i));
    var _ := SearchSome(|fullText|, (i: nat) => WordYearAt(fullText, i));
  }

  /** A result of `Search` is a result of the matcher at some position. */
  lemma SearchSome<U>(n: nat, at: nat -> Option<U>) returns (k: nat)
    ensures Search(n, at).Some? ==> k < n && Search(n, at) == at(k)
  {
    k := FirstMatch(n, 0, at);
  }

  /**
   * `(?:at\s*<|arXiv:)\s*https?://[^>]+>?` matched at `i`: the position after the match, which
   * takes everything up to and including the next `>`, or the rest of the text without one.
   */
  function UrlRefEnd(s: String, i: nat): (e: Option<nat>)
    ensures e.Some? ==> i < e.value <= |s|
  {
    match ReferenceLead(s, i)
    case None => None
    case Some(j) =>
      var k := SkipSpaces(s, j);
      match SchemeEnd(s, k)
      case None => None
      case Some(m) =>
        match FindChar(s, '>', m)
        case Some(c) => if c > m then Some(c + 1) else None
        case None => if m < |s| then Some(|s|) else None
  }

  /** `re.sub` of that pattern by nothing, from position `i` on: matches are removed left to right. */
  function RemoveUrlRefsFrom(s: String, i: nat): (r: String)
    requires i <= |s|
    ensures |r| <= |s| - i
    decreases |s| - i
  {
    if i == |s| then []
    else
      match UrlRefEnd(s, i)
      case Some(e) => RemoveUrlRefsFrom(s, e)
      case None => [s[i]] + RemoveUrlRefsFrom(s, i + 1)
  }

  function RemoveUrlRefs(s: String): String
  {
    RemoveUrlRefsFrom(s, 0)
  }

  /** Text with no reference anywhere is left as it is. */
  lemma {:induction false} RemoveUrlRefsNone(s: String, i: nat)
    requires i <= |s| && forall j :: i <= j < |s| ==> UrlRefEnd(s, j).None?
    ensures RemoveUrlRefsFrom(s, i) == s[i..]
    decreases |s| - i
  {
    if i < |s| {
      RemoveUrlRefsNone(s, i + 1);
      assert s[i..] == [s[i]] + s[i + 1..];
    }
  }

  /** What the removal keeps is a subsequence of the text. */
  lemma {:induction false} RemoveUrlRefsKeeps(s: String, i: nat)
    requires i <= |s|
    ensures IsSubsequence(RemoveUrlRefsFrom(s, i), s[i..])
    decreases |s| - i
  {
    if i < |s| {
      assert s[i..] == [s[i]] + s[i + 1..];
      RemoveUrlRefsKeeps(s, i + 1);
      match UrlRefEnd(s, i)
      case Some(e) =>
        RemoveUrlRefsKeeps(s, e);
        SubsequenceOfSuffix(RemoveUrlRefsFrom(s, e), s, i, e);
      case None =>
        SubsequenceCons(s[i], RemoveUrlRefsFrom(s, i + 1), s[i + 1..]);
    }
  }

  /** "CBMM Publication": the venue when little or nothing is left. */
  const DefaultVenue: String := "CBMM Publication"

  const AuthorsDefault: String := "Unknown"

  /** The characters `strip(' .,<')` removes once the references are gone. */
  const RefEnds: set<char> := {' ', '.', ',', '<'}

  /** Lines 185-192: the text without the title, the authors and the year, whitespace collapsed. */
  function VenueResidue(fullText: String, title: String, authors: String, year: String): String
  {
    var t0 := RemoveAll(RemoveAll(fullText, title), authors);
    var t1 := if year != [] then RemoveAll(RemoveAll(t0, "(" + year + ")"), year) else t0;
    Strip(CollapseSpaces(t1), VenueEnds)
  }

  /**
   * Lines 183-198: the residue without references, or "CBMM Publication" when at most two
   * characters are left; a venue read from the text never starts or ends with a space, a
   * dot, a comma or `<`.
   */
  function CbmmVenue(fullText: String, title: String, authors: String, year: String): (venue: String)
    ensures venue == DefaultVenue ||
      (|venue| > 2 && venue[0] !in RefEnds && venue[|venue| - 1] !in RefEnds)
  {
    var t := Strip(RemoveUrlRefs(VenueResidue(fullText, title, authors, year)), RefEnds);
    if |t| > 2 then t else DefaultVenue
  }

  // ---------------------------------------------------------------------------------------
  // parse_cbmm_page: one entry

  /** What the scraper reads from one `biblio-entry` element. */
  datatype Entry = Entry(
    title: Option<String>,      // text of the `biblio-title` element, if there is one
    fileLink: Option<String>,   // `href` of the first linked `a` in `biblio_file_links`, if any
    firstHref: Option<String>,  // `href` of the first linked `a` of the entry, if any
    linkText: String,           // the entry's text, stripped pieces joined by spaces
    authors: Option<String>,    // text of the `biblio-authors` element, if there is one
    separator: Option<String>,  // text of the section's `biblio-separator-bar`, if there is one
    venueText: String)          // the same text once links, citation, title and authors are gone

  const UnknownTitle: String := "Unknown Title"
  const CbmmHost: String := "https://cbmm.mit.edu"

  function CbmmTitle(title: Option<String>): String
  {
    match title case Some(t) => Trim(t) case None => UnknownTitle
  }

  /** Lines 130-136: the authors text stripped, whitespace runs made single spaces, or "Unknown". */
  function CbmmAuthors(authors: Option<String>): String
  {
    match authors case Some(t) => CollapseSpaces(Trim(t)) case None => AuthorsDefault
  }

  /**
   * Authors read from the entry have no whitespace at either end and no whitespace other
   * than single spaces.
   */
  lemma CbmmAuthorsClean(authors: Option<String>)
    ensures var r := CbmmAuthors(authors);
      authors.Some? ==>
        NoDoubleSpace(r) && (forall i :: 0 <= i < |r| && IsSpace(r[i]) ==> r[i] == ' ') &&
        (r == [] || (!IsSpace(r[0]) && !IsSpace(r[|r| - 1])))
  {
    if authors.Some? {
      CollapseTrimmed(Trim(authors.value), CbmmAuthors(authors));
    }
  }

  lemma CollapseTrimmed(t: String, r: String)
    requires t == [] || (!IsSpace(t[0]) && !IsSpace(t[|t| - 1]))
    requires r == CollapseSpaces(t)
    ensures r == [] || (!IsSpace(r[0]) && !IsSpace(r[|r| - 1]))
  {
    CollapseSpacesLast(t);
  }

  /** Lines 95-104: the file link when it is non-empty, else the first linked `href`, else "". */
  function BaseLink(fileLink: Option<String>, firstHref: Option<String>): String
  {
    var file := fileLink.GetOr("");
    if file != [] then file else firstHref.GetOr("")
  }

  /** Lines 106-107: a non-empty link not starting with "http" is taken relative to the site. */
  function AbsoluteLink(link: String): (r: String)
    ensures r == [] <==> link == []
    ensures r != [] ==> StartsWith(r, "http")
    ensures StartsWith(link, "http") ==> r == link
  {
    if link != [] && !StartsWith(link, "http") then
      assert (CbmmHost + link)[..4] == CbmmHost[..4];
      CbmmHost + link
    else link
  }

  /** `link.lower().endswith('.pdf')`. */
  predicate IsPdf(link: String)
  {
    EndsWith(ToLower(link), ".pdf")
  }

  /** Lines 94-127: the entry's link. */
  function CbmmLink(e: Entry): String
  {
    var link := AbsoluteLink(BaseLink(e.fileLink, e.firstHref));
    if IsPdf(link) then link
    else
      match ArxivUrl(e.linkText)
      case Some(u) => u
      case None => match BracketUrl(e.linkText) case Some(u) => u case None => link
  }

  /**
   * A PDF link is kept; any other link gives way to an arXiv reference and then to a
   * bracketed URL in the text. The link either is empty or starts with "http", and it is
   * empty only when the entry has no non-empty link and its text no URL reference.
   */
  lemma CbmmLinkShape(e: Entry)
    ensures var base := AbsoluteLink(BaseLink(e.fileLink, e.firstHref));
      var link := CbmmLink(e);
      (IsPdf(base) ==> link == base) &&
      (!IsPdf(base) && ArxivUrl(e.linkText).Some? ==> link == ArxivUrl(e.linkText).value) &&
      (!IsPdf(base) && ArxivUrl(e.linkText).None? && BracketUrl(e.linkText).Some? ==>
         link == BracketUrl(e.linkText).value) &&
      (link == [] || StartsWith(link, "http")) &&
      (link == [] <==> base == [] && ArxivUrl(e.linkText).None? && BracketUrl(e.linkText).None?)
  {
    var text := e.linkText;
    var k1 := SearchSome(|text|, (i: nat) => ArxivAt(text, i));
    var k2 := SearchSome(|text|, (i: nat) => BracketAt(text, i));
    var base := AbsoluteLink(BaseLink(e.fileLink, e.firstHref));
    if base == [] {
      assert !IsPdf(base);
    }
  }

  /** The record of one entry (lines 89-207). */
  function CbmmRecord(e: Entry): Pub
  {
    var title := CbmmTitle(e.title);
    var authors := CbmmAuthors(e.authors);
    var year := CbmmYear(e.separator, e.venueText);
    Pub(title, authors, CbmmVenue(e.venueText, title, authors, year), year, Some(CbmmLink(e)))
  }

  /** Lines 94-127, the link reassigned step by step. */
  method ChooseLink(e: Entry) returns (link: String)
    ensures link == CbmmLink(e)
  {
    link := "";
    if e.fileLink.Some? {
      link := e.fileLink.value;
    }
    if link == [] && e.firstHref.Some? {
      link := e.firstHref.value;
    }
    if link != [] && !StartsWith(link, "http") {
      link := CbmmHost + link;
    }
    var isPdf := IsPdf(link);
    if !isPdf {
      var arxivMatch := ArxivUrl(e.linkText);
      if arxivMatch.Some? {
        link := arxivMatch.value;
      } else {
        var urlMatch := BracketUrl(e.linkText);
        if urlMatch.Some? {
          link := urlMatch.value;
        }
      }
    }
  }

  /** The body of the loop over the entries. */
  method ParseCbmmEntry(e: Entry) returns (pub: Pub)
    ensures pub == CbmmRecord(e)
  {
    var title := if e.title.Some? then Trim(e.title.value) else UnknownTitle;
    var link := ChooseLink(e);
    var authors := CbmmAuthors(e.authors);
    var year := CbmmYear(e.separator, e.venueText);
    var venue := CbmmVenue(e.venueText, title, authors, year);
    pub := Pub(title, authors, venue, year, Some(link));
  }

  /** `parse_cbmm_page`: `None` when the page file is missing or unreadable. */
  function CbmmPage(entries: Option<seq<Entry>>): seq<Pub>
  {
    match entries case None => [] case Some(es) => Map(es, CbmmRecord)
  }

  method ParseCbmmPage(entries: Option<seq<Entry>>) returns (publications: seq<Pub>)
    ensures publications == CbmmPage(entries)
  {
    publications := [];
    if entries.None? {
      return;
    }
    var es := entries.value;
    for i := 0 to |es|
      invariant publications == Map(es[..i], CbmmRecord)
    {
      var pub := ParseCbmmEntry(es[i]);
      MapStep(es, i, CbmmRecord, publications, pub);
      publications := publications + [pub];
    }
    assert es[..|es|] == es;
  }

  /** Every CBMM record has a link, which is empty or absolute, and a venue that is the default or longer than two characters. */
  lemma CbmmRecordShape(e: Entry)
    ensures var r := CbmmRecord(e);
      r.link.Some? && (r.link.value == [] || StartsWith(r.link.value, "http")) &&
      (r.venue == DefaultVenue || |r.venue| > 2) &&
      (e.title.None? ==> r.title == UnknownTitle)
  {
    CbmmLinkShape(e);
  }

  // ---------------------------------------------------------------------------------------
  // main: one record per title

  /** The first position of a record titled `t`, or `|d|` when there is none. */
  function TitleIndex(d: seq<Pub>, t: String): (k: nat)
    ensures k <= |d| && (k < |d| ==> d[k].title == t)
    ensures forall j :: 0 <= j < k ==> d[j].title != t
    decreases |d|
  {
    if d == [] then 0
    else if d[0].title == t then 0
    else 1 + TitleIndex(d[1..], t)
  }

  /** The last position of a record titled `t`, if any. */
  function LastTitleIndex(ps: seq<Pub>, t: String): (k: Option<nat>)
    ensures k.Some? ==> k.value < |ps| && ps[k.value].title == t
    ensures k.Some? ==> forall j :: k.value < j < |ps| ==> ps[j].title != t
    ensures k.None? ==> forall j :: 0 <= j < |ps| ==> ps[j].title != t
  {
    if ps == [] then None
    else if ps[|ps| - 1].title == t then Some(|ps| - 1)
    else LastTitleIndex(ps[..|ps| - 1], t)
  }

  /** `d[p['title']] = p` on a dictionary kept in insertion order. */
  function Put(d: seq<Pub>, p: Pub): seq<Pub>
  {
    var k := TitleIndex(d, p.title);
    if k < |d| then d[k := p] else d + [p]
  }

  /** `list({p['title']: p for p in all_pubs}.values())`. */
  function Dedupe(ps: seq<Pub>): seq<Pub>
  {
    if ps == [] then [] else Put(Dedupe(ps[..|ps| - 1]), ps[|ps| - 1])
  }

  predicate DistinctTitles(d: seq<Pub>)
  {
    forall i, j :: 0 <= i < j < |d| ==> d[i].title != d[j].title
  }

  /** Every title of the input is kept. */
  predicate KeepsTitles(ps: seq<Pub>, d: seq<Pub>)
  {
    forall k :: 0 <= k < |ps| ==> TitleIndex(d, ps[k].title) < |d|
  }

  /** Each kept record is the last one of the input with its title. */
  predicate LastValues(ps: seq<Pub>, d: seq<Pub>)
  {
    forall j :: 0 <= j < |d| ==>
      LastTitleIndex(ps, d[j].title).Some? && d[j] == ps[LastTitleIndex(ps, d[j].title).value]
  }

  /** The kept records stand in the order in which their titles first occur. */
  predicate FirstOrder(ps: seq<Pub>, d: seq<Pub>)
  {
    forall i, j :: 0 <= i < j < |d| ==> TitleIndex(ps, d[i].title) < TitleIndex(ps, d[j].title)
  }

  /** What the dictionary promises. */
  predicate DedupedFrom(ps: seq<Pub>, d: seq<Pub>)
  {
    DistinctTitles(d) && KeepsTitles(ps, d) && LastValues(ps, d) && FirstOrder(ps, d)
  }

  /**
   * The titles are distinct, every title of the input is kept, each record is the last one
   * with its title, and the records stand in the order in which their titles first occur.
   */
  lemma {:induction false} DedupeSpec(ps: seq<Pub>)
    ensures DedupedFrom(ps, Dedupe(ps))
    ensures |Dedupe(ps)| <= |ps|
  {
    if ps != [] {
      var init, p := ps[..|ps| - 1], ps[|ps| - 1];
      DedupeSpec(init);
      assert ps == init + [p];
      PutSpec(init, Dedupe(init), p);
    }
  }

  lemma TitleIndexSnoc(ps: seq<Pub>, p: Pub, t: String)
    ensures TitleIndex(ps, t) < |ps| ==> TitleIndex(ps + [p], t) == TitleIndex(ps, t)
    ensures TitleIndex(ps, t) == |ps| && p.title == t ==> TitleIndex(ps + [p], t) == |ps|
    ensures TitleIndex(ps, t) == |ps| && p.title != t ==> TitleIndex(ps + [p], t) == |ps| + 1
  {
    var q := ps + [p];
    var k := TitleIndex(q, t);
    var k0 := TitleIndex(ps, t);
    assert q[|ps|] == p;
    if k0 < |ps| {
      assert q[k0] == ps[k0];
    }
  }

  lemma LastTitleIndexSnoc(ps: seq<Pub>, p: Pub, t: String)
    ensures LastTitleIndex(ps + [p], t) == if p.title == t then Some(|ps|) else LastTitleIndex(ps, t)
  {
    assert (ps + [p])[..|ps|] == ps;
  }

  /** The title of every kept record occurs in the input. */
  lemma KeptTitleOccurs(ps: seq<Pub>, d: seq<Pub>, j: nat)
    requires LastValues(ps, d) && j < |d|
    ensures TitleIndex(ps, d[j].title) < |ps|
  {
    var l := LastTitleIndex(ps, d[j].title).value;
    assert TitleIndex(ps, d[j].title) <= l;
  }

  lemma PutSpec(ps: seq<Pub>, d: seq<Pub>, p: Pub)
    requires DedupedFrom(ps, d) && |d| <= |ps|
    ensures DedupedFrom(ps + [p], Put(d, p)) && |Put(d, p)| <= |ps + [p]|
  {
    var q := ps + [p];
    var k := TitleIndex(d, p.title);
    forall t ensures TitleIndex(ps, t) < |ps| ==> TitleIndex(q, t) == TitleIndex(ps, t) {
      TitleIndexSnoc(ps, p, t);
    }
    forall t ensures LastTitleIndex(q, t) == if p.title == t then Some(|ps|) else LastTitleIndex(ps, t) {
      LastTitleIndexSnoc(ps, p, t);
    }
    if k < |d| {
      var d' := d[k := p];
      ReplaceDistinct(d, p, k);
      ReplaceKeeps(ps, d, p, k);
      ReplaceLast(ps, d, p, k);
      ReplaceOrder(ps, d, p, k);
    } else {
      assert TitleIndex(ps, p.title) == |ps|;
      TitleIndexSnoc(ps, p, p.title);
      AppendDistinct(d, p);
      AppendKeeps(ps, d, p);
      AppendLast(ps, d, p);
      AppendOrder(ps, d, p);
    }
  }

  lemma ReplaceDistinct(d: seq<Pub>, p: Pub, k: nat)
    requires DistinctTitles(d) && k < |d| && d[k].title == p.title
    ensures DistinctTitles(d[k := p])
  {
  }

  lemma ReplaceKeeps(ps: seq<Pub>, d: seq<Pub>, p: Pub, k: nat)
    requires KeepsTitles(ps, d) && k == TitleIndex(d, p.title) && k < |d|
    ensures KeepsTitles(ps + [p], d[k := p])
  {
    var q, d' := ps + [p], d[k := p];
    forall i | 0 <= i < |q| ensures TitleIndex(d', q[i].title) < |d'| {
      var t := q[i].title;
      var m := TitleIndex(d, t);
      if i < |ps| {
        assert q[i] == ps[i];
      }
      SameTitles(d, d', p, k, t);
    }
  }

  /** Replacing a record by one with the same title moves no title. */
  lemma SameTitles(d: seq<Pub>, d': seq<Pub>, p: Pub, k: nat, t: String)
    requires k < |d| && d[k].title == p.title && d' == d[k := p]
    ensures TitleIndex(d', t) == TitleIndex(d, t)
    decreases |d|
  {
    if d != [] && k > 0 {
      assert d'[1..] == d[1..][k - 1 := p];
      SameTitles(d[1..], d'[1..], p, k - 1, t);
    }
  }

  lemma ReplaceLast(ps: seq<Pub>, d: seq<Pub>, p: Pub, k: nat)
    requires DistinctTitles(d) && LastValues(ps, d) && k < |d| && d[k].title == p.title
    requires forall t :: LastTitleIndex(ps + [p], t) == if p.title == t then Some(|ps|) else LastTitleIndex(ps, t)
    ensures LastValues(ps + [p], d[k := p])
  {
    var q, d' := ps + [p], d[k := p];
    assert q[|ps|] == p;
    forall j | 0 <= j < |d'|
      ensures LastTitleIndex(q, d'[j].title).Some? && d'[j] == q[LastTitleIndex(q, d'[j].title).value]
    {
      if j != k {
        assert d'[j] == d[j] && d[j].title != p.title;
        assert q[LastTitleIndex(ps, d[j].title).value] == ps[LastTitleIndex(ps, d[j].title).value];
      }
    }
  }

  lemma ReplaceOrder(ps: seq<Pub>, d: seq<Pub>, p: Pub, k: nat)
    requires FirstOrder(ps, d) && LastValues(ps, d) && k < |d| && d[k].title == p.title
    ensures FirstOrder(ps + [p], d[k := p])
  {
    var q, d' := ps + [p], d[k := p];
    forall i, j | 0 <= i < j < |d'| ensures TitleIndex(q, d'[i].title) < TitleIndex(q, d'[j].title) {
      assert d'[i].title == d[i].title && d'[j].title == d[j].title;
      KeptFirstIndex(ps, d, p, i);
      KeptFirstIndex(ps, d, p, j);
    }
  }

  /** Appending to the input does not move the first occurrence of a kept title. */
  lemma KeptFirstIndex(ps: seq<Pub>, d: seq<Pub>, p: Pub, j: nat)
    requires LastValues(ps, d) && j < |d|
    ensures TitleIndex(ps + [p], d[j].title) == TitleIndex(ps, d[j].title) < |ps|
  {
    KeptTitleOccurs(ps, d, j);
    TitleIndexSnoc(ps, p, d[j].title);
  }

  lemma AppendDistinct(d: seq<Pub>, p: Pub)
    requires DistinctTitles(d) && TitleIndex(d, p.title) == |d|
    ensures DistinctTitles(d + [p])
  {
  }

  lemma AppendKeeps(ps: seq<Pub>, d: seq<Pub>, p: Pub)
    requires KeepsTitles(ps, d)
    ensures KeepsTitles(ps + [p], d + [p])
  {
    var q, d' := ps + [p], d + [p];
    forall i | 0 <= i < |q| ensures TitleIndex(d', q[i].title) < |d'| {
      TitleIndexSnoc(d, p, q[i].title);
      if i < |ps| {
        assert q[i] == ps[i];
      }
    }
  }

  lemma AppendLast(ps: seq<Pub>, d: seq<Pub>, p: Pub)
    requires LastValues(ps, d) && TitleIndex(d, p.title) == |d|
    requires forall t :: LastTitleIndex(ps + [p], t) == if p.title == t then Some(|ps|) else LastTitleIndex(ps, t)
    ensures LastValues(ps + [p], d + [p])
  {
    var q, d' := ps + [p], d + [p];
    assert q[|ps|] == p;
    forall j | 0 <= j < |d'|
      ensures LastTitleIndex(q, d'[j].title).Some? && d'[j] == q[LastTitleIndex(q, d'[j].title).value]
    {
      if j < |d| {
        assert d'[j] == d[j] && d[j].title != p.title;
        assert q[LastTitleIndex(ps, d[j].title).value] == ps[LastTitleIndex(ps, d[j].title).value];
      }
    }
  }

  lemma AppendOrder(ps: seq<Pub>, d: seq<Pub>, p: Pub)
    requires FirstOrder(ps, d) && LastValues(ps, d) && TitleIndex(ps + [p], p.title) == |ps|
    ensures FirstOrder(ps + [p], d + [p])
  {
    var q, d' := ps + [p], d + [p];
    forall i, j | 0 <= i < j < |d'| ensures TitleIndex(q, d'[i].title) < TitleIndex(q, d'[j].title) {
      assert d'[i] == d[i];
      KeptFirstIndex(ps, d, p, i);
      if j == |d| {
        assert d'[j] == p;
      } else {
        assert d'[j] == d[j];
        KeptFirstIndex(ps, d, p, j);
        assert TitleIndex(ps, d[i].title) < TitleIndex(ps, d[j].title);
      }
    }
  }

  // ---------------------------------------------------------------------------------------
  // main: the year order

  /** `\d{4}` matched at `i`. */
  function FourDigitsAt(y: String, i: nat): (r: Option<String>)
    ensures r.Some? ==> |r.value| == 4 && AllDigits(r.value)
  {
    if i + 4 <= |y| && AllDigits(y[i..i + 4]) then Some(y[i..i + 4]) else None
  }

  /** `get_year`: the value of the first four-digit run of the year, or 0 when there is none. */
  function YearKey(p: Pub): int
  {
    match Search(|p.year|, (i: nat) => FourDigitsAt(p.year, i))
    case Some(d) => DigitsValue(d)
    case None => 0
  }

  /** A four-digit year, as every old CBCL record and most CBMM records carry, sorts by its value. */
  lemma YearKeyOfDigits(p: Pub)
    requires |p.year| == 4 && AllDigits(p.year)
    ensures YearKey(p) == DigitsValue(p.year)
  {
    assert p.year[0..4] == p.year;
    assert FourDigitsAt(p.year, 0) == Some(p.year);
  }

  /** A year without four digits in a row sorts as 0. */
  lemma YearKeyWithoutDigits(p: Pub)
    requires forall i: nat :: FourDigitsAt(p.year, i).None?
    ensures YearKey(p) == 0
  {
    var k := FirstMatch(|p.year|, 0, (i: nat) => FourDigitsAt(p.year, i));
  }

  const PageCount: nat := 8

  /** The records of the CBMM pages `0 .. n - 1`, in page order. */
  function CbmmPages(pages: nat -> Option<seq<Entry>>, n: nat): seq<Pub>
  {
    if n == 0 then [] else CbmmPages(pages, n - 1) + CbmmPage(pages(n - 1))
  }

  /**
   * `main` up to the JSON dump: `None` when the old page raises; otherwise the records of the
   * old page and of the eight CBMM pages, one per title, sorted by year with the newest first.
   */
  function Publications(oldPage: Option<seq<Element>>, pages: nat -> Option<seq<Entry>>): Option<seq<Pub>>
  {
    match OldCbcl(oldPage)
    case None => None
    case Some(o) => Some(SortBy(Dedupe(o + CbmmPages(pages, PageCount)), DescendingBy(YearKey)))
  }

  /** Lines 224-227: the pages in order, a missing page contributing nothing. */
  method ParseCbmmPages(pages: nat -> Option<seq<Entry>>) returns (allPubs: seq<Pub>)
    ensures allPubs == CbmmPages(pages, PageCount)
  {
    allPubs := [];
    for i := 0 to PageCount
      invariant allPubs == CbmmPages(pages, i)
    {
      var pubs := ParseCbmmPage(pages(i));
      allPubs := allPubs + pubs;
    }
  }

  method Scrape(oldPage: Option<seq<Element>>, pages: nat -> Option<seq<Entry>>) returns (sortedPubs: Option<seq<Pub>>)
    ensures sortedPubs == Publications(oldPage, pages)
  {
    var oldPubs := ParseOldCbcl(oldPage);
    if oldPubs.None? {
      return None;
    }
    var cbmmPubs := ParseCbmmPages(pages);
    var allPubs := oldPubs.value + cbmmPubs;
    var uniquePubs := Dedupe(allPubs);
    return Some(SortBy(uniquePubs, DescendingBy(YearKey)));
  }

  /**
   * The written list is the deduplicated list reordered: newest year first, records of one
   * year in their deduplicated order; the deduplicated list keeps one record per title as
   * `DedupedFrom` states.
   */
  lemma PublicationsOrder(oldPage: Option<seq<Element>>, pages: nat -> Option<seq<Entry>>, k: int)
    ensures Publications(oldPage, pages).None? <==> OldCbcl(oldPage).None?
    ensures Publications(oldPage, pages).Some? ==>
      var all := OldCbcl(oldPage).value + CbmmPages(pages, PageCount);
      var r := Publications(oldPage, pages).value;
      DedupedFrom(all, Dedupe(all)) &&
      multiset(r) == multiset(Dedupe(all)) &&
      SortedDescending(r, YearKey) &&
      Filter(r, HasKey(YearKey, k)) == Filter(Dedupe(all), HasKey(YearKey, k))
  {
    if OldCbcl(oldPage).Some? {
      var all := OldCbcl(oldPage).value + CbmmPages(pages, PageCount);
      DedupeSpec(all);
      SortByPermutes(Dedupe(all), DescendingBy(YearKey));
      SortDescendingStable(Dedupe(all), YearKey, k);
    }
  }
}
