/**
 * The `/people` page of app/people/page.tsx: one section per entry of the people data,
 * anchored by an id derived from its title, laid out as a grid of photo cards or as a list.
 */
module PeoplePage {
  import opened Wrappers
  import opened Text
  import opened Seqs
  import opened PeopleData

  // ---------------------------------------------------------------------------------------
  // `toId`: `text.toLowerCase().replace(/[^a-z0-9]+/g, '-').replace(/(^-|-$)/g, '')`

  predicate IsAnchorChar(c: char) { IsLower(c) || IsDigit(c) }

  /** How many characters at the front are outside `[a-z0-9]`. */
  function SkipLength(s: String): (n: nat)
    ensures n <= |s|
    ensures forall i :: 0 <= i < n ==> !IsAnchorChar(s[i])
    ensures n < |s| ==> IsAnchorChar(s[n])
    decreases |s|
  {
    if s == [] || IsAnchorChar(s[0]) then 0 else 1 + SkipLength(s[1..])
  }

  /** `replace(/[^a-z0-9]+/g, '-')`: each maximal run outside `[a-z0-9]` becomes one hyphen. */
  function DashRuns(s: String): (r: String)
    ensures r == [] <==> s == []
    ensures r != [] ==> (r[0] == '-' <==> !IsAnchorChar(s[0]))
    decreases |s|
  {
    if s == [] then []
    else if IsAnchorChar(s[0]) then [s[0]] + DashRuns(s[1..])
    else ['-'] + DashRuns(s[SkipLength(s)..])
  }

  /** `replace(/(^-|-$)/g, '')`: one hyphen off each end. */
  function DropEdgeDashes(s: String): String
  {
    var a := if s != [] && s[0] == '-' then s[1..] else s;
    if a != [] && a[|a| - 1] == '-' then a[..|a| - 1] else a
  }

  function ToId(text: String): String
  {
    DropEdgeDashes(DashRuns(ToLower(text)))
  }

  predicate AnchorChars(s: String)
  {
    forall i :: 0 <= i < |s| ==> IsAnchorChar(s[i]) || s[i] == '-'
  }

  /** What an anchor looks like: `[a-z0-9-]` only, no "--", no hyphen at either end. */
  predicate IsAnchor(s: String)
  {
    AnchorChars(s) && NoDoubleDash(s) && (s == [] || (s[0] != '-' && s[|s| - 1] != '-'))
  }

  /** After the run replacement only `[a-z0-9-]` is left, and no hyphen follows a hyphen. */
  lemma {:induction false} DashRunsShape(s: String)
    ensures AnchorChars(DashRuns(s)) && NoDoubleDash(DashRuns(s))
    decreases |s|
  {
    if s != [] {
      var tail := if IsAnchorChar(s[0]) then s[1..] else s[SkipLength(s)..];
      DashRunsShape(tail);
      var x := if IsAnchorChar(s[0]) then s[0] else '-';
      assert !IsAnchorChar(s[0]) ==> tail == [] || IsAnchorChar(tail[0]);
      AnchorCons(x, DashRuns(tail));
    }
  }

  lemma AnchorCons(x: char, t: String)
    requires (IsAnchorChar(x) || x == '-') && AnchorChars(t) && NoDoubleDash(t)
    requires x == '-' ==> t == [] || t[0] != '-'
    ensures AnchorChars([x] + t) && NoDoubleDash([x] + t)
  {
    var r := [x] + t;
    forall i | 0 < i < |r| ensures IsAnchorChar(r[i]) || r[i] == '-' {
      assert r[i] == t[i - 1];
    }
    forall i | 0 <= i < |r| - 1 ensures !(r[i] == '-' && r[i + 1] == '-') {
      if i > 0 {
        assert r[i] == t[i - 1] && r[i + 1] == t[i];
      }
    }
  }

  /** Every `toId` result is an anchor. */
  lemma ToIdIsAnchor(text: String)
    ensures IsAnchor(ToId(text))
  {
    var d := DashRuns(ToLower(text));
    DashRunsShape(ToLower(text));
    var a := if d != [] && d[0] == '-' then d[1..] else d;
    forall i | 0 <= i < |a| ensures (IsAnchorChar(a[i]) || a[i] == '-') && (i + 1 < |a| ==> !(a[i] == '-' && a[i + 1] == '-')) {
      if d != [] && d[0] == '-' {
        assert a[i] == d[i + 1];
        if i + 1 < |a| {
          assert a[i + 1] == d[i + 2];
        }
      }
    }
    assert a != [] ==> a[0] != '-';
    var r := ToId(text);
    forall i | 0 <= i < |r| ensures r[i] == a[i] {
    }
  }

  // ---------------------------------------------------------------------------------------
  // Titles made of words

  predicate IsWord(w: String) { w != [] && forall i :: 0 <= i < |w| ==> IsLetter(w[i]) || IsDigit(w[i]) }

  /** A separator between words: no letter or digit in it. */
  predicate IsGap(g: String) { g != [] && forall i :: 0 <= i < |g| ==> !IsLetter(g[i]) && !IsDigit(g[i]) }

  /** Lower-casing works character by character, so it splits over a concatenation. */
  lemma LowerConcat(a: String, b: String)
    ensures ToLower(a + b) == ToLower(a) + ToLower(b)
  {
  }

  /** A lower-cased word passes the run replacement unchanged. */
  lemma {:induction false} DashRunsWord(w: String, t: String)
    requires forall i :: 0 <= i < |w| ==> IsAnchorChar(w[i])
    ensures DashRuns(w + t) == w + DashRuns(t)
    decreases |w|
  {
    if w != [] {
      assert (w + t)[0] == w[0];
      assert (w + t)[1..] == w[1..] + t;
      assert forall i :: 0 <= i < |w[1..]| ==> w[1..][i] == w[i + 1];
      DashRunsWord(w[1..], t);
      assert DashRuns(w + t) == [w[0]] + DashRuns(w[1..] + t);
      assert w == [w[0]] + w[1..];
      assert [w[0]] + (w[1..] + DashRuns(t)) == w + DashRuns(t);
    } else {
      assert w + t == t && w + DashRuns(t) == DashRuns(t);
    }
  }

  /** A lower-cased gap before an anchor character becomes one hyphen. */
  lemma {:induction false} SkipGap(g: String, t: String)
    requires forall i :: 0 <= i < |g| ==> !IsAnchorChar(g[i])
    requires t == [] || IsAnchorChar(t[0])
    ensures SkipLength(g + t) == |g|
    decreases |g|
  {
    if g != [] {
      assert (g + t)[1..] == g[1..] + t;
      SkipGap(g[1..], t);
    }
  }

  lemma DashRunsGap(g: String, t: String)
    requires g != [] && forall i :: 0 <= i < |g| ==> !IsAnchorChar(g[i])
    requires t == [] || IsAnchorChar(t[0])
    ensures DashRuns(g + t) == "-" + DashRuns(t)
  {
    SkipGap(g, t);
    assert (g + t)[|g|..] == t;
  }

  /** Lower-casing a word gives anchor characters; lower-casing a gap gives none. */
  lemma LowerWord(w: String)
    requires IsWord(w)
    ensures forall i :: 0 <= i < |ToLower(w)| ==> IsAnchorChar(ToLower(w)[i])
  {
  }

  lemma LowerGap(g: String)
    requires IsGap(g)
    ensures forall i :: 0 <= i < |ToLower(g)| ==> !IsAnchorChar(ToLower(g)[i])
  {
  }

  /** Words joined by gaps: `words[0] + gaps[0] + words[1] + …`. */
  function Phrase(words: seq<String>, gaps: seq<String>): String
    requires |gaps| + 1 == |words|
    decreases |words|
  {
    if |words| == 1 then words[0] else words[0] + gaps[0] + Phrase(words[1..], gaps[1..])
  }

  /** Lower-cased words joined by hyphens. */
  function Hyphenated(words: seq<String>): String
    requires words != []
    decreases |words|
  {
    if |words| == 1 then ToLower(words[0]) else ToLower(words[0]) + "-" + Hyphenated(words[1..])
  }

  /**
   * The run replacement of a lower-cased phrase hyphenates its words; it starts with the
   * first word's first letter.
   */
  lemma {:induction false} DashRunsPhrase(words: seq<String>, gaps: seq<String>)
    requires |gaps| + 1 == |words|
    requires forall k :: 0 <= k < |words| ==> IsWord(words[k])
    requires forall k :: 0 <= k < |gaps| ==> IsGap(gaps[k])
    ensures DashRuns(ToLower(Phrase(words, gaps))) == Hyphenated(words)
    ensures ToLower(Phrase(words, gaps)) != [] && IsAnchorChar(ToLower(Phrase(words, gaps))[0])
    decreases |words|
  {
    var w := ToLower(words[0]);
    LowerWord(words[0]);
    if |words| == 1 {
      DashRunsWord(w, []);
      assert w + [] == w;
    } else {
      var rest := Phrase(words[1..], gaps[1..]);
      DashRunsPhrase(words[1..], gaps[1..]);
      var g := ToLower(gaps[0]);
      var lr := ToLower(rest);
      var h := Hyphenated(words[1..]);
      assert ToLower(Phrase(words, gaps)) == w + (g + lr) by {
        assert Phrase(words, gaps) == words[0] + gaps[0] + rest;
        LowerConcat(words[0] + gaps[0], rest);
        LowerConcat(words[0], gaps[0]);
        ConcatAssoc(w, g, lr);
      }
      assert DashRuns(w + (g + lr)) == w + ("-" + h) by {
        LowerGap(gaps[0]);
        DashRunsWord(w, g + lr);
        DashRunsGap(g, lr);
      }
      ConcatAssoc(w, "-", h);
      assert ToLower(Phrase(words, gaps))[0] == w[0];
    }
  }

  /** The last character of a phrase's run replacement is the last word's last letter. */
  lemma {:induction false} HyphenatedEnds(words: seq<String>)
    requires words != [] && forall k :: 0 <= k < |words| ==> IsWord(words[k])
    ensures Hyphenated(words) != []
    ensures Hyphenated(words)[0] != '-' && Hyphenated(words)[|Hyphenated(words)| - 1] != '-'
    decreases |words|
  {
    LowerWord(words[0]);
    if |words| > 1 {
      HyphenatedEnds(words[1..]);
    }
  }

  /** `toId` of words joined by separators is the lower-cased words joined by single hyphens. */
  lemma ToIdPhrase(words: seq<String>, gaps: seq<String>)
    requires |gaps| + 1 == |words|
    requires forall k :: 0 <= k < |words| ==> IsWord(words[k])
    requires forall k :: 0 <= k < |gaps| ==> IsGap(gaps[k])
    ensures ToId(Phrase(words, gaps)) == Hyphenated(words)
  {
    DashRunsPhrase(words, gaps);
    HyphenatedEnds(words);
  }

  // ---------------------------------------------------------------------------------------
  // The anchors the footer links to

  /** The fragments of the footer's two "people" links. */
  const FormerPostdocsAnchor: String := "former-postdoctoral-associates-phd-students"
  const VisitorsAnchor: String := "visiting-students-scholars-and-scientists"

  const FormerPostdocsWords: seq<String> := ["Former", "Postdoctoral", "Associates", "PhD", "Students"]
  const FormerPostdocsGaps: seq<String> := [" ", " ", " & ", " "]
  const VisitorsWords: seq<String> := ["Visiting", "Students", "Scholars", "and", "Scientists"]
  const VisitorsGaps: seq<String> := [" ", ", ", " ", " "]

  /** Five words and four gaps, spelled out. */
  lemma PhraseOfFive(w: seq<String>, g: seq<String>)
    requires |w| == 5 && |g| == 4
    ensures Phrase(w, g) == w[0] + g[0] + w[1] + g[1] + w[2] + g[2] + w[3] + g[3] + w[4]
  {
    assert Phrase(w[..1], g[..0]) == w[0];
    PhrasePrefixStep(w, g, 1);
    PhrasePrefixStep(w, g, 2);
    PhrasePrefixStep(w, g, 3);
    PhrasePrefixStep(w, g, 4);
    assert w[..5] == w && g[..4] == g;
  }

  /** Extending a phrase by one gap and one word. */
  lemma PhrasePrefixStep(w: seq<String>, g: seq<String>, k: nat)
    requires |g| + 1 == |w| && 1 <= k <= |g|
    ensures Phrase(w[..k + 1], g[..k]) == Phrase(w[..k], g[..k - 1]) + g[k - 1] + w[k]
  {
    PhraseSnoc(w[..k + 1], g[..k]);
    assert w[..k + 1][..k] == w[..k] && g[..k][..k - 1] == g[..k - 1];
  }

  /** A phrase ends with its last gap and its last word. */
  lemma {:induction false} PhraseSnoc(w: seq<String>, g: seq<String>)
    requires |g| + 1 == |w| && 1 <= |g|
    ensures Phrase(w, g) == Phrase(w[..|w| - 1], g[..|g| - 1]) + g[|g| - 1] + w[|w| - 1]
    decreases |w|
  {
    var n := |g|;
    if n == 1 {
      assert w[1..] == [w[1]];
      assert Phrase(w[..1], g[..0]) == w[0];
    } else {
      var w1, g1 := w[1..], g[1..];
      PhraseSnoc(w1, g1);
      var p := Phrase(w1[..|w1| - 1], g1[..|g1| - 1]);
      assert w1[..|w1| - 1] == w[..n][1..] && g1[..|g1| - 1] == g[..n - 1][1..];
      assert Phrase(w[..n], g[..n - 1]) == w[0] + g[0] + p;
      assert w[0] + g[0] + (p + g[n - 1] + w[n]) == w[0] + g[0] + p + g[n - 1] + w[n];
    }
  }

  /** Five words, hyphenated, spelled out. */
  lemma HyphenatedOfFive(w: seq<String>)
    requires |w| == 5
    ensures Hyphenated(w) ==
      ToLower(w[0]) + "-" + ToLower(w[1]) + "-" + ToLower(w[2]) + "-" + ToLower(w[3]) + "-" + ToLower(w[4])
  {
    assert Hyphenated(w[4..]) == ToLower(w[4]);
    assert Hyphenated(w[3..]) == ToLower(w[3]) + "-" + ToLower(w[4]);
    assert Hyphenated(w[2..]) == ToLower(w[2]) + "-" + (ToLower(w[3]) + "-" + ToLower(w[4]));
    assert Hyphenated(w[1..]) == ToLower(w[1]) + "-" + (ToLower(w[2]) + "-" + (ToLower(w[3]) + "-" + ToLower(w[4])));
  }

  lemma FormerPostdocsPhrase()
    ensures FormerPostdocsTitle == Phrase(FormerPostdocsWords, FormerPostdocsGaps)
  {
    PhraseOfFive(FormerPostdocsWords, FormerPostdocsGaps);
    FormerPostdocsTitleSpelling();
  }

  /** The titles and anchors spelled out piece by piece, apart from the lemmas that use them. */
  lemma FormerPostdocsTitleSpelling()
    ensures "Former" + " " + "Postdoctoral" + " " + "Associates" + " & " + "PhD" + " " + "Students" ==
      FormerPostdocsTitle
  {
    assert "Former" + " " + "Postdoctoral" == "Former Postdoctoral";
    assert "Former Postdoctoral" + " " + "Associates" == "Former Postdoctoral Associates";
    assert "Former Postdoctoral Associates" + " & " + "PhD" == "Former Postdoctoral Associates & PhD";
  }

  lemma FormerPostdocsAnchorSpelling()
    ensures "former" + "-" + "postdoctoral" + "-" + "associates" + "-" + "phd" + "-" + "students" ==
      FormerPostdocsAnchor
  {
    assert "former" + "-" + "postdoctoral" == "former-postdoctoral";
    assert "former-postdoctoral" + "-" + "associates" == "former-postdoctoral-associates";
    assert "former-postdoctoral-associates" + "-" + "phd" == "former-postdoctoral-associates-phd";
  }

  lemma VisitorsTitleSpelling()
    ensures "Visiting" + " " + "Students" + ", " + "Scholars" + " " + "and" + " " + "Scientists" == VisitorsTitle
  {
    assert "Visiting" + " " + "Students" == "Visiting Students";
    assert "Visiting Students" + ", " + "Scholars" == "Visiting Students, Scholars";
    assert "Visiting Students, Scholars" + " " + "and" == "Visiting Students, Scholars and";
  }

  lemma VisitorsAnchorSpelling()
    ensures "visiting" + "-" + "students" + "-" + "scholars" + "-" + "and" + "-" + "scientists" == VisitorsAnchor
  {
    assert "visiting" + "-" + "students" == "visiting-students";
    assert "visiting-students" + "-" + "scholars" == "visiting-students-scholars";
    assert "visiting-students-scholars" + "-" + "and" == "visiting-students-scholars-and";
  }

  lemma FormerPostdocsLower()
    ensures ToLower(FormerPostdocsWords[0]) == "former" && ToLower(FormerPostdocsWords[1]) == "postdoctoral"
    ensures ToLower(FormerPostdocsWords[2]) == "associates" && ToLower(FormerPostdocsWords[3]) == "phd"
    ensures ToLower(FormerPostdocsWords[4]) == "students"
  {
  }

  lemma FormerPostdocsHyphens()
    ensures Hyphenated(FormerPostdocsWords) == FormerPostdocsAnchor
  {
    HyphenatedOfFive(FormerPostdocsWords);
    FormerPostdocsLower();
    FormerPostdocsAnchorSpelling();
  }

  lemma VisitorsPhrase()
    ensures VisitorsTitle == Phrase(VisitorsWords, VisitorsGaps)
  {
    PhraseOfFive(VisitorsWords, VisitorsGaps);
    VisitorsTitleSpelling();
  }

  lemma VisitorsLower()
    ensures ToLower(VisitorsWords[0]) == "visiting" && ToLower(VisitorsWords[1]) == "students"
    ensures ToLower(VisitorsWords[2]) == "scholars" && ToLower(VisitorsWords[3]) == "and"
    ensures ToLower(VisitorsWords[4]) == "scientists"
  {
  }

  lemma VisitorsHyphens()
    ensures Hyphenated(VisitorsWords) == VisitorsAnchor
  {
    HyphenatedOfFive(VisitorsWords);
    VisitorsLower();
    VisitorsAnchorSpelling();
  }

  /** The words are letters only and the gaps hold none. */
  lemma FooterTitlesShape()
    ensures forall k :: 0 <= k < 5 ==> IsWord(FormerPostdocsWords[k]) && IsWord(VisitorsWords[k])
    ensures forall k :: 0 <= k < 4 ==> IsGap(FormerPostdocsGaps[k]) && IsGap(VisitorsGaps[k])
  {
  }

  /** The section ids are the anchors of the footer's "people" links. */
  lemma FooterAnchors()
    ensures ToId(FormerPostdocsTitle) == FormerPostdocsAnchor
    ensures ToId(VisitorsTitle) == VisitorsAnchor
  {
    FooterTitlesShape();
    FormerPostdocsPhrase();
    FormerPostdocsHyphens();
    ToIdPhrase(FormerPostdocsWords, FormerPostdocsGaps);
    VisitorsPhrase();
    VisitorsHyphens();
    ToIdPhrase(VisitorsWords, VisitorsGaps);
  }

  // ---------------------------------------------------------------------------------------
  // The page

  /** One rendered member: grid cards have a picture and always the affiliation slot. */
  datatype MemberView =
    | GridCard(picture: Picture, name: String, affiliation: Option<String>)
    | ListEntry(name: String, affiliation: Option<String>)

  datatype SectionView = SectionView(id: String, title: String, members: seq<MemberView>)

  /** A grid card; pictures on this page use the image path as is. */
  function GridView(m: Member): (v: MemberView)
    ensures v.GridCard? && v.name == m.name && v.affiliation == m.affiliation
    ensures v.picture == PictureOf(m, "")
  {
    GridCard(PictureOf(m, ""), m.name, m.affiliation)
  }

  /** A list entry: the affiliation paragraph only when the affiliation is set. */
  function ListView(m: Member): (v: MemberView)
    ensures v.ListEntry? && v.name == m.name
    ensures v.affiliation.Some? <==> Truthy(m.affiliation)
    ensures v.affiliation.Some? ==> v.affiliation == m.affiliation
  {
    ListEntry(m.name, if Truthy(m.affiliation) then m.affiliation else None)
  }

  function MemberViewOf(kind: SectionKind, m: Member): MemberView
  {
    match kind
    case Grid => GridView(m)
    case List => ListView(m)
  }

  function SectionViewOf(s: Section): (v: SectionView)
    ensures v.id == ToId(s.title) && IsAnchor(v.id) && v.title == s.title
    ensures |v.members| == |s.members|
    ensures forall i :: 0 <= i < |s.members| ==> v.members[i] == MemberViewOf(s.kind, s.members[i])
  {
    ToIdIsAnchor(s.title);
    SectionView(ToId(s.title), s.title, Map(s.members, (m: Member) => MemberViewOf(s.kind, m)))
  }

  /** `peopleData.map(section => …)`. */
  function Page(sections: seq<Section>): (views: seq<SectionView>)
    ensures |views| == |sections|
    ensures forall i :: 0 <= i < |sections| ==> views[i] == SectionViewOf(sections[i])
  {
    Map(sections, SectionViewOf)
  }

  /**
   * The layout follows the section's type; a grid card shows the photo exactly when the
   * member has an image, else at most two initials.
   */
  lemma PageLayout(sections: seq<Section>, i: nat, j: nat)
    requires i < |sections| && j < |sections[i].members|
    ensures Page(sections)[i].members[j].GridCard? <==> sections[i].kind == Grid
    ensures Page(sections)[i].members[j].GridCard? ==>
      (Page(sections)[i].members[j].picture.Photo? <==> Truthy(sections[i].members[j].image))
    ensures Page(sections)[i].members[j].GridCard? && Page(sections)[i].members[j].picture.InitialsBadge? ==>
      |Page(sections)[i].members[j].picture.text| <= 2
    ensures Page(sections)[i].members[j].ListEntry? ==>
      (Page(sections)[i].members[j].affiliation.Some? <==> Truthy(sections[i].members[j].affiliation))
  {
  }
}
