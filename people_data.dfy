/**
 * The member records of app/data/people.ts and what both people views derive from a member:
 * the initials shown in place of a missing photo (app/people/page.tsx and
 * components/team-section.tsx compute them with the same expression).
 */
module PeopleData {
  import opened Wrappers
  import opened Text
  import opened Seqs

  datatype Member = Member(
    name: String,
    role: Option<String>,
    affiliation: Option<String>,
    bio: Option<String>,
    image: Option<String>)

  datatype SectionKind = Grid | List

  datatype Section = Section(title: String, kind: SectionKind, members: seq<Member>)

  /** Section titles that other files refer to. */
  const FormerPostdocsTitle: String := "Former Postdoctoral Associates & PhD Students"
  const FormerMastersTitle: String := "Former Masters Students & Visitors"
  const VisitorsTitle: String := "Visiting Students, Scholars and Scientists"

  // ---------------------------------------------------------------------------------------
  // Initials: `name.split(' ').map(n => n.replace(/[().]/g, '')).filter(Boolean)
  //                .map(n => n[0]).slice(0, 2).join('')`

  predicate IsMark(c: char) { c == '(' || c == ')' || c == '.' }

  /** `n.replace(/[().]/g, '')`. */
  function Unmarked(n: String): (r: String)
    ensures |r| <= |n|
    ensures forall i :: 0 <= i < |r| ==> !IsMark(r[i])
    ensures (forall i :: 0 <= i < |n| ==> !IsMark(n[i])) ==> r == n
    ensures forall i :: 0 <= i < |r| ==> r[i] in n
    decreases |n|
  {
    if n == [] then []
    else (if IsMark(n[0]) then [] else [n[0]]) + Unmarked(n[1..])
  }

  predicate IsNonEmpty(w: String) { w != [] }

  /** The cleaned, non-empty words of a name. */
  function NameWords(name: String): (ws: seq<String>)
    ensures forall k :: 0 <= k < |ws| ==> ws[k] != []
  {
    Filter(Map(Split(name, ' '), Unmarked), IsNonEmpty)
  }

  /** `.map(n => n[0]).slice(0, 2).join('')` on the cleaned words. */
  function FirstLetters(words: seq<String>): (r: String)
    requires forall k :: 0 <= k < |words| ==> words[k] != []
    ensures |r| == Min(2, |words|)
    ensures forall k :: 0 <= k < |r| ==> r[k] == words[k][0]
  {
    var firsts := seq(|words|, (k: int) requires 0 <= k < |words| => words[k][0]);
    firsts[..Min(2, |firsts|)]
  }

  /** The initials shown when a member has no photo. */
  function Initials(name: String): (r: String)
    ensures |r| == Min(2, |NameWords(name)|)
    ensures forall k :: 0 <= k < |r| ==> r[k] == NameWords(name)[k][0]
    ensures forall k :: 0 <= k < |r| ==> r[k] != ' ' && !IsMark(r[k])
  {
    InitialsAreClean(name);
    FirstLetters(NameWords(name))
  }

  /** The first letter of a cleaned word is neither a space nor a mark. */
  lemma InitialsAreClean(name: String)
    ensures forall k :: 0 <= k < |NameWords(name)| ==>
      NameWords(name)[k][0] != ' ' && !IsMark(NameWords(name)[k][0])
  {
    var parts := Split(name, ' ');
    var cleaned := Map(parts, Unmarked);
    forall k | 0 <= k < |NameWords(name)|
      ensures NameWords(name)[k][0] != ' ' && !IsMark(NameWords(name)[k][0])
    {
      var w := NameWords(name)[k];
      assert w in cleaned;
      var j :| 0 <= j < |cleaned| && cleaned[j] == w;
      assert w == Unmarked(parts[j]);
      assert w[0] in parts[j];
    }
  }

  /** Splitting after a word without a space: the word, then the pieces of the rest. */
  lemma SplitAfterWord(a: String, t: String)
    requires ' ' !in a
    ensures Split(a + " " + t, ' ') == [a] + Split(t, ' ')
  {
    var s := a + " " + t;
    FindCharAfter(a, ' ', t);
    assert s == a + [' '] + t;
    assert s[..|a|] == a;
    assert s[|a| + 1..] == t;
  }

  /** Splitting a text without a space gives the text. */
  lemma NoSeparator(b: String)
    requires ' ' !in b
    ensures Split(b, ' ') == [b]
  {
    assert FindChar(b, ' ', 0).None?;
  }

  /** Where the first two pieces of a name clean to words, they give the initials. */
  lemma InitialsOfPieces(name: String, a: String, b: String, later: seq<String>)
    requires Split(name, ' ') == [a, b] + later && Unmarked(a) != [] && Unmarked(b) != []
    ensures Initials(name) == [Unmarked(a)[0], Unmarked(b)[0]]
  {
    CleanFirstTwo(a, b, later);
    FilterFirstTwo(Unmarked(a), Unmarked(b), Map(later, Unmarked));
    InitialsOfFirstWords(name, Unmarked(a), Unmarked(b));
  }

  lemma CleanFirstTwo(a: String, b: String, later: seq<String>)
    ensures Map([a, b] + later, Unmarked) == [Unmarked(a), Unmarked(b)] + Map(later, Unmarked)
  {
  }

  lemma FilterFirstTwo(x: String, y: String, t: seq<String>)
    requires x != [] && y != []
    ensures Filter([x, y] + t, IsNonEmpty) == [x, y] + Filter(t, IsNonEmpty)
  {
    assert [x, y] + t == [x] + ([y] + t);
    FilterCons(x, [y] + t, IsNonEmpty);
    FilterCons(y, t, IsNonEmpty);
  }

  lemma InitialsOfFirstWords(name: String, x: String, y: String)
    requires |NameWords(name)| >= 2 && NameWords(name)[0] == x && NameWords(name)[1] == y
    ensures Initials(name) == [x[0], y[0]]
  {
    FirstLettersOfTwo(NameWords(name));
  }

  lemma FirstLettersOfTwo(ws: seq<String>)
    requires |ws| >= 2 && forall k :: 0 <= k < |ws| ==> ws[k] != []
    ensures FirstLetters(ws) == [ws[0][0], ws[1][0]]
  {
    assert |FirstLetters(ws)| == 2;
  }

  /** `a b`: the initials are the first letters of the two words, marks removed. */
  lemma InitialsOfTwoWords(a: String, b: String)
    requires ' ' !in a && ' ' !in b && Unmarked(a) != [] && Unmarked(b) != []
    ensures Initials(a + " " + b) == [Unmarked(a)[0], Unmarked(b)[0]]
  {
    SplitAfterWord(a, b);
    NoSeparator(b);
    InitialsOfPieces(a + " " + b, a, b, []);
  }

  /** `a b …`: later words do not change the initials. */
  lemma InitialsOfLongerName(a: String, b: String, rest: String)
    requires ' ' !in a && ' ' !in b && Unmarked(a) != [] && Unmarked(b) != []
    ensures Initials(a + " " + b + " " + rest) == [Unmarked(a)[0], Unmarked(b)[0]]
  {
    SplitTwoWords(a, b, rest);
    InitialsOfPieces(a + " " + b + " " + rest, a, b, Split(rest, ' '));
  }

  lemma SplitTwoWords(a: String, b: String, rest: String)
    requires ' ' !in a && ' ' !in b
    ensures Split(a + " " + b + " " + rest, ' ') == [a, b] + Split(rest, ' ')
  {
    assert a + " " + b + " " + rest == a + " " + (b + " " + rest);
    SplitAfterWord(a, b + " " + rest);
    SplitAfterWord(b, rest);
    assert [a] + ([b] + Split(rest, ' ')) == [a, b] + Split(rest, ' ');
  }

  /** A photo, or the member's initials. */
  datatype Picture = Photo(src: String) | InitialsBadge(text: String)

  /** The picture rule of both views: the image when `member.image` is set, under `basePath`. */
  function PictureOf(m: Member, basePath: String): (p: Picture)
    ensures p.Photo? <==> Truthy(m.image)
    ensures p.Photo? ==> p.src == basePath + m.image.value
    ensures p.InitialsBadge? ==> p.text == Initials(m.name) && |p.text| <= 2
  {
    if Truthy(m.image) then Photo(basePath + m.image.value) else InitialsBadge(Initials(m.name))
  }
}
