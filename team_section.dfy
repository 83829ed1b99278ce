/**
 * The "Researchers" grid of components/team-section.tsx: every member of every section
 * except the two "Former …" sections, as one flat list of photo cards.
 */
module TeamSection {
  import opened Wrappers
  import opened Text
  import opened Seqs
  import opened PeopleData

  /** `excludedSections`. */
  const ExcludedSections: seq<String> := [FormerPostdocsTitle, FormerMastersTitle]

  predicate IsShownSection(s: Section) { s.title !in ExcludedSections }

  /** `filteredPeopleData`. */
  function FilteredPeopleData(data: seq<Section>): seq<Section>
  {
    Filter(data, IsShownSection)
  }

  /**
   * The shown sections are the data minus exactly the sections titled like one of the two
   * former-member sections, in the original order; data without such a section is kept whole.
   */
  lemma FilteredPeopleDataSpec(data: seq<Section>)
    ensures IsSubsequence(FilteredPeopleData(data), data)
    ensures forall s :: s in FilteredPeopleData(data) <==>
      s in data && s.title != FormerPostdocsTitle && s.title != FormerMastersTitle
    ensures (forall s :: s in data ==> s.title != FormerPostdocsTitle && s.title != FormerMastersTitle) ==>
      FilteredPeopleData(data) == data
  {
    FilterIsSubsequence(data, IsShownSection);
    if forall s :: s in data ==> s.title != FormerPostdocsTitle && s.title != FormerMastersTitle {
      FilterAll(data, IsShownSection);
    }
  }

  function MembersOf(s: Section): seq<Member> { s.members }

  /** `filteredPeopleData.flatMap(section => section.members)`. */
  function TeamMembers(data: seq<Section>): seq<Member>
  {
    Flatten(Map(FilteredPeopleData(data), MembersOf))
  }

  /**
   * The member list is the shown sections' members one section after another: its length is
   * their total, and a member is listed exactly when it belongs to a shown section.
   */
  lemma TeamMembersSpec(data: seq<Section>, m: Member)
    ensures |TeamMembers(data)| == TotalLength(Map(FilteredPeopleData(data), MembersOf))
    ensures m in TeamMembers(data) <==>
      exists k :: 0 <= k < |FilteredPeopleData(data)| && m in FilteredPeopleData(data)[k].members
    ensures FilteredPeopleData(data) != [] ==>
      TeamMembers(data)[..|FilteredPeopleData(data)[0].members|] == FilteredPeopleData(data)[0].members
  {
    var ss := Map(FilteredPeopleData(data), MembersOf);
    FlattenLength(ss);
    FlattenMembership(ss, m);
    if ss != [] {
      assert Flatten(ss) == ss[0] + Flatten(ss[1..]);
    }
  }

  datatype TeamCard = TeamCard(picture: Picture, name: String)

  /** One card: the photo under the site's base path, or the initials. */
  function TeamCardOf(m: Member, basePath: String): (c: TeamCard)
    ensures c.name == m.name
    ensures c.picture.Photo? <==> Truthy(m.image)
    ensures c.picture.Photo? ==> c.picture.src == basePath + m.image.value
    ensures c.picture.InitialsBadge? ==> c.picture.text == Initials(m.name) && |c.picture.text| <= 2
  {
    TeamCard(PictureOf(m, basePath), m.name)
  }

  /** The rendered grid, `basePath` standing for `getBasePath()`. */
  function TeamView(data: seq<Section>, basePath: String): (cards: seq<TeamCard>)
    ensures |cards| == |TeamMembers(data)|
    ensures forall i :: 0 <= i < |cards| ==> cards[i] == TeamCardOf(TeamMembers(data)[i], basePath)
  {
    Map(TeamMembers(data), (m: Member) => TeamCardOf(m, basePath))
  }
}
