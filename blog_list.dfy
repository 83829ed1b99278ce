/**
 * The blog and updates listing of components/blog-list.tsx: the filter tab state, the
 * filtered list, and the card each post renders as.
 */
module BlogList {
  import opened Wrappers
  import opened Text
  import opened Seqs
  import opened Posts
  import opened LinkHelpers

  const All: String := "All"
  const BlogTab: String := "Blog"
  const Updates: String := "Updates"

  /** The three filter buttons, in display order. */
  const Tabs: seq<String> := [All, BlogTab, Updates]

  /** The filter the `filter` query parameter selects, starting from the current one. */
  function InitialFilter(current: String, initial: Option<String>): String
  {
    if !Truthy(initial) then current
    else if initial.value == BlogTab || initial.value == Updates then initial.value
    else All
  }

  /**
   * An absent or empty parameter leaves the filter alone, `Blog` and `Updates` are
   * adopted, and anything else resets to `All`; the filter stays one of the tabs, and
   * applying the parameter twice is applying it once.
   */
  lemma InitialFilterSpec(current: String, initial: Option<String>)
    ensures !Truthy(initial) ==> InitialFilter(current, initial) == current
    ensures Truthy(initial) && initial.value in [BlogTab, Updates] ==> InitialFilter(current, initial) == initial.value
    ensures Truthy(initial) && initial.value !in [BlogTab, Updates] ==> InitialFilter(current, initial) == All
    ensures current in Tabs ==> InitialFilter(current, initial) in Tabs
    ensures InitialFilter(InitialFilter(current, initial), initial) == InitialFilter(current, initial)
  {
  }

  /** The `useState` filter of `BlogListContent`. */
  class FilterState {
    var filter: String

    predicate Valid()
      reads this
    {
      filter in Tabs
    }

    constructor ()
      ensures filter == All && Valid()
    {
      filter := All;
    }

    /** The effect run on the `filter` query parameter (`null` when absent). */
    method ApplyInitial(initial: Option<String>)
      requires Valid()
      modifies this
      ensures filter == InitialFilter(old(filter), initial) && Valid()
    {
      if Truthy(initial) {
        if initial.value == BlogTab || initial.value == Updates {
          filter := initial.value;
        } else {
          filter := All;
        }
      }
    }

    /** A click on one of the tab buttons. */
    method Click(f: String)
      requires f in Tabs
      modifies this
      ensures filter == f && Valid()
    {
      filter := f;
    }
  }

  /** The `filteredPosts` predicate for one post. */
  predicate Shown(filter: String, p: ListedPost)
  {
    if filter == All then true
    else if filter == BlogTab then p.post.category == BlogTab || (!p.isExternal && p.post.category == [])
    else if filter == Updates then
      p.post.category != BlogTab && (p.isExternal || p.post.category == "Interesting Bit")
    else true
  }

  function ShownBy(filter: String): ListedPost -> bool
  {
    (p: ListedPost) => Shown(filter, p)
  }

  /** `filteredPosts`: the posts the current tab shows, in their original order. */
  function FilteredPosts(posts: seq<ListedPost>, filter: String): seq<ListedPost>
  {
    Filter(posts, ShownBy(filter))
  }

  /** The filtered list is an order-preserving subsequence, and a tab other than `Blog` or `Updates` keeps every post. */
  lemma FilteredPostsSpec(posts: seq<ListedPost>, filter: String)
    ensures IsSubsequence(FilteredPosts(posts, filter), posts)
    ensures filter != BlogTab && filter != Updates ==> FilteredPosts(posts, filter) == posts
    ensures forall p :: p in FilteredPosts(posts, filter) <==> p in posts && Shown(filter, p)
  {
    FilterIsSubsequence(posts, ShownBy(filter));
    if filter != BlogTab && filter != Updates {
      FilterAll(posts, ShownBy(filter));
    }
  }

  /** No post is both a blog post and an update. */
  lemma BlogAndUpdatesDisjoint(p: ListedPost)
    ensures !(Shown(BlogTab, p) && Shown(Updates, p))
  {
  }

  /** Hence the two tabs together list each post at most once. */
  lemma {:induction false} BlogAndUpdatesAtMostAll(posts: seq<ListedPost>)
    ensures |FilteredPosts(posts, BlogTab)| + |FilteredPosts(posts, Updates)| <= |posts|
    decreases |posts|
  {
    if posts != [] {
      BlogAndUpdatesAtMostAll(posts[1..]);
      FilterCons(posts[0], posts[1..], ShownBy(BlogTab));
      FilterCons(posts[0], posts[1..], ShownBy(Updates));
      assert posts == [posts[0]] + posts[1..];
      BlogAndUpdatesDisjoint(posts[0]);
    }
  }

  /** The card of one listed post; `isExternal` is `post.isExternal || post.link`. */
  function ListCard(p: ListedPost): (c: Card)
    ensures c.ExternalCard? <==> p.isExternal || Truthy(p.post.link)
    ensures c.ExternalCard? ==> c.link == p.post.link && c.preview == ExternalPreview(p.post.link)
    ensures c.InternalCard? ==> StartsWith(c.path, BlogsUpdatesPrefix)
  {
    if p.isExternal || Truthy(p.post.link) then ExternalCard(p.post.link, ExternalPreview(p.post.link))
    else InternalCard(BlogsUpdatesPrefix + p.post.slug)
  }

  /** An internal card's path names its post: the slug is what follows the prefix. */
  lemma InternalPathNamesSlug(p: ListedPost)
    requires ListCard(p).InternalCard?
    ensures ListCard(p).path[|BlogsUpdatesPrefix|..] == p.post.slug
    ensures !p.isExternal && !Truthy(p.post.link)
  {
    assert (BlogsUpdatesPrefix + p.post.slug)[|BlogsUpdatesPrefix|..] == p.post.slug;
  }

  /** The rendered list: one card per shown post, in order. */
  function ListView(posts: seq<ListedPost>, filter: String): (cards: seq<Card>)
    ensures |cards| == |FilteredPosts(posts, filter)|
    ensures forall i :: 0 <= i < |cards| ==> cards[i] == ListCard(FilteredPosts(posts, filter)[i])
  {
    Map(FilteredPosts(posts, filter), ListCard)
  }
}
