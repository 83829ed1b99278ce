/**
 * The `/blog` page of app/blog/page.tsx: the markdown posts and the static "Interesting
 * Bit" posts merged into one list, sorted by date, newest first, and the card of each.
 */
module BlogPage {
  import opened Wrappers
  import opened Text
  import opened Seqs
  import opened Posts
  import opened LinkHelpers

  /** The markdown posts that loaded (`p !== null`), in slug order. */
  function Loaded(dynamicPosts: seq<Option<BlogPost>>): seq<BlogPost>
    decreases |dynamicPosts|
  {
    if dynamicPosts == [] then []
    else (match dynamicPosts[0] case Some(p) => [p] case None => []) + Loaded(dynamicPosts[1..])
  }

  predicate IsLoaded(o: Option<BlogPost>) { o.Some? }

  function Wrap(p: BlogPost): Option<BlogPost> { Some(p) }

  /** Wrapping the loaded posts again gives exactly the non-null entries, in order. */
  lemma {:induction false} LoadedSpec(dynamicPosts: seq<Option<BlogPost>>)
    ensures Map(Loaded(dynamicPosts), Wrap) == Filter(dynamicPosts, IsLoaded)
    ensures |Loaded(dynamicPosts)| == Count(dynamicPosts, IsLoaded)
    decreases |dynamicPosts|
  {
    if dynamicPosts != [] {
      var rest := dynamicPosts[1..];
      LoadedSpec(rest);
      var head := match dynamicPosts[0] case Some(p) => [p] case None => [];
      MapConcat(head, Loaded(rest), Wrap);
      assert Map(head, Wrap) == (if dynamicPosts[0].Some? then [dynamicPosts[0]] else []);
    }
  }

  /** A markdown post on the page: no link, not external. */
  function Internal(p: BlogPost): ListedPost
  {
    ListedPost(p.(link := None), false)
  }

  /** A static post on the page: marked external. */
  function Tidbit(b: BlogPost): ListedPost
  {
    ListedPost(b, true)
  }

  const InterestingBit: String := "Interesting Bit"

  predicate IsInterestingBit(b: BlogPost) { b.category == InterestingBit }

  function DynamicPart(dynamicPosts: seq<Option<BlogPost>>): seq<ListedPost>
  {
    Map(Loaded(dynamicPosts), Internal)
  }

  function StaticPart(staticBlogs: seq<BlogPost>): seq<ListedPost>
  {
    Map(Filter(staticBlogs, IsInterestingBit), Tidbit)
  }

  /**
   * `new Date(b.date).getTime() - new Date(a.date).getTime()`; `dateKey` stands for the
   * date parser, `None` for an invalid date (NaN).
   */
  function DateOrder(dateKey: String -> Option<int>): (ListedPost, ListedPost) -> int
  {
    (a: ListedPost, b: ListedPost) => NumberDescending(dateKey(a.post.date), dateKey(b.post.date))
  }

  /** `allPosts`: both parts, then the page's sort. */
  function AllPosts(dynamicPosts: seq<Option<BlogPost>>, staticBlogs: seq<BlogPost>,
                    dateKey: String -> Option<int>): seq<ListedPost>
  {
    SortBy(DynamicPart(dynamicPosts) + StaticPart(staticBlogs), DateOrder(dateKey))
  }

  /**
   * The page lists every loaded markdown post and every static "Interesting Bit" post, once
   * each, and nothing else: markdown posts lose their link and are internal, static posts
   * are external and of that category.
   */
  lemma AllPostsContents(dynamicPosts: seq<Option<BlogPost>>, staticBlogs: seq<BlogPost>,
                         dateKey: String -> Option<int>)
    ensures multiset(AllPosts(dynamicPosts, staticBlogs, dateKey)) ==
      multiset(DynamicPart(dynamicPosts)) + multiset(StaticPart(staticBlogs))
    ensures |AllPosts(dynamicPosts, staticBlogs, dateKey)| ==
      Count(dynamicPosts, IsLoaded) + Count(staticBlogs, IsInterestingBit)
    ensures forall q :: q in AllPosts(dynamicPosts, staticBlogs, dateKey) ==>
      (!q.isExternal && q.post.link.None? && q in DynamicPart(dynamicPosts)) ||
      (q.isExternal && q.post in staticBlogs && IsInterestingBit(q.post))
  {
    var u := DynamicPart(dynamicPosts) + StaticPart(staticBlogs);
    SortByPermutes(u, DateOrder(dateKey));
    LoadedSpec(dynamicPosts);
    forall q | q in AllPosts(dynamicPosts, staticBlogs, dateKey)
      ensures (!q.isExternal && q.post.link.None? && q in DynamicPart(dynamicPosts)) ||
              (q.isExternal && q.post in staticBlogs && IsInterestingBit(q.post))
    {
      assert q in multiset(u);
      PartMembership(dynamicPosts, staticBlogs, q);
    }
  }

  /** Where an element of the merged list comes from. */
  lemma PartMembership(dynamicPosts: seq<Option<BlogPost>>, staticBlogs: seq<BlogPost>, q: ListedPost)
    requires q in DynamicPart(dynamicPosts) + StaticPart(staticBlogs)
    ensures (!q.isExternal && q.post.link.None? && q in DynamicPart(dynamicPosts)) ||
            (q.isExternal && q.post in staticBlogs && IsInterestingBit(q.post))
  {
    if q !in DynamicPart(dynamicPosts) {
      var s := StaticPart(staticBlogs);
      var m :| 0 <= m < |s| && s[m] == q;
      assert q == Tidbit(Filter(staticBlogs, IsInterestingBit)[m]);
    } else {
      var d := DynamicPart(dynamicPosts);
      var m :| 0 <= m < |d| && d[m] == q;
      assert q == Internal(Loaded(dynamicPosts)[m]);
    }
  }

  /** The date comparator is consistent enough for the sort: NaN makes it tie both ways. */
  lemma DateOrderConsistent(s: seq<ListedPost>, dateKey: String -> Option<int>)
    ensures ConsistentOn(s, DateOrder(dateKey))
  {
    var cmp := DateOrder(dateKey);
    forall a, b ensures cmp(a, b) == NumberDescending(dateKey(a.post.date), dateKey(b.post.date)) {
    }
  }

  /** Neighbours whose dates both parse are newest first. */
  lemma AllPostsAdjacent(dynamicPosts: seq<Option<BlogPost>>, staticBlogs: seq<BlogPost>,
                         dateKey: String -> Option<int>, i: nat)
    requires i + 1 < |AllPosts(dynamicPosts, staticBlogs, dateKey)|
    requires dateKey(AllPosts(dynamicPosts, staticBlogs, dateKey)[i].post.date).Some?
    requires dateKey(AllPosts(dynamicPosts, staticBlogs, dateKey)[i + 1].post.date).Some?
    ensures dateKey(AllPosts(dynamicPosts, staticBlogs, dateKey)[i].post.date).value >=
            dateKey(AllPosts(dynamicPosts, staticBlogs, dateKey)[i + 1].post.date).value
  {
    var u := DynamicPart(dynamicPosts) + StaticPart(staticBlogs);
    DateOrderConsistent(u, dateKey);
    SortByAdjacentSorted(u, DateOrder(dateKey));
    var r := AllPosts(dynamicPosts, staticBlogs, dateKey);
    assert DateOrder(dateKey)(r[i], r[i + 1]) <= 0;
  }

  /** The post's date as a number, 0 for an invalid one. */
  function DateNumber(dateKey: String -> Option<int>): ListedPost -> int
  {
    (q: ListedPost) => dateKey(q.post.date).GetOr(0)
  }

  /**
   * When every date parses, the list is sorted newest first, and posts with the same date
   * keep their merged order (markdown before static, each in its own order).
   */
  lemma AllPostsSorted(dynamicPosts: seq<Option<BlogPost>>, staticBlogs: seq<BlogPost>,
                       dateKey: String -> Option<int>, k: int)
    requires forall q :: q in DynamicPart(dynamicPosts) + StaticPart(staticBlogs) ==> dateKey(q.post.date).Some?
    ensures SortedDescending(AllPosts(dynamicPosts, staticBlogs, dateKey), DateNumber(dateKey))
    ensures Filter(AllPosts(dynamicPosts, staticBlogs, dateKey), HasKey(DateNumber(dateKey), k)) ==
            Filter(DynamicPart(dynamicPosts) + StaticPart(staticBlogs), HasKey(DateNumber(dateKey), k))
  {
    var u := DynamicPart(dynamicPosts) + StaticPart(staticBlogs);
    var key := DateNumber(dateKey);
    forall a, b | a in u && b in u ensures DateOrder(dateKey)(a, b) == DescendingBy(key)(a, b) {
    }
    SortByCongruent(u, DateOrder(dateKey), DescendingBy(key));
    SortDescendingStable(u, key, k);
  }

  /** The card of one post on this page: external exactly when it has a link. */
  function PageCard(q: ListedPost): (c: Card)
    ensures c.ExternalCard? <==> Truthy(q.post.link)
    ensures c.ExternalCard? ==> c.link == q.post.link && c.preview == ExternalPreview(q.post.link)
  {
    if Truthy(q.post.link) then ExternalCard(q.post.link, ExternalPreview(q.post.link))
    else InternalCard("/blog/" + q.post.slug)
  }

  /** Every markdown post takes the internal branch, to `/blog/<slug>`. */
  lemma MarkdownPostsInternal(dynamicPosts: seq<Option<BlogPost>>, staticBlogs: seq<BlogPost>,
                              dateKey: String -> Option<int>)
    ensures forall q :: q in AllPosts(dynamicPosts, staticBlogs, dateKey) && !q.isExternal ==>
      PageCard(q) == InternalCard("/blog/" + q.post.slug)
  {
    AllPostsContents(dynamicPosts, staticBlogs, dateKey);
  }
}
