/**
 * The "Blogposts and Updates" grid of components/blog-section.tsx: for each post, the link
 * target, whether it opens in a new tab, and the picture shown on its card.
 */
module BlogSection {
  import opened Wrappers
  import opened Text
  import opened Posts
  import opened LinkHelpers

  /** What fills the card's picture box. */
  datatype Visual = ThumbnailImage(src: String) | PdfIcon | Placeholder | BlogIcon(slug: String)

  /**
   * One card: `href`, whether `target="_blank"` and `rel="noopener noreferrer"` are set,
   * the picture, and whether it is hidden below the large breakpoint.
   */
  datatype SectionCard = SectionCard(href: String, newTab: bool, visual: Visual, hiddenWhenNarrow: bool)

  /** `isExternal` of the card: set exactly when the post has a (non-empty) link. */
  predicate IsExternal(post: BlogPost) { Truthy(post.link) }

  /** `thumbnailUrl`: only a YouTube link gets one; PDF and other links stay `null`. */
  function ThumbnailUrl(post: BlogPost): Option<String>
  {
    if Truthy(post.link) && IsYouTubeLink(post.link.value) then Thumbnail(post.link.value) else None
  }

  /** The thumbnail exists exactly for a YouTube link with an extractable id, and shows that video. */
  lemma ThumbnailUrlSpec(post: BlogPost)
    ensures ThumbnailUrl(post).Some? <==>
      Truthy(post.link) && IsYouTubeLink(post.link.value) && VideoId(post.link.value).Some?
    ensures ThumbnailUrl(post).Some? ==>
      ThumbnailUrl(post).value == ThumbnailHost + VideoId(post.link.value).value + ThumbnailFile
    ensures Truthy(post.link) && IsPdfLink(post.link.value) && !IsYouTubeLink(post.link.value) ==>
      ThumbnailUrl(post).None?
  {
    if Truthy(post.link) {
      ThumbnailIff(post.link.value);
    }
  }

  /** The card of the post at position `index` of the grid. */
  function CardOf(post: BlogPost, index: nat): (c: SectionCard)
    ensures c.newTab <==> IsExternal(post)
    ensures IsExternal(post) ==> c.href == post.link.value
    ensures !IsExternal(post) ==> c.href == BlogsUpdatesPrefix + post.slug && c.visual == BlogIcon(post.slug)
    ensures c.hiddenWhenNarrow <==> index == 2
  {
    var external := IsExternal(post);
    var thumbnail := ThumbnailUrl(post);
    var href := if Truthy(post.link) then post.link.value else BlogsUpdatesPrefix + post.slug;
    var visual :=
      if !external then BlogIcon(post.slug)
      else if thumbnail.Some? && thumbnail.value != [] then ThumbnailImage(thumbnail.value)
      else if IsPdfLink(post.link.GetOr("")) then PdfIcon
      else Placeholder;
    SectionCard(href, Truthy(post.link), visual, index == 2)
  }

  /**
   * The picture: the video thumbnail for a YouTube link with an id; otherwise, for an external
   * post, the PDF icon exactly when the link ends in `.pdf` in any case, else the placeholder.
   */
  lemma CardVisual(post: BlogPost, index: nat)
    ensures CardOf(post, index).visual.ThumbnailImage? <==>
      Truthy(post.link) && IsYouTubeLink(post.link.value) && VideoId(post.link.value).Some?
    ensures CardOf(post, index).visual == PdfIcon <==>
      Truthy(post.link) && IsPdfLink(post.link.value) &&
      !(IsYouTubeLink(post.link.value) && VideoId(post.link.value).Some?)
    ensures CardOf(post, index).visual.BlogIcon? <==> !Truthy(post.link)
  {
    ThumbnailUrlSpec(post);
    if Truthy(post.link) {
      ThumbnailIff(post.link.value);
    }
  }

  /**
   * `posts.map((post, index) => …)`: only the third card is hidden on narrow screens, and a card
   * opens a new tab exactly when its post has a link.
   */
  function Cards(posts: seq<BlogPost>): (cards: seq<SectionCard>)
    ensures |cards| == |posts|
    ensures forall i :: 0 <= i < |posts| ==> cards[i] == CardOf(posts[i], i)
    ensures forall i :: 0 <= i < |posts| ==> (cards[i].hiddenWhenNarrow <==> i == 2)
    ensures forall i :: 0 <= i < |posts| ==> (cards[i].newTab <==> Truthy(posts[i].link))
  {
    seq(|posts|, (i: int) requires 0 <= i < |posts| => CardOf(posts[i], i))
  }
}
