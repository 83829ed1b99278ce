/**
 * The URL helpers that components/blog-list.tsx, app/blog/page.tsx and
 * components/blog-section.tsx each define with the same text: the YouTube video id, the
 * thumbnail URL, the link type, and the preview shown for an external post.
 */
module LinkHelpers {
  import opened Wrappers
  import opened Text

  // ---------------------------------------------------------------------------------------
  // `url.match(/(?:<prefix>)([^<stop>]+)/)`

  /** The regular expression matches at `i`: the prefix, then at least one character other than `stop`. */
  predicate MatchAt(url: String, prefix: String, stop: char, i: nat)
  {
    OccursAt(url, prefix, i) && i + |prefix| < |url| && url[i + |prefix|] != stop
  }

  /** The leftmost match position at or after `from`. */
  function MatchFrom(url: String, prefix: String, stop: char, from: nat): (r: Option<nat>)
    requires prefix != []
    ensures r.Some? ==> from <= r.value && MatchAt(url, prefix, stop, r.value)
    decreases |url| - from
  {
    match IndexOfFrom(url, prefix, from)
    case None => None
    case Some(i) =>
      if i + |prefix| < |url| && url[i + |prefix|] != stop then Some(i)
      else MatchFrom(url, prefix, stop, i + 1)
  }

  /** No match is skipped: `None` means there is none, `Some` is the leftmost one. */
  lemma {:induction false} MatchFromLeftmost(url: String, prefix: String, stop: char, from: nat)
    requires prefix != []
    ensures MatchFrom(url, prefix, stop, from).None? ==>
      forall j :: from <= j ==> !MatchAt(url, prefix, stop, j)
    ensures MatchFrom(url, prefix, stop, from).Some? ==>
      forall j :: from <= j < MatchFrom(url, prefix, stop, from).value ==> !MatchAt(url, prefix, stop, j)
    decreases |url| - from
  {
    IndexOfFromFirst(url, prefix, from);
    var o := IndexOfFrom(url, prefix, from);
    if o.Some? {
      var i := o.value;
      if !(i + |prefix| < |url| && url[i + |prefix|] != stop) {
        MatchFromLeftmost(url, prefix, stop, i + 1);
        var r := MatchFrom(url, prefix, stop, i + 1);
        assert MatchFrom(url, prefix, stop, from) == r;
        assert !MatchAt(url, prefix, stop, i);
        NoMatchBefore(url, prefix, stop, from, i);
      }
    }
  }

  /** Before the first occurrence of the prefix there is no match. */
  lemma NoMatchBefore(url: String, prefix: String, stop: char, from: nat, i: nat)
    requires forall j :: from <= j < i ==> !OccursAt(url, prefix, j)
    ensures forall j :: from <= j < i ==> !MatchAt(url, prefix, stop, j)
  {
  }

  /** The end of the greedy `[^stop]+` run that starts at `st`. */
  function RunEnd(url: String, stop: char, st: nat): (e: nat)
    requires st <= |url|
    ensures st <= e <= |url| && (e < |url| ==> url[e] == stop)
    ensures forall j :: st <= j < e ==> url[j] != stop
  {
    match FindChar(url, stop, st)
    case Some(e) => e
    case None => |url|
  }

  /** `match[1]`: the capture group of the leftmost match, if any. */
  function Capture(url: String, prefix: String, stop: char): (r: Option<String>)
    requires prefix != []
    ensures r.Some? ==> r.value != [] && stop !in r.value
  {
    match MatchFrom(url, prefix, stop, 0)
    case None => None
    case Some(i) => Some(url[i + |prefix|..RunEnd(url, stop, i + |prefix|)])
  }

  const WatchPrefix: String := "youtube.com/watch?v="
  const ShortPrefix: String := "youtu.be/"
  const EmbedPrefix: String := "youtube.com/embed/"

  /** `getYouTubeVideoId`: the three patterns in order, the first that matches wins. */
  function VideoId(url: String): (r: Option<String>)
    ensures r.Some? ==> r.value != []
    ensures Capture(url, WatchPrefix, '&').Some? ==> r == Capture(url, WatchPrefix, '&')
    ensures Capture(url, WatchPrefix, '&').None? && Capture(url, ShortPrefix, '?').Some? ==>
      r == Capture(url, ShortPrefix, '?')
    ensures r.None? <==>
      Capture(url, WatchPrefix, '&').None? && Capture(url, ShortPrefix, '?').None? &&
      Capture(url, EmbedPrefix, '?').None?
  {
    match Capture(url, WatchPrefix, '&')
    case Some(id) => Some(id)
    case None =>
      match Capture(url, ShortPrefix, '?')
      case Some(id) => Some(id)
      case None => Capture(url, EmbedPrefix, '?')
  }

  /** One entry of the `patterns` array: the literal text before the group, and the group's stop character. */
  datatype Pattern = Pattern(prefix: String, stop: char)

  const Patterns: seq<Pattern> := [Pattern(WatchPrefix, '&'), Pattern(ShortPrefix, '?'), Pattern(EmbedPrefix, '?')]

  /** The capture of pattern `k`. */
  function CaptureOf(url: String, k: nat): Option<String>
    requires k < |Patterns|
  {
    Capture(url, Patterns[k].prefix, Patterns[k].stop)
  }

  /** The video id is the capture of the first pattern that matches, and `null` when none does. */
  lemma VideoIdIsFirstCapture(url: String, i: nat)
    requires i <= |Patterns| && forall k :: 0 <= k < i ==> CaptureOf(url, k).None?
    ensures i < |Patterns| && CaptureOf(url, i).Some? ==> VideoId(url) == CaptureOf(url, i)
    ensures i == |Patterns| ==> VideoId(url).None?
  {
    if i > 0 {
      assert CaptureOf(url, 0).None?;
    }
    if i > 1 {
      assert CaptureOf(url, 1).None?;
    }
    if i > 2 {
      assert CaptureOf(url, 2).None?;
    }
  }

  /** The search loop of `getYouTubeVideoId`: the capture of the first pattern that matches, else `null`. */
  method GetYouTubeVideoId(url: String) returns (r: Option<String>)
    ensures r == VideoId(url)
  {
    for i := 0 to |Patterns|
      invariant forall k :: 0 <= k < i ==> CaptureOf(url, k).None?
    {
      var pattern := Patterns[i];
      var m := Capture(url, pattern.prefix, pattern.stop);
      if m.Some? {
        VideoIdIsFirstCapture(url, i);
        return m;
      }
    }
    VideoIdIsFirstCapture(url, |Patterns|);
    return None;
  }

  const ThumbnailHost: String := "https://img.youtube.com/vi/"
  const ThumbnailFile: String := "/maxresdefault.jpg"

  /** `getYouTubeThumbnail`. */
  function Thumbnail(url: String): Option<String>
  {
    match VideoId(url)
    case None => None
    case Some(id) => if id == [] then None else Some(ThumbnailHost + id + ThumbnailFile)
  }

  /** The thumbnail is missing exactly when there is no video id, and otherwise names it. */
  lemma ThumbnailIff(url: String)
    ensures Thumbnail(url).None? <==> VideoId(url).None?
    ensures VideoId(url).Some? ==> Thumbnail(url) == Some(ThumbnailHost + VideoId(url).value + ThumbnailFile)
  {
  }

  // ---------------------------------------------------------------------------------------
  // Round trips on the canonical URL forms

  /** The characters of a YouTube video id. */
  predicate IsIdChar(c: char) { IsLetter(c) || IsDigit(c) || c == '-' || c == '_' }

  predicate IsVideoIdText(id: String)
  {
    id != [] && forall i :: 0 <= i < |id| ==> IsIdChar(id[i])
  }

  /** Each character of an occurrence is the pattern's character. */
  lemma OccurrenceChars(s: String, p: String, d: nat)
    requires d < |p|
    ensures forall i: nat :: OccursAt(s, p, i) ==> s[i + d] == p[d]
  {
    forall i: nat | OccursAt(s, p, i) ensures s[i + d] == p[d] {
      assert s[i + d] == s[i..i + |p|][d];
    }
  }

  /** Where a character of the pattern occurs only once in the text, every occurrence is pinned there. */
  lemma PinnedOccurrence(s: String, p: String, d: nat, q: nat)
    requires d < |p| && forall k :: 0 <= k < |s| && s[k] == p[d] ==> k == q
    ensures forall i: nat :: OccursAt(s, p, i) ==> i + d == q
  {
    OccurrenceChars(s, p, d);
  }

  /** A pattern with a character the text lacks does not occur. */
  lemma AbsentOccurrence(s: String, p: String, d: nat)
    requires d < |p| && forall k :: 0 <= k < |s| ==> s[k] != p[d]
    ensures forall i: nat :: !OccursAt(s, p, i)
  {
    OccurrenceChars(s, p, d);
  }

  /** The capture of a match at `i` whose run reaches the end of the URL. */
  lemma CaptureIs(url: String, prefix: String, stop: char, i: nat)
    requires prefix != [] && MatchAt(url, prefix, stop, i)
    requires forall j :: 0 <= j < i ==> !MatchAt(url, prefix, stop, j)
    requires forall j :: i + |prefix| <= j < |url| ==> url[j] != stop
    ensures Capture(url, prefix, stop) == Some(url[i + |prefix|..])
  {
    MatchFromLeftmost(url, prefix, stop, 0);
    var m := MatchFrom(url, prefix, stop, 0);
    assert m.Some? && m.value <= i;
    assert m.value == i;
    var e := RunEnd(url, stop, i + |prefix|);
    assert e == |url|;
    assert Capture(url, prefix, stop) == Some(url[i + |prefix|..e]);
    assert url[i + |prefix|..e] == url[i + |prefix|..];
  }

  /** Where the separators sit in the three patterns. */
  lemma PrefixChars()
    ensures forall k :: 0 <= k < |WatchPrefix| && WatchPrefix[k] == '?' ==> k == 17
    ensures forall k :: 0 <= k < |ShortPrefix| ==> ShortPrefix[k] != '?'
    ensures forall k :: 0 <= k < |ShortPrefix| && ShortPrefix[k] == '.' ==> k == 5
    ensures forall k :: 0 <= k < |EmbedPrefix| ==> EmbedPrefix[k] != '?'
    ensures forall k :: 0 <= k < |EmbedPrefix| && EmbedPrefix[k] == '.' ==> k == 7
  {
  }

  /** A character found once in the middle piece and nowhere else is found once in the whole. */
  lemma OnceInMiddle(host: String, pre: String, id: String, c: char, q: nat)
    requires c !in host && c !in id
    requires forall k :: 0 <= k < |pre| && pre[k] == c ==> k == q
    ensures forall k :: 0 <= k < |host + pre + id| && (host + pre + id)[k] == c ==> k == |host| + q
  {
    var url := host + pre + id;
    assert forall k :: 0 <= k < |host| ==> url[k] == host[k];
    assert forall k :: |host| <= k < |host| + |pre| ==> url[k] == pre[k - |host|];
    assert forall k :: |host| + |pre| <= k < |url| ==> url[k] == id[k - |host| - |pre|];
  }

  /** A character in none of the three pieces is not in the whole. */
  lemma AbsentFromAll(host: String, pre: String, id: String, c: char)
    requires c !in host && c !in id
    requires forall k :: 0 <= k < |pre| ==> pre[k] != c
    ensures forall k :: 0 <= k < |host + pre + id| ==> (host + pre + id)[k] != c
  {
    var url := host + pre + id;
    assert forall k :: 0 <= k < |host| ==> url[k] == host[k];
    assert forall k :: |host| <= k < |host| + |pre| ==> url[k] == pre[k - |host|];
    assert forall k :: |host| + |pre| <= k < |url| ==> url[k] == id[k - |host| - |pre|];
  }

  /** The pattern matches where it was written, and the capture runs to the end. */
  lemma CaptureOfForm(host: String, pre: String, id: String, stop: char)
    requires pre != [] && IsVideoIdText(id) && stop !in id
    requires forall j :: 0 <= j < |host| ==> !MatchAt(host + pre + id, pre, stop, j)
    ensures Capture(host + pre + id, pre, stop) == Some(id)
  {
    var url := host + pre + id;
    assert url[|host|..|host| + |pre|] == pre;
    assert url[|host| + |pre|] == id[0];
    forall j | |host| + |pre| <= j < |url| ensures url[j] != stop {
      assert url[j] == id[j - |host| - |pre|];
    }
    CaptureIs(url, pre, stop, |host|);
    assert url[|host| + |pre|..] == id;
  }

  /** An id never holds a query or path separator. */
  lemma IdSeparators(id: String)
    requires IsVideoIdText(id)
    ensures '?' !in id && '&' !in id && '.' !in id && '/' !in id
  {
  }

  /** No pattern text occurs where its pinned character is absent or elsewhere. */
  lemma NoCaptureWithout(url: String, pre: String, stop: char, d: nat)
    requires pre != [] && d < |pre| && forall k :: 0 <= k < |url| ==> url[k] != pre[d]
    ensures Capture(url, pre, stop).None?
  {
    AbsentOccurrence(url, pre, d);
    MatchFromLeftmost(url, pre, stop, 0);
  }

  /** The id of `<host>youtube.com/watch?v=<id>` is `<id>`, for a host without `?`. */
  lemma WatchUrlRoundTrip(host: String, id: String)
    requires IsVideoIdText(id) && '?' !in host
    ensures VideoId(host + WatchPrefix + id) == Some(id)
  {
    var url := host + WatchPrefix + id;
    IdSeparators(id);
    PrefixChars();
    OnceInMiddle(host, WatchPrefix, id, '?', 17);
    PinnedOccurrence(url, WatchPrefix, 17, |host| + 17);
    CaptureOfForm(host, WatchPrefix, id, '&');
  }

  /** The id of `<host>youtu.be/<id>` is `<id>`, for a host without `?` or `.`. */
  lemma ShortUrlRoundTrip(host: String, id: String)
    requires IsVideoIdText(id) && '?' !in host && '.' !in host
    ensures VideoId(host + ShortPrefix + id) == Some(id)
  {
    var url := host + ShortPrefix + id;
    IdSeparators(id);
    PrefixChars();
    AbsentFromAll(host, ShortPrefix, id, '?');
    assert WatchPrefix[17] == '?';
    NoCaptureWithout(url, WatchPrefix, '&', 17);
    OnceInMiddle(host, ShortPrefix, id, '.', 5);
    PinnedOccurrence(url, ShortPrefix, 5, |host| + 5);
    CaptureOfForm(host, ShortPrefix, id, '?');
  }

  /** The id of `<host>youtube.com/embed/<id>` is `<id>`, for a host without `?` or `y`. */
  lemma EmbedUrlRoundTrip(host: String, id: String)
    requires IsVideoIdText(id) && '?' !in host && 'y' !in host
    ensures VideoId(host + EmbedPrefix + id) == Some(id)
  {
    var url := host + EmbedPrefix + id;
    IdSeparators(id);
    PrefixChars();
    AbsentFromAll(host, EmbedPrefix, id, '?');
    assert WatchPrefix[17] == '?';
    NoCaptureWithout(url, WatchPrefix, '&', 17);
    ShortAbsentFromEmbed(host, id);
    OccurrenceChars(url, EmbedPrefix, 0);
    assert forall k :: 0 <= k < |host| ==> url[k] == host[k];
    assert forall j :: 0 <= j < |host| ==> !OccursAt(url, EmbedPrefix, j);
    CaptureOfForm(host, EmbedPrefix, id, '?');
  }

  /**
   * `youtu.be/` does not occur in an embed URL: its `y` cannot sit in the host, and past the host
   * the only `.` is the one after `youtube`, which would put the `y` on a `u`.
   */
  lemma ShortAbsentFromEmbed(host: String, id: String)
    requires IsVideoIdText(id) && 'y' !in host
    ensures Capture(host + EmbedPrefix + id, ShortPrefix, '?').None?
  {
    var url := host + EmbedPrefix + id;
    IdSeparators(id);
    PrefixChars();
    var pre := EmbedPrefix;
    assert forall k :: 0 <= k < |host| ==> url[k] == host[k];
    assert forall k :: |host| <= k < |host| + |pre| ==> url[k] == pre[k - |host|];
    assert forall k :: |host| + |pre| <= k < |url| ==> url[k] == id[k - |host| - |pre|];
    OccurrenceChars(url, ShortPrefix, 5);
    OccurrenceChars(url, ShortPrefix, 0);
    assert url[|host| + 2] == 'u';
    assert forall i: nat :: !OccursAt(url, ShortPrefix, i);
    MatchFromLeftmost(url, ShortPrefix, '?', 0);
  }

  /** The hosts of the canonical forms hold no separator that could start an earlier match. */
  lemma CanonicalHosts()
    ensures '?' !in "https://www." && 'y' !in "https://www."
    ensures '?' !in "https://" && '.' !in "https://"
  {
  }

  /** The canonical forms: `https://www.youtube.com/watch?v=<id>`, `https://youtu.be/<id>`. */
  lemma CanonicalUrls(id: String)
    requires IsVideoIdText(id)
    ensures VideoId("https://www." + WatchPrefix + id) == Some(id)
    ensures VideoId("https://" + ShortPrefix + id) == Some(id)
    ensures VideoId("https://www." + EmbedPrefix + id) == Some(id)
  {
    CanonicalHosts();
    WatchUrlRoundTrip("https://www.", id);
    ShortUrlRoundTrip("https://", id);
    EmbedUrlRoundTrip("https://www.", id);
  }

  // ---------------------------------------------------------------------------------------
  // Link type and preview

  datatype LinkType = NoLink | YouTube | Pdf | Other

  predicate IsYouTubeLink(url: String)
  {
    Contains(url, "youtube.com") || Contains(url, "youtu.be")
  }

  /** `isPdfLink` of components/blog-section.tsx: the suffix test ignores case. */
  predicate IsPdfLink(url: String)
  {
    EndsWith(ToLower(url), ".pdf")
  }

  /** `getLinkType`: YouTube wins over the (case-sensitive) `.pdf` suffix. */
  function GetLinkType(link: Option<String>): (t: LinkType)
    ensures t == NoLink <==> !Truthy(link)
    ensures t == YouTube <==> Truthy(link) && IsYouTubeLink(link.value)
    ensures t == Pdf <==> Truthy(link) && !IsYouTubeLink(link.value) && EndsWith(link.value, ".pdf")
  {
    if !Truthy(link) then NoLink
    else if IsYouTubeLink(link.value) then YouTube
    else if EndsWith(link.value, ".pdf") then Pdf
    else Other
  }

  /** A case-sensitive `.pdf` suffix is also a case-insensitive one. */
  lemma PdfSuffixIgnoresCase(url: String)
    requires EndsWith(url, ".pdf")
    ensures IsPdfLink(url)
  {
    var l := ToLower(url);
    assert l[|l| - 4..] == ".pdf" by {
      forall k | 0 <= k < 4 ensures l[|l| - 4 + k] == ".pdf"[k] {
        assert url[|url| - 4 + k] == url[|url| - 4..][k];
      }
    }
  }

  /** The converse fails: an upper-case suffix is a PDF for one helper and not for the other. */
  lemma PdfSuffixCaseDiffers()
    ensures IsPdfLink("a.PDF") && GetLinkType(Some("a.PDF")) == Other
  {
    var u := "a.PDF";
    assert ToLower(u) == "a.pdf";
    assert !EndsWith(u, ".pdf") by {
      assert u[1..] != ".pdf" by {
        assert u[1..][1] == 'P';
      }
    }
    assert !Contains(u, "youtube.com") && !Contains(u, "youtu.be");
  }

  /** The preview box of an external post. */
  datatype Preview = Image(src: String) | PdfPreview | YouTubeIcon | ExternalIcon

  /**
   * The preview choice of blog-list.tsx (link type from `post.link`, thumbnail from
   * `post.link || ''`) and of app/blog/page.tsx.
   */
  function ExternalPreview(link: Option<String>): Preview
  {
    var linkType := GetLinkType(link);
    var thumbnail := Thumbnail(link.GetOr(""));
    if linkType == YouTube && thumbnail.Some? && thumbnail.value != [] then Image(thumbnail.value)
    else if linkType == Pdf && Truthy(link) then PdfPreview
    else if linkType == YouTube then YouTubeIcon
    else ExternalIcon
  }

  /**
   * A thumbnail image is shown exactly for a YouTube link with a video id; a PDF icon exactly
   * for a non-YouTube link ending in `.pdf`; the YouTube icon for a YouTube link without an id.
   */
  lemma ExternalPreviewCases(link: Option<String>)
    ensures ExternalPreview(link).Image? <==>
      Truthy(link) && IsYouTubeLink(link.value) && VideoId(link.value).Some?
    ensures ExternalPreview(link).Image? ==> ExternalPreview(link).src == Thumbnail(link.value).value
    ensures ExternalPreview(link) == PdfPreview <==>
      Truthy(link) && !IsYouTubeLink(link.value) && EndsWith(link.value, ".pdf")
    ensures ExternalPreview(link) == YouTubeIcon <==>
      Truthy(link) && IsYouTubeLink(link.value) && VideoId(link.value).None?
  {
    if Truthy(link) {
      ThumbnailIff(link.value);
    }
  }

  /**
   * What a listing renders for one post: an external anchor (its `href` may be `undefined`
   * when only the `isExternal` flag is set) with its preview, or an internal link.
   */
  datatype Card = ExternalCard(link: Option<String>, preview: Preview) | InternalCard(path: String)
}
