/**
 * The JSON-LD `BlogPosting` object a post page embeds
 * (components/blog-post-schema.tsx): each field with its fallback, the word
 * count it computes on its own, and the ISO 8601 duration of the reading time.
 */
module BlogPostSchema {
  import opened Wrappers
  import opened Strings
  import Blog

  const DefaultAuthor: string := "Dmytro Morar"
  const SiteUrl: string := "https://morar.dev"
  const PostIdPrefix: string := "https://morar.dev/blog/"

  /** The fields of the schema object; `None` is a field `JSON.stringify` leaves out. */
  datatype Schema = Schema(
    context: string,
    schemaType: string,
    headline: string,
    description: Option<string>,
    authorName: string,
    datePublished: string,
    dateModified: string,
    image: Option<string>,
    publisherName: string,
    publisherUrl: string,
    pageId: string,
    wordCount: nat,
    timeRequired: string)

  /** `a || b` on an optional string: `a` when present and non-empty. */
  function OrElse(a: Option<string>, b: string): (r: string)
    ensures a.Some? && a.value != "" ==> r == a.value
    ensures a.None? || a.value == "" ==> r == b
  {
    if a.Some? && a.value != "" then a.value else b
  }

  /** `post.meta?.title || post.title`. */
  function Headline(post: Blog.BlogPost): string {
    OrElse(if post.meta.Some? then post.meta.value.title else None, post.title)
  }

  /** `post.meta?.description || post.excerpt`, where the excerpt may itself be missing. */
  function Description(post: Blog.BlogPost): (d: Option<string>)
    ensures post.meta.Some? && post.meta.value.description.Some? && post.meta.value.description.value != "" ==>
      d == post.meta.value.description
    ensures !(post.meta.Some? && post.meta.value.description.Some? && post.meta.value.description.value != "") ==>
      d == post.excerpt
  {
    var metaDescription := if post.meta.Some? then post.meta.value.description else None;
    if metaDescription.Some? && metaDescription.value != "" then metaDescription else post.excerpt
  }

  /** `post.authors[0]?.name || "Dmytro Morar"`: a bare author ID has no name. */
  function AuthorName(authors: seq<Blog.Relation<Blog.CmsAuthor>>): (name: string)
    ensures name != ""
    ensures |authors| > 0 && authors[0].Resolved? && authors[0].value.name != "" ==> name == authors[0].value.name
    ensures !(|authors| > 0 && authors[0].Resolved? && authors[0].value.name != "") ==> name == DefaultAuthor
  {
    if |authors| > 0 && authors[0].Resolved? && authors[0].value.name != "" then authors[0].value.name
    else DefaultAuthor
  }

  /** `${PAYLOAD_CMS_URL}${post.cover.url}` when the cover is populated and its URL is non-empty. */
  function Image(cmsUrl: string, cover: Option<Blog.Relation<Blog.CmsMedia>>): (image: Option<string>)
    ensures image.Some? <==>
      cover.Some? && cover.value.Resolved? && cover.value.value.url.Some? && cover.value.value.url.value != ""
    ensures image.Some? ==> image.value == cmsUrl + cover.value.value.url.value
  {
    if cover.Some? && cover.value.Resolved? && cover.value.value.url.Some? && cover.value.value.url.value != ""
    then Some(cmsUrl + cover.value.value.url.value)
    else None
  }

  /** The schema's word count: white-space separated pieces of the plain text, empty ones included. */
  function SchemaWordCount(html: string): nat {
    |SplitWs(Blog.PlainText(html))|
  }

  /** `PT{minutes}M`, an ISO 8601 duration in minutes. */
  function TimeRequired(minutes: nat): (d: string)
    ensures StartsWith(d, "PT") && EndsWith(d, "M") && |d| >= 4
  {
    "PT" + NatToString(minutes) + "M"
  }

  /** How a reader of the schema decodes a duration of whole minutes. */
  function ParseTimeRequired(d: string): Option<nat> {
    if |d| >= 4 && StartsWith(d, "PT") && EndsWith(d, "M") && AllDigits(d[2..|d| - 1])
    then Some(ParseNat(d[2..|d| - 1]))
    else None
  }

  /** The duration reads back as the reading time it was built from. */
  lemma TimeRequiredRoundTrip(minutes: nat)
    ensures ParseTimeRequired(TimeRequired(minutes)) == Some(minutes)
  {
    var digits := NatToString(minutes);
    var d := TimeRequired(minutes);
    assert d[2..|d| - 1] == digits;
    ParseNatToString(minutes);
  }

  /** `BlogPostSchema`: the object the component serialises. */
  function BuildSchema(cmsUrl: string, post: Blog.BlogPost): (s: Schema)
    ensures s.context == "https://schema.org" && s.schemaType == "BlogPosting"
    ensures s.headline == OrElse(if post.meta.Some? then post.meta.value.title else None, post.title)
    ensures s.description == Description(post)
    ensures s.authorName == AuthorName(post.authors)
    ensures s.datePublished == post.publishedAt
    ensures s.dateModified == (if post.updatedAt != "" then post.updatedAt else post.publishedAt)
    ensures s.image == Image(cmsUrl, post.cover)
    ensures s.publisherName == DefaultAuthor && s.publisherUrl == SiteUrl
    ensures StartsWith(s.pageId, PostIdPrefix) && s.pageId[|PostIdPrefix|..] == post.slug
    ensures s.wordCount == SchemaWordCount(post.content) && s.wordCount >= 1
    ensures ParseTimeRequired(s.timeRequired) == Some(post.readingTime)
  {
    TimeRequiredRoundTrip(post.readingTime);
    Schema(
      "https://schema.org", "BlogPosting",
      Headline(post), Description(post), AuthorName(post.authors),
      post.publishedAt,
      if post.updatedAt != "" then post.updatedAt else post.publishedAt,
      Image(cmsUrl, post.cover),
      DefaultAuthor, SiteUrl,
      PostIdPrefix + post.slug,
      SchemaWordCount(post.content),
      TimeRequired(post.readingTime))
  }

  /**
   * The schema's count and the reading-time count differ only on empty
   * text: both count the words of non-empty text, but the schema counts
   * one piece where there are no words at all.
   */
  lemma SchemaWordCountVersusWordCount(html: string)
    ensures Blog.PlainText(html) != "" ==> SchemaWordCount(html) == Blog.WordCount(Blog.PlainText(html))
    ensures Blog.PlainText(html) == "" ==> SchemaWordCount(html) == 1 && Blog.WordCount(Blog.PlainText(html)) == 0
  {
    var text := Blog.PlainText(html);
    var parts := SplitWs(text);
    assert Blog.WordCount(text) == |NonEmpty(parts)|;
    if text != "" {
      SplitWsOfTrimmed(text);
      assert NonEmpty(parts) == parts;
    } else {
      assert parts == [""];
      assert NonEmpty([""]) == NonEmpty([]);
    }
  }

  /**
   * For a post as the blog library produces it, the schema's word count
   * gives back the post's reading time, and the headline and description
   * are the post's own title and excerpt.
   */
  lemma SchemaOfTransformedPost(cmsUrl: string, lib: Blog.Library, cms: Blog.CmsPost)
    ensures var post := Blog.TransformPost(lib, cms);
      var s := BuildSchema(cmsUrl, post);
      s.headline == cms.title && s.description == post.excerpt && s.image.None? &&
      Blog.ReadingTime(s.wordCount) == post.readingTime
  {
    var post := Blog.TransformPost(lib, cms);
    SchemaWordCountVersusWordCount(post.content);
  }
}
