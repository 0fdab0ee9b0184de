/**
 * The records the blog pipeline passes around: a post's frontmatter, the post
 * built from it, and a table-of-contents heading. Dates are integer
 * timestamps (what `new Date(date).getTime()` yields for a well-formed date).
 */
module BlogTypes {
  import opened Wrappers

  /** The two locales a post can be written in. */
  datatype Locale = En | PtBR {
    /** The locale's tag as it appears in file names (`post.en.mdx`, `post.pt-BR.md`). */
    function Tag(): (r: string)
      ensures r == "en" || r == "pt-BR"
    {
      match this
      case En => "en"
      case PtBR => "pt-BR"
    }
  }

  /** `PostFrontmatter`: the metadata block at the top of a post file. */
  datatype Frontmatter = Frontmatter(
    title: string,
    description: string,
    date: int,
    tags: seq<string>,
    author: string,
    locale: Locale,
    slug: string,
    image: Option<string>,
    readingTime: Option<int>)

  /** `Post`: the frontmatter's fields, the body, and a reading time that is always present. */
  datatype Post = Post(
    title: string,
    description: string,
    date: int,
    tags: seq<string>,
    author: string,
    locale: Locale,
    slug: string,
    image: Option<string>,
    readingTime: int,
    content: string)

  /** `TOCHeading`: one entry of a post's table of contents. */
  datatype TocHeading = TocHeading(level: nat, text: string, id: string)

  /**
   * `{ ...frontmatter, content, readingTime }` with
   * `readingTime = frontmatter.readingTime || computed`: the frontmatter's
   * value unless it is missing or 0 (both falsy).
   */
  function BuildPost(fm: Frontmatter, content: string, computed: int): (p: Post)
    ensures p.title == fm.title && p.description == fm.description && p.date == fm.date
    ensures p.tags == fm.tags && p.author == fm.author && p.locale == fm.locale
    ensures p.slug == fm.slug && p.image == fm.image && p.content == content
    ensures fm.readingTime.Some? && fm.readingTime.value != 0 ==> p.readingTime == fm.readingTime.value
    ensures fm.readingTime.None? || fm.readingTime.value == 0 ==> p.readingTime == computed
  {
    var minutes := match fm.readingTime
      case Some(v) => if v != 0 then v else computed
      case None => computed;
    Post(fm.title, fm.description, fm.date, fm.tags, fm.author, fm.locale, fm.slug, fm.image, minutes, content)
  }

  /** The date of a post: the sort key of every date ordering. */
  function Date(p: Post): int { p.date }
}
