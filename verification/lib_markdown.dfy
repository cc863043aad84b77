/**
 * The post record and the front-matter defaulting of `parseMarkdown`
 * (src/lib/markdown.ts; scripts/generate-static-data.js carries a copy that
 * behaves identically).
 *
 * Splitting a file into front matter and body is done by the `gray-matter`
 * YAML library, which is not part of this model: its output is given as a
 * `Matter` value. A field that `parseMarkdown` defaults with `||` is `None`
 * when the key is missing or its value is falsy in JavaScript (`''`, `0`,
 * `null`, `false`). `image` is copied without `||`, so for it `None` means
 * missing only and an `image: ""` stays `Some("")`. A present date is
 * represented by its time in milliseconds.
 */
module Markdown {
  import opened Wrappers

  /** A post's date: a time, or the `''` default when the front matter has none. */
  datatype Date = Undated | Dated(time: int)

  datatype FrontMatter = FrontMatter(
    title: Option<string>,
    date: Option<int>,
    description: Option<string>,
    categories: Option<seq<string>>,
    authors: Option<seq<string>>,
    image: Option<string>,
    series: Option<seq<string>>)

  /** What `matter(text)` returns: the front-matter data and the body after it. */
  datatype Matter = Matter(data: FrontMatter, content: string)

  datatype BlogPost = BlogPost(
    title: string,
    date: Date,
    description: string,
    categories: seq<string>,
    authors: seq<string>,
    content: string,
    slug: string,
    image: Option<string>,
    series: seq<string>)

  /** `value || ''` for a string field: a falsy (here: missing or empty) value becomes `''`. */
  function OrEmpty(value: Option<string>): (r: string)
    ensures value.Some? && value.value != "" ==> r == value.value
    ensures value.None? || value.value == "" ==> r == ""
  {
    if value.Some? && value.value != "" then value.value else ""
  }

  /** `value || []` for an array field: any array is truthy, so only a missing one becomes `[]`. */
  function OrNone(value: Option<seq<string>>): (r: seq<string>)
    ensures value.Some? ==> r == value.value
    ensures value.None? ==> r == []
  {
    if value.Some? then value.value else []
  }

  /** `parseMarkdown(text, slug)` once `matter(text)` has split the file. */
  function ParseMarkdown(m: Matter, slug: string): (p: BlogPost)
    ensures p.slug == slug
    ensures p.content == m.content
    ensures p.title == m.data.title.GetOr("")
    ensures p.description == m.data.description.GetOr("")
    ensures p.date == (if m.data.date.Some? then Dated(m.data.date.value) else Undated)
    ensures p.categories == m.data.categories.GetOr([])
    ensures p.authors == m.data.authors.GetOr([])
    ensures p.series == m.data.series.GetOr([])
    ensures p.image == m.data.image
  {
    BlogPost(
      title := OrEmpty(m.data.title),
      date := if m.data.date.Some? then Dated(m.data.date.value) else Undated,
      description := OrEmpty(m.data.description),
      categories := OrNone(m.data.categories),
      authors := OrNone(m.data.authors),
      content := m.content,
      slug := slug,
      image := m.data.image,
      series := OrNone(m.data.series))
  }

  /**
   * Writing the recognised fields of a post back as front matter and parsing
   * again gives the same post: the defaults are a fixed point.
   */
  function FrontMatterOf(p: BlogPost): (fm: FrontMatter)
  {
    FrontMatter(
      title := if p.title == "" then None else Some(p.title),
      date := if p.date.Dated? then Some(p.date.time) else None,
      description := if p.description == "" then None else Some(p.description),
      categories := Some(p.categories),
      authors := Some(p.authors),
      image := p.image,
      series := Some(p.series))
  }

  lemma FrontMatterRoundTrip(p: BlogPost)
    ensures ParseMarkdown(Matter(FrontMatterOf(p), p.content), p.slug) == p
  {
  }
}
