/** The content records the site is built from. Only the fields the modelled
    code reads are kept; the JSON and front-matter loaders are not modelled,
    so collections arrive as sequences. */
module Content {
  import opened Wrappers

  type Slug = string

  /** The site's origin, `https://limegreen.studio`, without a trailing slash. */
  const SiteUrl: string := "https://limegreen.studio"

  datatype Faq = Faq(question: string, answer: string)

  /** One record of the solutions collection. `keywords`, `relatedSolutions`
      and `caseStudies` may be absent from the JSON. */
  datatype Solution = Solution(
    slug: Slug,
    name: string,
    title: string,
    metaDescription: string,
    keywords: Option<seq<string>>,
    faqs: seq<Faq>,
    relatedSolutions: Option<seq<Slug>>,
    caseStudies: Option<seq<Slug>>)

  /** One blog post / case study. The date is an abstract timestamp: a larger
      value is a later date. `tags` may be absent from the front matter. */
  datatype Blog = Blog(
    slug: Slug,
    title: string,
    description: string,
    date: int,
    tags: Option<seq<string>>,
    image: string)

  function SolutionSlug(s: Solution): Slug { s.slug }

  function BlogSlug(b: Blog): Slug { b.slug }

  /** `blog.tags || []`. */
  function TagsOf(b: Blog): seq<string> { b.tags.GetOr([]) }

  /** A child of a React element after flattening: a text string or any other
      node (an element, identified opaquely). */
  datatype Node = Str(text: string) | Other(id: nat)
}
