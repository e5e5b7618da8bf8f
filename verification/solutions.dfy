/** `lib/solutions.js`: lookup of solution pages, resolution of their
    related solutions and case studies, the two display tiers, and the page
    metadata. The collections the source reads from disk are parameters. */
module Solutions {
  import opened Wrappers
  import opened Seqs
  import opened Strings
  import opened Content
  import opened Lookup
  import Seo

  /** `getSolutionBySlug(slug)`: the first solution with that slug, `None`
      for the source's `null`. */
  function SolutionBySlug(solutions: seq<Solution>, slug: Slug): (r: Option<Solution>)
    ensures r.Some? ==> r.value in solutions && r.value.slug == slug
    ensures r.Some? ==> exists i :: 0 <= i < |solutions| && solutions[i] == r.value &&
                                    forall j :: 0 <= j < i ==> solutions[j].slug != slug
    ensures r.None? <==> forall s :: s in solutions ==> s.slug != slug
  {
    var r := FindBySlug(solutions, SolutionSlug, slug);
    assert forall s :: s in solutions ==> s.slug in Keys(solutions, SolutionSlug) by {
      forall s | s in solutions ensures s.slug in Keys(solutions, SolutionSlug) {
        var i :| 0 <= i < |solutions| && solutions[i] == s;
        assert Keys(solutions, SolutionSlug)[i] == s.slug;
      }
    }
    r
  }

  /** `getRelatedSolutions(slug)`. */
  function RelatedSolutions(solutions: seq<Solution>, slug: Slug): (r: seq<Solution>)
    ensures SolutionBySlug(solutions, slug).None? ==> r == []
    ensures (SolutionBySlug(solutions, slug).Some? &&
             SolutionBySlug(solutions, slug).value.relatedSolutions.None?) ==> r == []
    ensures (SolutionBySlug(solutions, slug).Some? &&
             SolutionBySlug(solutions, slug).value.relatedSolutions.Some?) ==>
              var related := SolutionBySlug(solutions, slug).value.relatedSolutions.value;
              && |r| <= |related|
              && IsSubsequence(Keys(r, SolutionSlug), related)
              && (forall x :: multiset(Keys(r, SolutionSlug))[x] ==
                    if x in Keys(solutions, SolutionSlug) then multiset(related)[x] else 0)
    ensures forall i :: 0 <= i < |r| ==> r[i] in solutions
    ensures forall i :: 0 <= i < |r| ==> SolutionBySlug(solutions, r[i].slug) == Some(r[i])
  {
    match SolutionBySlug(solutions, slug)
    case None => []
    case Some(current) =>
      match current.relatedSolutions
      case None => []
      case Some(related) =>
        ResolveKeys(related, solutions, SolutionSlug);
        Resolve(related, solutions, SolutionSlug)
  }

  /** `getSolutionCaseStudies(slug)`. */
  function SolutionCaseStudies(solutions: seq<Solution>, blogs: seq<Blog>, slug: Slug): (r: seq<Blog>)
    ensures SolutionBySlug(solutions, slug).None? ==> r == []
    ensures (SolutionBySlug(solutions, slug).Some? &&
             SolutionBySlug(solutions, slug).value.caseStudies.GetOr([]) == []) ==> r == []
    ensures SolutionBySlug(solutions, slug).Some? ==>
              var wanted := SolutionBySlug(solutions, slug).value.caseStudies.GetOr([]);
              && |r| <= |wanted|
              && IsSubsequence(Keys(r, BlogSlug), wanted)
              && (forall x :: multiset(Keys(r, BlogSlug))[x] ==
                    if x in Keys(blogs, BlogSlug) then multiset(wanted)[x] else 0)
    ensures forall i :: 0 <= i < |r| ==> r[i] in blogs
    ensures forall i :: 0 <= i < |r| ==> FindBySlug(blogs, BlogSlug, r[i].slug) == Some(r[i])
  {
    match SolutionBySlug(solutions, slug)
    case None => []
    case Some(solution) =>
      if solution.caseStudies.None? || |solution.caseStudies.value| == 0 then
        ResolveKeys([], blogs, BlogSlug);
        []
      else
        var wanted := solution.caseStudies.value;
        ResolveKeys(wanted, blogs, BlogSlug);
        Resolve(wanted, blogs, BlogSlug)
  }

  /** The slugs of the four flagship solutions, in the order the source
      lists them. */
  const Tier1Slugs: seq<Slug> := [
    "product-development-agency",
    "software-development-agency",
    "ai-development-agency",
    "software-product-studio"
  ]

  predicate IsTier1(s: Solution) { s.slug in Tier1Slugs }

  predicate IsTier2(s: Solution) { s.slug !in Tier1Slugs }

  datatype Tiers = Tiers(tier1: seq<Solution>, tier2: seq<Solution>)

  /** `getSolutionsByTier()`: an order-preserving two-way partition. */
  function SolutionsByTier(all: seq<Solution>): (r: Tiers)
    ensures forall s :: s in r.tier1 ==> s.slug in Tier1Slugs
    ensures forall s :: s in r.tier2 ==> s.slug !in Tier1Slugs
    ensures IsSubsequence(r.tier1, all) && IsSubsequence(r.tier2, all)
    ensures |r.tier1| + |r.tier2| == |all|
    ensures multiset(r.tier1) + multiset(r.tier2) == multiset(all)
  {
    FilterIsSubsequence(all, IsTier1);
    FilterIsSubsequence(all, IsTier2);
    FilterPartition(all, IsTier1, IsTier2);
    Tiers(Filter(all, IsTier1), Filter(all, IsTier2))
  }

  // ---------------------------------------------------------------- Metadata

  datatype OgImage = OgImage(url: string, width: nat, height: nat, alt: string)

  datatype OpenGraph = OpenGraph(title: string, description: string, kind: string,
                                 url: string, images: seq<OgImage>)

  datatype TwitterCard = TwitterCard(card: string, title: string, description: string,
                                     images: seq<string>)

  datatype GoogleBot = GoogleBot(index: bool, follow: bool, maxVideoPreview: int,
                                 maxImagePreview: string, maxSnippet: int)

  datatype Robots = Robots(index: bool, follow: bool, googleBot: GoogleBot)

  /** The Next.js metadata object; `Empty` is the `{}` returned for a
      missing solution. `keywords` is `None` where the source leaves it
      `undefined`. */
  datatype Metadata =
    | Empty
    | Metadata(
        title: string,
        description: string,
        keywords: Option<string>,
        openGraph: OpenGraph,
        twitter: TwitterCard,
        canonical: string,
        robots: Robots)

  /** The social preview image path of a solution. */
  function OgImagePath(slug: Slug): string {
    "/og-images/" + slug + ".png"
  }

  /** `generateSolutionMetadata(solution)`. */
  function SolutionMetadata(solution: Option<Solution>): (r: Metadata)
    ensures solution.None? <==> r == Empty
    ensures solution.Some? ==>
              var s := solution.value;
              && r.title == s.title && r.description == s.metaDescription
              && r.canonical == Seo.CanonicalUrl("/solutions/" + s.slug)
              && r.openGraph.url == r.canonical
              && r.openGraph.title == s.title && r.twitter.title == s.title
              && r.openGraph.description == s.metaDescription
              && r.twitter.description == s.metaDescription
              && r.openGraph.images == [OgImage(OgImagePath(s.slug), 1200, 630, s.name)]
              && r.twitter.images == [OgImagePath(s.slug)]
              && (r.keywords.Some? <==> s.keywords.Some?)
              && (s.keywords.Some? ==> r.keywords.value == Join(s.keywords.value, ", "))
              && r.robots.index && r.robots.follow
  {
    match solution
    case None => Empty
    case Some(s) =>
      var canonical := SiteUrl + "/solutions/" + s.slug;
      Metadata(
        s.title,
        s.metaDescription,
        match s.keywords
          case None => None
          case Some(ks) => Some(Join(ks, ", ")),
        OpenGraph(s.title, s.metaDescription, "website", canonical,
                  [OgImage(OgImagePath(s.slug), 1200, 630, s.name)]),
        TwitterCard("summary_large_image", s.title, s.metaDescription, [OgImagePath(s.slug)]),
        canonical,
        Robots(true, true, GoogleBot(true, true, -1, "large", -1)))
  }

  /** The solution page's structured data points at the same URL as its
      metadata: the Service schema's `serviceUrl` is the canonical URL. */
  lemma ServiceUrlIsCanonical(s: Solution)
    ensures Seo.ServiceSchema(s).serviceUrl == SolutionMetadata(Some(s)).canonical
  {
  }
}
