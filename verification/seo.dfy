/** The schema.org structured-data builders and the canonical-URL helper of
    `lib/seo.js`. Each builder is a total record-to-record map. */
module Seo {
  import opened Content
  import opened Strings

  const SchemaContext: string := "https://schema.org"
  const OrganizationName: string := "Lime Green Studios"
  const LogoUrl: string := "https://limegreen.studio/LGS.svg"

  /** `getCanonicalUrl(path)`: the site origin, one slash, then the path
      with one leading slash removed if it has one. */
  function CanonicalUrl(path: string): (r: string)
    ensures StartsWith(r, SiteUrl + "/")
    ensures StartsWith(path, "/") ==> r == SiteUrl + "/" + path[1..]
    ensures !StartsWith(path, "/") ==> r == SiteUrl + "/" + path
  {
    var clean := if |path| > 0 && path[0] == '/' then path[1..] else path;
    SiteUrl + "/" + clean
  }

  /** The path a canonical URL was built from, without its leading slash. */
  function PathOf(url: string): string
    requires StartsWith(url, SiteUrl + "/")
  {
    url[|SiteUrl| + 1..]
  }

  /** A path with or without its one leading slash has the same canonical
      URL, and the URL gives the slash-less path back. */
  lemma CanonicalLeadingSlash(p: string)
    requires !StartsWith(p, "/")
    ensures CanonicalUrl("/" + p) == CanonicalUrl(p)
    ensures PathOf(CanonicalUrl(p)) == p
  {
    assert ("/" + p)[1..] == p;
  }

  /** Only one slash is stripped: `"//x"` keeps its second slash. */
  lemma CanonicalStripsOneSlash()
    ensures CanonicalUrl("//x") == "https://limegreen.studio//x"
  {
  }

  // ---------------------------------------------------------------- Breadcrumb

  datatype Crumb = Crumb(name: string, url: string)

  /** A `ListItem` of a breadcrumb list. */
  datatype ListItem = ListItem(position: nat, name: string, item: string)

  datatype BreadcrumbList = BreadcrumbList(context: string, schemaType: string,
                                           itemListElement: seq<ListItem>)

  /** `generateBreadcrumbSchema(items)`. */
  function BreadcrumbSchema(items: seq<Crumb>): (r: BreadcrumbList)
    ensures r.context == SchemaContext && r.schemaType == "BreadcrumbList"
    ensures |r.itemListElement| == |items|
    ensures forall i :: 0 <= i < |items| ==>
              r.itemListElement[i] == ListItem(i + 1, items[i].name, items[i].url)
  {
    BreadcrumbList(SchemaContext, "BreadcrumbList",
      seq(|items|, i requires 0 <= i < |items| => ListItem(i + 1, items[i].name, items[i].url)))
  }

  /** Reading the crumbs back from a breadcrumb list. */
  function CrumbsOf(list: BreadcrumbList): seq<Crumb> {
    seq(|list.itemListElement|, i requires 0 <= i < |list.itemListElement| =>
      Crumb(list.itemListElement[i].name, list.itemListElement[i].item))
  }

  /** The breadcrumb list loses nothing: the crumbs come back in order, and
      the positions count 1, 2, 3, ... with no gap or repeat. */
  lemma BreadcrumbRoundTrip(items: seq<Crumb>)
    ensures CrumbsOf(BreadcrumbSchema(items)) == items
    ensures forall i, j :: 0 <= i < j < |items| ==>
              BreadcrumbSchema(items).itemListElement[i].position <
              BreadcrumbSchema(items).itemListElement[j].position
    ensures |items| > 0 ==>
              BreadcrumbSchema(items).itemListElement[0].position == 1 &&
              BreadcrumbSchema(items).itemListElement[|items| - 1].position == |items|
  {
  }

  // ---------------------------------------------------------------- FAQ page

  datatype Question = Question(name: string, acceptedAnswer: string)

  datatype FaqPage = FaqPage(context: string, schemaType: string, mainEntity: seq<Question>)

  /** `generateFAQSchema(faqs)`. */
  function FaqSchema(faqs: seq<Faq>): (r: FaqPage)
    ensures r.context == SchemaContext && r.schemaType == "FAQPage"
    ensures |r.mainEntity| == |faqs|
    ensures forall i :: 0 <= i < |faqs| ==>
              r.mainEntity[i].name == faqs[i].question &&
              r.mainEntity[i].acceptedAnswer == faqs[i].answer
  {
    FaqPage(SchemaContext, "FAQPage",
      seq(|faqs|, i requires 0 <= i < |faqs| => Question(faqs[i].question, faqs[i].answer)))
  }

  function FaqsOf(page: FaqPage): seq<Faq> {
    seq(|page.mainEntity|, i requires 0 <= i < |page.mainEntity| =>
      Faq(page.mainEntity[i].name, page.mainEntity[i].acceptedAnswer))
  }

  /** The FAQ page keeps every question with its answer, in order. */
  lemma FaqRoundTrip(faqs: seq<Faq>)
    ensures FaqsOf(FaqSchema(faqs)) == faqs
  {
  }

  // ---------------------------------------------------------------- Service

  datatype Organization = Organization(name: string, url: string, logo: string)

  datatype Offer = Offer(availability: string, priceRange: string)

  datatype Service = Service(
    context: string,
    schemaType: string,
    name: string,
    description: string,
    provider: Organization,
    serviceType: string,
    areaServed: string,
    serviceUrl: string,
    offers: Offer)

  /** `generateServiceSchema(solution)`. */
  function ServiceSchema(s: Solution): (r: Service)
    ensures r.schemaType == "Service"
    ensures r.name == s.name && r.serviceType == s.name
    ensures r.description == s.metaDescription
    ensures r.serviceUrl == CanonicalUrl("/solutions/" + s.slug)
    ensures r.provider.name == OrganizationName && r.provider.url == SiteUrl
  {
    Service(
      SchemaContext,
      "Service",
      s.name,
      s.metaDescription,
      Organization(OrganizationName, SiteUrl, LogoUrl),
      s.name,
      "Worldwide",
      SiteUrl + "/solutions/" + s.slug,
      Offer("https://schema.org/InStock", "$$$"))
  }

  // ---------------------------------------------------------------- Article

  datatype Author = Author(name: string, url: string)

  datatype Article = Article(
    context: string,
    schemaType: string,
    headline: string,
    description: string,
    image: string,
    datePublished: int,
    dateModified: int,
    author: Author,
    publisherName: string,
    publisherLogo: string,
    mainEntityOfPage: string)

  /** `generateArticleSchema(article, slug)`. The page id comes from the
      `slug` argument, not from the record. */
  function ArticleSchema(article: Blog, slug: Slug): (r: Article)
    ensures r.schemaType == "Article"
    ensures r.headline == article.title && r.description == article.description
    ensures r.image == article.image
    ensures r.datePublished == article.date && r.dateModified == article.date
    ensures r.mainEntityOfPage == CanonicalUrl("/blogs/" + slug)
  {
    Article(
      SchemaContext,
      "Article",
      article.title,
      article.description,
      article.image,
      article.date,
      article.date,
      Author(OrganizationName, SiteUrl),
      OrganizationName,
      LogoUrl,
      SiteUrl + "/blogs/" + slug)
  }
}
