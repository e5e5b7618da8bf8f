/** `app/sitemap.js`: the site index. The clock read by `new Date()` is the
    parameter `now`; priorities are integer tenths (10 is 1.0). */
module Sitemap {
  import opened Wrappers
  import opened Strings
  import opened Seqs
  import opened Content
  import opened Lookup
  import Seo
  import Solutions

  datatype Frequency = Weekly | Monthly

  datatype Entry = Entry(url: string, lastModified: int, changeFrequency: Frequency,
                         priority: nat)

  /** The seven fixed pages, home first: path below the site origin, change
      frequency and priority. */
  const StaticRoutes: seq<(string, Frequency, nat)> := [
    ("", Weekly, 10),
    ("/blogs", Weekly, 8),
    ("/case-studies", Weekly, 8),
    ("/mvp-development", Monthly, 9),
    ("/about", Monthly, 7),
    ("/privacy", Monthly, 5),
    ("/terms", Monthly, 5)
  ]

  function StaticPages(now: int): (r: seq<Entry>)
    ensures |r| == |StaticRoutes|
  {
    seq(|StaticRoutes|, i requires 0 <= i < |StaticRoutes| =>
      Entry(SiteUrl + StaticRoutes[i].0, now, StaticRoutes[i].1, StaticRoutes[i].2))
  }

  function SolutionEntry(s: Solution, now: int): Entry {
    Entry(SiteUrl + "/solutions/" + s.slug, now, Monthly, 9)
  }

  function BlogEntry(b: Blog): Entry {
    Entry(SiteUrl + "/blogs/" + b.slug, b.date, Monthly, 7)
  }

  /** `sitemap()`: static pages, then one entry per solution, then one per
      blog post, each group in input order. */
  function Sitemap(solutions: seq<Solution>, blogs: seq<Blog>, now: int): (r: seq<Entry>)
    ensures |r| == 7 + |solutions| + |blogs|
    ensures r[..7] == StaticPages(now)
    ensures forall i :: 0 <= i < |solutions| ==> r[7 + i] == SolutionEntry(solutions[i], now)
    ensures forall i :: 0 <= i < |blogs| ==> r[7 + |solutions| + i] == BlogEntry(blogs[i])
  {
    var solutionPages := seq(|solutions|, i requires 0 <= i < |solutions| => SolutionEntry(solutions[i], now));
    var blogPages := seq(|blogs|, i requires 0 <= i < |blogs| => BlogEntry(blogs[i]));
    var r := StaticPages(now) + solutionPages + blogPages;
    assert r[..7] == StaticPages(now);
    assert forall i :: 0 <= i < |solutions| ==> r[7 + i] == solutionPages[i];
    assert forall i :: 0 <= i < |blogs| ==> r[7 + |solutions| + i] == blogPages[i];
    r
  }

  /** The home page comes first, with the top priority. */
  lemma HomeFirst(solutions: seq<Solution>, blogs: seq<Blog>, now: int)
    ensures Sitemap(solutions, blogs, now)[0].url == SiteUrl
    ensures Sitemap(solutions, blogs, now)[0].priority == 10
  {
    assert Sitemap(solutions, blogs, now)[0] == StaticPages(now)[0];
  }

  /** Every entry is a page of the site, and the home page has the highest
      priority: all priorities lie between 0.5 and 1.0. */
  lemma SitemapBounds(solutions: seq<Solution>, blogs: seq<Blog>, now: int)
    ensures forall e :: e in Sitemap(solutions, blogs, now) ==> 5 <= e.priority <= 10
    ensures forall e :: e in Sitemap(solutions, blogs, now) ==> StartsWith(e.url, SiteUrl)
  {
    var r := Sitemap(solutions, blogs, now);
    forall e | e in r ensures 5 <= e.priority <= 10 && StartsWith(e.url, SiteUrl) {
      var i :| 0 <= i < |r| && r[i] == e;
      EntryUrl(solutions, blogs, now, i);
      PrefixOfConcat(SiteUrl, EntryPath(solutions, blogs, i));
      if i < 7 {
        assert e == StaticPages(now)[i];
      }
    }
  }

  /** A solution's sitemap entry carries the canonical URL of its metadata. */
  lemma SolutionEntryIsCanonical(solutions: seq<Solution>, blogs: seq<Blog>, now: int, i: nat)
    requires i < |solutions|
    ensures Sitemap(solutions, blogs, now)[7 + i].url ==
            Solutions.SolutionMetadata(Some(solutions[i])).canonical
  {
  }

  /** A blog post's sitemap entry is the page its Article schema names. */
  lemma BlogEntryIsArticlePage(solutions: seq<Solution>, blogs: seq<Blog>, now: int, i: nat)
    requires i < |blogs|
    ensures Sitemap(solutions, blogs, now)[7 + |solutions| + i].url ==
            Seo.ArticleSchema(blogs[i], blogs[i].slug).mainEntityOfPage
  {
  }

  /** The path below the site origin of entry `i`: a static path,
      `/solutions/<slug>` or `/blogs/<slug>`. */
  function EntryPath(solutions: seq<Solution>, blogs: seq<Blog>, i: nat): string
    requires i < 7 + |solutions| + |blogs|
  {
    if i < 7 then StaticRoutes[i].0
    else if i < 7 + |solutions| then "/solutions/" + solutions[i - 7].slug
    else "/blogs/" + blogs[i - 7 - |solutions|].slug
  }

  lemma EntryUrl(solutions: seq<Solution>, blogs: seq<Blog>, now: int, i: nat)
    requires i < 7 + |solutions| + |blogs|
    ensures Sitemap(solutions, blogs, now)[i].url == SiteUrl + EntryPath(solutions, blogs, i)
  {
    if i < 7 {
      assert Sitemap(solutions, blogs, now)[i] == StaticPages(now)[i];
    }
  }

  /** The static paths differ in their second character. */
  const StaticMarks := "bcmapt"

  lemma StaticPathShape(i: nat)
    requires 0 < i < 7
    ensures |StaticRoutes[i].0| >= 2 && StaticRoutes[i].0[1] == StaticMarks[i - 1]
    ensures StaticRoutes[i].0[1] == 'b' ==> StaticRoutes[i].0 == "/blogs"
  {
  }

  /** Different slugs under the same section give different paths. */
  lemma DistinctSlugsDistinctPaths(section: string, a: Slug, b: Slug)
    requires a != b
    ensures section + a != section + b
  {
    assert (section + a)[|section|..] == a;
    assert (section + b)[|section|..] == b;
  }

  lemma StaticPathsDistinct(i: nat, j: nat)
    requires i < j < 7
    ensures StaticRoutes[i].0 != StaticRoutes[j].0
  {
    StaticPathShape(j);
    if i > 0 {
      StaticPathShape(i);
      assert StaticMarks[i - 1] != StaticMarks[j - 1];
    }
  }

  /** No static path starts with `/solutions/` or `/blogs/`. */
  lemma StaticPathNotSection(i: nat, slug: Slug)
    requires i < 7
    ensures StaticRoutes[i].0 != "/solutions/" + slug
    ensures StaticRoutes[i].0 != "/blogs/" + slug
  {
    var q, q' := "/solutions/" + slug, "/blogs/" + slug;
    assert q[1] == 's' && q'[1] == 'b' && |q'| >= 7;
    if i > 0 {
      StaticPathShape(i);
    }
  }

  lemma EntryPathsDistinct(solutions: seq<Solution>, blogs: seq<Blog>, i: nat, j: nat)
    requires NoDuplicates(Keys(solutions, SolutionSlug))
    requires NoDuplicates(Keys(blogs, BlogSlug))
    requires i < j < 7 + |solutions| + |blogs|
    ensures EntryPath(solutions, blogs, i) != EntryPath(solutions, blogs, j)
  {
    var n := |solutions|;
    if j < 7 {
      StaticPathsDistinct(i, j);
    } else if i < 7 {
      if j < 7 + n {
        StaticPathNotSection(i, solutions[j - 7].slug);
      } else {
        StaticPathNotSection(i, blogs[j - 7 - n].slug);
      }
    } else if j < 7 + n {
      assert Keys(solutions, SolutionSlug)[i - 7] != Keys(solutions, SolutionSlug)[j - 7];
      DistinctSlugsDistinctPaths("/solutions/", solutions[i - 7].slug, solutions[j - 7].slug);
    } else if i < 7 + n {
      var p, q := EntryPath(solutions, blogs, i), EntryPath(solutions, blogs, j);
      assert p[1] == 's' && q[1] == 'b';
    } else {
      assert Keys(blogs, BlogSlug)[i - 7 - n] != Keys(blogs, BlogSlug)[j - 7 - n];
      DistinctSlugsDistinctPaths("/blogs/", blogs[i - 7 - n].slug, blogs[j - 7 - n].slug);
    }
  }

  /** With unique slugs in each collection, no two sitemap entries share a
      URL. */
  lemma SitemapUrlsDistinct(solutions: seq<Solution>, blogs: seq<Blog>, now: int)
    requires NoDuplicates(Keys(solutions, SolutionSlug))
    requires NoDuplicates(Keys(blogs, BlogSlug))
    ensures var r := Sitemap(solutions, blogs, now);
            forall i, j :: 0 <= i < j < |r| ==> r[i].url != r[j].url
  {
    var r := Sitemap(solutions, blogs, now);
    forall i, j | 0 <= i < j < |r|
      ensures r[i].url != r[j].url
    {
      EntryUrl(solutions, blogs, now, i);
      EntryUrl(solutions, blogs, now, j);
      EntryPathsDistinct(solutions, blogs, i, j);
      DistinctSlugsDistinctPaths(SiteUrl, EntryPath(solutions, blogs, i), EntryPath(solutions, blogs, j));
    }
  }
}
