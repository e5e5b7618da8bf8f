# limegreen.studio site logic, modelled in Dafny

This project models the data logic of the limegreen.studio marketing site:
- looking up solution pages and resolving their related solutions and case studies;
- the solution pages' metadata and schema.org structured data;
- the sitemap;
- the case-study listing with its date sort and tag filter;
- the collapsible blog grid on the home page;
- the word tokeniser of the scroll-reveal text effect;
- the brand-name highlighter of the testimonials;
- the Gmail compose link of the contact button, including the
  application/x-www-form-urlencoded serializer (section 5.2 of the WHATWG URL
  Standard) that `URLSearchParams` uses.

Each component is a pure function over immutable records. Every operation
is paired with a lemma that relates it to an independent description:
- an inverse, such as splitting a join, parsing a serialized query, or reading the crumbs back out of a breadcrumb list;
- an order or uniqueness property, such as stability and uniqueness of the sort, or unique keys and URLs;
- a characterisation, such as the brand split described without the scan.

Modules:
- `Wrappers`, `Seqs`, `Strings`: Option, generic sequence facts, and JavaScript string operations (`split`, `join`, `trim`, decimal rendering).
- `Content`: the solution and blog records. `Lookup`: lookup by slug and resolution of slug lists.
- `Solutions`, `Seo`, `Sitemap`: `lib/solutions.js`, `lib/seo.js`, `app/sitemap.js`.
- `CaseStudies`, `BlogsSection`: the two listing components.
- `ScrollReveal`, `Highlight`: `flattenChildren` and `highlightText`.
- `FormUrlEncoded`, `ContactButton`: the URL encoding and the contact link.

Conventions:
- Dates are abstract integer timestamps; a larger value is a later date.
- Sitemap priorities are integer tenths: 10 stands for 1.0.
- The clock is the parameter `now`.
- The collections that the site reads from disk are parameters.

Two behaviours of the source are modelled as written:
- `getCanonicalUrl` strips only one leading slash, so `"//x"` keeps a double slash.
- On the case-study page, a tag literally named `"all"` collides with the "All Projects" sentinel. Selecting it shows every post.

## Model

| member | source | states |
|---|---|---|
| Lookup.FindBySlug | lib/solutions.js:22-25 | the lookup fails exactly when no record has the slug; otherwise it returns a record with that slug, and no earlier record has it |
| Lookup.FindUnique | lib/solutions.js:22-25 | when slugs are unique, looking up any record's slug returns that very record |
| Lookup.Resolve | lib/solutions.js:39-43 | resolving a slug list gives at most one record per slug; each result is a collection member, and looking up its own slug returns it |
| Lookup.ResolveKeys | lib/solutions.js:39-43 | the resolved records' slugs are a subsequence of the requested slugs; a slug that names a record keeps every occurrence (duplicates and self-references included), and a dangling slug keeps none |
| Solutions.SolutionBySlug | lib/solutions.js:22-25 | `getSolutionBySlug` returns the first solution with the slug, and null exactly when no solution has it |
| Solutions.RelatedSolutions | lib/solutions.js:32-44 | empty for an unknown slug or a solution without related solutions; otherwise the related slugs are resolved in order, dangling ones dropped, repeats kept; each entry is the first solution carrying its slug |
| Solutions.SolutionCaseStudies | lib/solutions.js:51-63 | empty for an unknown slug or absent or empty case studies; otherwise the blogs named by the case-study slugs, in that order, unknown slugs removed; each entry is the first blog carrying its slug |
| Solutions.SolutionsByTier | lib/solutions.js:69-87 | tier 1 holds only the four flagship slugs and tier 2 none of them; both tiers are subsequences of the input, and together they hold every solution exactly once |
| Solutions.SolutionMetadata | lib/solutions.js:94-136 | the empty object exactly for a missing solution; otherwise the canonical and Open Graph URLs are the solution's canonical page, both preview images are `/og-images/<slug>.png`, keywords are joined by `", "` and present iff the solution has them, and indexing is allowed |
| Solutions.ServiceUrlIsCanonical | lib/solutions.js:121-123 | the Service schema's `serviceUrl` equals the metadata's canonical URL |
| Seo.CanonicalUrl | lib/seo.js:113-118 | the result is the origin, one slash, then the path without its one leading slash, and it always starts with `https://limegreen.studio/` |
| Seo.CanonicalLeadingSlash | lib/seo.js:113-118 | a path with and without one leading slash gets the same canonical URL, and the slash-less path can be read back from the URL |
| Seo.CanonicalStripsOneSlash | lib/seo.js:116-117 | only one slash is stripped: `"//x"` becomes `https://limegreen.studio//x` |
| Seo.BreadcrumbSchema | lib/seo.js:6-17 | one list item per crumb, in order; item i has position i + 1 and the crumb's name and URL |
| Seo.BreadcrumbRoundTrip | lib/seo.js:10-15 | the crumbs can be read back from the list unchanged, and the positions run 1, 2, ..., n strictly increasing |
| Seo.FaqSchema | lib/seo.js:58-71 | one question per FAQ, in order, carrying its question and answer |
| Seo.FaqRoundTrip | lib/seo.js:62-69 | the FAQ list can be read back from the page unchanged |
| Seo.ServiceSchema | lib/seo.js:24-51 | name and service type are the solution's name, the description is its meta description, the provider is the studio, and `serviceUrl` is the canonical URL of `/solutions/<slug>` |
| Seo.ArticleSchema | lib/seo.js:79-106 | headline, description and image come from the post; published and modified dates are both the post's date; the page id is the canonical URL of `/blogs/<slug>` for the given slug |
| Sitemap.Sitemap | app/sitemap.js:4-74 | 7 + solutions + blogs entries: the seven static pages, then one entry per solution in input order, then one per blog post in input order |
| Sitemap.HomeFirst | app/sitemap.js:13-18 | the first entry is the bare origin with the top priority 1.0 |
| Sitemap.SitemapBounds | app/sitemap.js:12-71 | every priority lies between 0.5 and 1.0 and every URL starts with the origin |
| Sitemap.SolutionEntryIsCanonical | app/sitemap.js:58-63 | a solution's entry URL is the canonical URL of that solution's metadata |
| Sitemap.BlogEntryIsArticlePage | app/sitemap.js:66-71 | a blog entry's URL is the page id of that post's Article schema |
| Sitemap.SitemapUrlsDistinct | app/sitemap.js:73 | when slugs are unique within each collection, no two sitemap entries share a URL |
| CaseStudies.Insert | app/case-studies/CaseStudiesClient.js:9-11 | inserting into a newest-first list keeps it newest first and adds exactly the one post |
| CaseStudies.SortNewestFirst | app/case-studies/CaseStudiesClient.js:9-11 | the sorted list is a permutation of the input and is newest first |
| CaseStudies.SortStable | app/case-studies/CaseStudiesClient.js:9-11 | posts with the same date keep their input order |
| CaseStudies.StableOrderUnique | app/case-studies/CaseStudiesClient.js:9-11 | any two newest-first lists that agree on the order within each date are equal, so any stable sort gives this result |
| CaseStudies.SortIdempotent | app/case-studies/CaseStudiesClient.js:9-11 | sorting a newest-first list changes nothing, so sorting twice is sorting once |
| CaseStudies.FlatTags | app/case-studies/CaseStudiesClient.js:14 | a tag is in the flattened list iff some post carries it, with a missing tag list counting as empty |
| CaseStudies.AllTags | app/case-studies/CaseStudiesClient.js:14 | the tag bar's tags have no duplicates, are exactly the union of the posts' tags, and follow order of first appearance |
| CaseStudies.FilterByTag | app/case-studies/CaseStudiesClient.js:19-22 | `"all"` keeps every post; any other tag keeps, in order, exactly the posts whose tags contain it |
| CaseStudies.OfferedTagSelectsSomething | app/case-studies/CaseStudiesClient.js:83-86 | selecting any tag the bar offers shows at least one post |
| CaseStudies.TagBar | app/case-studies/CaseStudiesClient.js:73-95 | the "All Projects" button comes first, then one `#tag` button per tag in order; a button is active iff its value is the selection |
| CaseStudies.Render | app/case-studies/CaseStudiesClient.js:71-124 | the cards are the filtered sorted posts; the empty-state message shows iff there are no cards; the tag bar shows iff some post has a tag, and then holds "All Projects" and one `#tag` button per tag of the sorted posts in order of first appearance; the count shows iff there are posts, and then equals their number |
| CaseStudies.TagsOfSortedBlogs | app/case-studies/CaseStudiesClient.js:71 | the tag bar is non-empty iff some post carries a tag |
| CaseStudies.InitialPageShowsAll | app/case-studies/CaseStudiesClient.js:16-21 | in the initial state every post is shown, newest first |
| CaseStudies.TagNamedAllIsNoFilter | app/case-studies/CaseStudiesClient.js:19-22 | selecting a tag literally named `"all"` shows every post, tagged or not |
| BlogsSection.VisibleBlogs | app/components/BlogsSectionClient.js:13 | the visible posts are a prefix of the posts: all of them when expanded, the first min(3, n) when collapsed |
| BlogsSection.Toggle | app/components/BlogsSectionClient.js:76 | the toggle flips the state |
| BlogsSection.Render | app/components/BlogsSectionClient.js:8-97 | the button shows iff there are more than three posts, and reads "Show Less" exactly when expanded; the cards are a prefix of the posts (`[]` when no posts are passed): all of them when expanded, the first min(3, n) when collapsed |
| BlogsSection.InitiallyFirstThree | app/components/BlogsSectionClient.js:10-13 | the initial collapsed grid shows the first min(3, n) posts |
| BlogsSection.ToggleTwice | app/components/BlogsSectionClient.js:76 | toggling twice restores the state |
| BlogsSection.NoButtonNothingHidden | app/components/BlogsSectionClient.js:13-14 | when there is no button, every post is shown |
| BlogsSection.ButtonShowsMore | app/components/BlogsSectionClient.js:13-14 | when the button is shown, expanding shows strictly more posts |
| ScrollReveal.PushWords | components/ui/ScrollReveal.tsx:37-44 | the loop over the split pieces appends exactly the non-blank pieces, each with the next counter value |
| ScrollReveal.FlattenChildren | components/ui/ScrollReveal.tsx:31-55 | the one-pass loop with its running counter computes the reference result: each child's tokens in order, numbered from zero |
| ScrollReveal.KeysCountItems | components/ui/ScrollReveal.tsx:42-49 | item k is keyed `w-k` if it is a word and `e-k` if it is an element |
| ScrollReveal.KeysUnique | components/ui/ScrollReveal.tsx:33-49 | no two items share a key |
| ScrollReveal.WordItemsClean | components/ui/ScrollReveal.tsx:37-38 | every word item is non-empty, not white space only, and holds no space |
| ScrollReveal.ElementsFollowChildren | components/ui/ScrollReveal.tsx:45-51 | the element items are exactly the non-string children, one each, in child order |
| ScrollReveal.SingleTextChild | components/ui/ScrollReveal.tsx:36-44 | a lone string child yields its words in order, keyed `w-0`, `w-1`, ... |
| Strings.Split | components/ui/ScrollReveal.tsx:37 | `split(" ")` gives at least one piece, and no piece contains the separator |
| Strings.SplitCount | components/ui/ScrollReveal.tsx:37 | there is one more piece than there are separators |
| Strings.JoinSplit | components/ui/ScrollReveal.tsx:37 | joining the pieces with the separator gives the text back |
| Strings.SplitJoin | components/ui/ScrollReveal.tsx:37 | splitting a join of separator-free parts gives the parts back |
| Strings.Join | lib/solutions.js:100 | the joined length is the parts' lengths plus one separator between each two parts |
| Strings.DecimalRoundTrip | components/ui/ScrollReveal.tsx:42 | the decimal rendering of the counter reads back as the counter |
| Strings.DecimalInjective | components/ui/ScrollReveal.tsx:42 | different counters render differently |
| Highlight.BrandAt | components/testimonials-columns.tsx:15 | the match at a position is "Lime Green Studios", "Lime Green" or nothing, and it lies inside the text |
| Highlight.StartsWithIgnoringCaseChars | components/testimonials-columns.tsx:15 | a case-insensitive match compares the text character by character with the lower-case brand |
| Highlight.SplitOnBrandCuts | components/testimonials-columns.tsx:15 | the split alternates match-free stretches with the match taken at the end of each stretch, ending with the match-free rest |
| Highlight.SplitRoundTrip | components/testimonials-columns.tsx:15 | the parts concatenate back to the text |
| Highlight.HighlightText | components/testimonials-columns.tsx:13-30 | one fragment per part of the split, carrying that part's text |
| Highlight.HighlightedIffCaptured | components/testimonials-columns.tsx:17-28 | a fragment is highlighted iff it is a captured brand name (odd position); no plain fragment contains either brand |
| Highlight.FragmentCount | components/testimonials-columns.tsx:15 | with k highlighted brand names there are 2k + 1 fragments |
| Highlight.LongerBrandPreferred | components/testimonials-columns.tsx:14-15 | each captured part is exactly what the pattern matches there: "Lime Green Studios" whenever it matches at that point, "Lime Green" only otherwise |
| Highlight.CaseInsensitive | components/testimonials-columns.tsx:15 | texts differing only in ASCII letter case have the same matches at the same positions |
| Highlight.CaseInsensitiveSplit | components/testimonials-columns.tsx:15 | texts differing only in letter case split into the same number of parts |
| FormUrlEncoded.FormSetComplement | components/ui/ContactButton.tsx:32 | the bytes the serializer leaves unescaped are exactly ASCII letters, digits and `*-._` |
| FormUrlEncoded.Utf8Char | components/ui/ContactButton.tsx:32 | a character encodes to 1 to 4 bytes; a single byte iff it is ASCII, and then the byte is its code point |
| FormUrlEncoded.Utf8RoundTrip | components/ui/ContactButton.tsx:32 | UTF-8 decoding undoes UTF-8 encoding for every string |
| FormUrlEncoded.EncodeByte | components/ui/ContactButton.tsx:32 | a byte becomes one character iff it is a space (`+`) or unreserved, otherwise `%XX`; the output is ASCII without `&` or `=` |
| FormUrlEncoded.PercentEncode | components/ui/ContactButton.tsx:32 | an encoded name or value is ASCII and holds no `&` or `=` |
| FormUrlEncoded.SerializeSeparators | components/ui/ContactButton.tsx:32 | the serialization has exactly one `&` between consecutive pairs, and splitting on `&` gives the encoded pairs |
| FormUrlEncoded.ComponentRoundTrip | components/ui/ContactButton.tsx:32 | decoding an encoded name or value gives it back |
| FormUrlEncoded.ParseSerialize | components/ui/ContactButton.tsx:32 | parsing the serialization gives back the pair list, for any characters in names and values |
| ContactButton.QueryPairs | components/ui/ContactButton.tsx:23-28 | three to five pairs, starting with `view=cm`, `fs=1` and the recipient |
| ContactButton.Optional | components/ui/ContactButton.tsx:27-28 | an optional parameter is present iff its value is non-empty, and then carries that value |
| ContactButton.QueryPairsOrder | components/ui/ContactButton.tsx:23-28 | the parameter names follow the order view, fs, to, su, body, each at most once |
| ContactButton.QueryPairsContent | components/ui/ContactButton.tsx:14-28 | view and fs are fixed and `to` is the recipient; `su` is present iff the subject (default "Project Inquiry") is non-empty, and `body` iff the body (default empty) is non-empty |
| ContactButton.Caption | components/ui/ContactButton.tsx:49 | the link text is the children when truthy, otherwise "Contact Us"; it is never falsy |
| ContactButton.Render | components/ui/ContactButton.tsx:32-49 | the href is the Gmail compose URL followed by the serialized query; the aria-label is "Send email to " followed by the recipient; the link opens in a new tab with `noopener noreferrer` |
| ContactButton.ContentIsChildrenIffTruthy | components/ui/ContactButton.tsx:49 | the link shows the children exactly when they are truthy; it shows "Contact Us" in their place exactly when they are falsy (a child that itself reads "Contact Us" is shown as given) |
| ContactButton.AriaLabelIdentifiesRecipient | components/ui/ContactButton.tsx:46 | two links have the same aria-label exactly when they have the same recipient |
| ContactButton.QueryRoundTrip | components/ui/ContactButton.tsx:32 | parsing the link's query gives back exactly the appended pairs |
| ContactButton.LinkCarriesMessage | components/ui/ContactButton.tsx:23-32 | the recipient, subject and body read back from the link are the ones given, and an empty subject or body is absent |
| ContactButton.QuerySeparators | components/ui/ContactButton.tsx:32 | the query has exactly (number of pairs − 1) `&` separators |
| ContactButton.DefaultSubjectSent | components/ui/ContactButton.tsx:16 | without a subject prop, the link carries "Project Inquiry" |
| ContactButton.MinimalCallPairs | components/ui/ContactButton.tsx:14-28 | a call with only a recipient gives `view`, `fs`, `to` and the default subject |

## Left out

- Reading the collections: `getAllSolutions` reads a JSON file and `getAllBlogs` reads markdown front matter. The collections are parameters instead; `lib/blog` is not part of this model.
- The clock and date parsing. `new Date()` in the sitemap is the parameter `now`; the source reads the clock once per static and solution entry, and the model uses one reading for all of them, and `new Date(date)` becomes an integer timestamp. Invalid dates, and the comparator's `NaN` result for them, are not modelled.
- Floating-point priorities, which are integer tenths here.
- React rendering, animation and the DOM, including `className` and `onClick` passthrough and the `BlogCard` component.
- `React.Children.forEach`'s flattening of nested arrays: the children reach the model already flattened. Fragments, and nested `null`, `undefined` or boolean children, reach the callback as single non-string children, so they are `Other` nodes here and each takes an `e-<index>` key. Only `children` that are themselves `null` or `undefined` give no items (the empty sequence).
- `JSON.stringify` in `formatStructuredData`, and the constant Organization and WebSite schemas.
- Solution and blog fields that the modelled code does not read.
- The in-place mutation by `blogs.sort`. The sort returns a new sequence; the component uses only the sorted result.
- A `null` blogs prop, and number children such as `0` in the contact button's falsy test. Only an absent child and the empty string count as falsy here.
- Unicode case folding. The brand names are ASCII, and the regular expression is not in unicode mode, so ASCII folding gives the same matches.
- Lone surrogates in JavaScript strings. Dafny characters are Unicode scalar values.
- FormUrlEncoded.Parse: returns `None` on malformed UTF-8 or a malformed name, where the WHATWG parser substitutes U+FFFD. The parser only serves as the serializer's inverse, and serialized input is never malformed.
