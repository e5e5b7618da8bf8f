/** The listing logic of `app/case-studies/CaseStudiesClient.js`: posts
    sorted newest first, the tag bar built from the distinct tags, the tag
    filter with its `"all"` sentinel, and which sections the page shows. */
module CaseStudies {
  import opened Wrappers
  import opened Seqs
  import opened Content

  // ---------------------------------------------------------------- Sorting

  predicate NewestFirst(s: seq<Blog>) {
    forall i, j :: 0 <= i < j < |s| ==> s[i].date >= s[j].date
  }

  /** The posts of `s` dated `d`, in their order in `s`. A sort is stable
      when it keeps this sub-list of every date unchanged. */
  function SameDate(s: seq<Blog>, d: int): (r: seq<Blog>)
    ensures forall b :: b in r ==> b in s && b.date == d
  {
    if |s| == 0 then []
    else (if s[0].date == d then [s[0]] else []) + SameDate(s[1..], d)
  }

  lemma {:induction false} SameDateMember(s: seq<Blog>, i: nat)
    requires i < |s|
    ensures s[i] in SameDate(s, s[i].date)
  {
    if i > 0 {
      SameDateMember(s[1..], i - 1);
    }
  }

  /** The first post of a newest-first list is at least as new as any. */
  lemma HeadIsNewest(s: seq<Blog>, x: Blog)
    requires NewestFirst(s) && x in s
    ensures x.date <= s[0].date
  {
  }

  /** Insert `b` into a newest-first list before the first post that is not
      newer than it. */
  function Insert(b: Blog, sorted: seq<Blog>): (r: seq<Blog>)
    requires NewestFirst(sorted)
    ensures NewestFirst(r)
    ensures multiset(r) == multiset(sorted) + multiset{b}
  {
    if |sorted| == 0 || sorted[0].date <= b.date then
      [b] + sorted
    else
      var rest := Insert(b, sorted[1..]);
      assert sorted == [sorted[0]] + sorted[1..];
      AddedBelow(rest, sorted[1..], b, sorted[0].date);
      NewestFirstCons(sorted[0], rest);
      [sorted[0]] + rest
  }

  /** A post at least as new as every post of a newest-first list can go in
      front of it. */
  lemma NewestFirstCons(x: Blog, s: seq<Blog>)
    requires NewestFirst(s)
    requires forall y :: y in s ==> y.date <= x.date
    ensures NewestFirst([x] + s)
  {
    forall i, j | 0 <= i < j < |[x] + s|
      ensures ([x] + s)[i].date >= ([x] + s)[j].date
    {
      if i == 0 {
        assert ([x] + s)[j] == s[j - 1];
      }
    }
  }

  /** Adding a post no newer than `top` to posts no newer than `top` gives
      posts no newer than `top`. */
  lemma AddedBelow(r: seq<Blog>, sorted: seq<Blog>, b: Blog, top: int)
    requires multiset(r) == multiset(sorted) + multiset{b} && b.date <= top
    requires forall x :: x in sorted ==> x.date <= top
    ensures forall x :: x in r ==> x.date <= top
  {
    forall x | x in r ensures x.date <= top {
      assert x in multiset(r);
      assert x == b || x in multiset(sorted);
    }
  }

  /** Inserting keeps every date's posts in order, with `b` placed before
      the posts of its own date: the insertion step is stable. */
  lemma {:induction false} InsertStable(b: Blog, sorted: seq<Blog>, d: int)
    requires NewestFirst(sorted)
    ensures SameDate(Insert(b, sorted), d) ==
              if b.date == d then [b] + SameDate(sorted, d) else SameDate(sorted, d)
  {
    if |sorted| == 0 || sorted[0].date <= b.date {
      assert Insert(b, sorted) == [b] + sorted;
      SameDateCons(b, sorted, d);
    } else {
      var rest := Insert(b, sorted[1..]);
      InsertStable(b, sorted[1..], d);
      assert Insert(b, sorted) == [sorted[0]] + rest;
      InsertStableStep(b, sorted, rest, d);
    }
  }

  /** The step of `InsertStable` past a head that is newer than `b`. */
  lemma InsertStableStep(b: Blog, sorted: seq<Blog>, rest: seq<Blog>, d: int)
    requires |sorted| > 0 && b.date < sorted[0].date
    requires SameDate(rest, d) ==
               if b.date == d then [b] + SameDate(sorted[1..], d) else SameDate(sorted[1..], d)
    ensures SameDate([sorted[0]] + rest, d) ==
              if b.date == d then [b] + SameDate(sorted, d) else SameDate(sorted, d)
  {
    SameDateCons(sorted[0], rest, d);
    SameDateCons(sorted[0], sorted[1..], d);
    assert [sorted[0]] + sorted[1..] == sorted;
  }

  lemma SameDateCons(x: Blog, s: seq<Blog>, d: int)
    ensures SameDate([x] + s, d) == (if x.date == d then [x] else []) + SameDate(s, d)
  {
    assert ([x] + s)[1..] == s;
  }

  /** `blogs.sort((a, b) => new Date(b.date) - new Date(a.date))`: newest
      first, posts with equal dates in their input order (ECMA-262 section
      23.1.3.30 requires `Array.prototype.sort` to be stable). */
  function SortNewestFirst(blogs: seq<Blog>): (r: seq<Blog>)
    ensures NewestFirst(r)
    ensures multiset(r) == multiset(blogs)
  {
    if |blogs| == 0 then []
    else
      var r := Insert(blogs[0], SortNewestFirst(blogs[1..]));
      assert blogs == [blogs[0]] + blogs[1..];
      r
  }

  /** The sort is stable: for every date, the posts of that date keep their
      input order. */
  lemma {:induction false} SortStable(blogs: seq<Blog>, d: int)
    ensures SameDate(SortNewestFirst(blogs), d) == SameDate(blogs, d)
  {
    if |blogs| > 0 {
      SortStable(blogs[1..], d);
      InsertStable(blogs[0], SortNewestFirst(blogs[1..]), d);
    }
  }

  /** Two newest-first lists with the same posts per date start with the
      same post: each head appears in the other list, so neither is newer
      than the other, and each is the first post of its date. */
  lemma HeadsAgree(a: seq<Blog>, b: seq<Blog>)
    requires |a| > 0 && |b| > 0
    requires NewestFirst(a) && NewestFirst(b)
    requires SameDate(a, a[0].date) == SameDate(b, a[0].date)
    requires SameDate(a, b[0].date) == SameDate(b, b[0].date)
    ensures a[0] == b[0]
  {
    SameDateMember(a, 0);
    SameDateMember(b, 0);
    assert a[0] in b;
    assert b[0] in a;
    HeadIsNewest(b, a[0]);
    HeadIsNewest(a, b[0]);
    var d := a[0].date;
    assert b[0].date == d;
    var sa, sb := SameDate(a, d), SameDate(b, d);
    assert sa[0] == a[0];
    assert sb[0] == b[0];
  }

  /** Removing the same head from both lists keeps their per-date lists
      equal. */
  lemma TailsAgree(a: seq<Blog>, b: seq<Blog>, e: int)
    requires |a| > 0 && |b| > 0 && a[0] == b[0]
    requires SameDate(a, e) == SameDate(b, e)
    ensures SameDate(a[1..], e) == SameDate(b[1..], e)
  {
    if a[0].date == e {
      assert SameDate(a, e) == [a[0]] + SameDate(a[1..], e);
      assert SameDate(b, e) == [b[0]] + SameDate(b[1..], e);
      assert SameDate(a[1..], e) == SameDate(a, e)[1..];
      assert SameDate(b[1..], e) == SameDate(b, e)[1..];
    } else {
      assert SameDate(a, e) == SameDate(a[1..], e);
      assert SameDate(b, e) == SameDate(b[1..], e);
    }
  }

  /** A stable newest-first order is unique: any arrangement that is newest
      first and keeps every date's posts in input order is this one. So the
      model stands for whatever stable algorithm the engine uses. */
  lemma {:induction false} StableOrderUnique(a: seq<Blog>, b: seq<Blog>)
    requires NewestFirst(a) && NewestFirst(b)
    requires forall d :: SameDate(a, d) == SameDate(b, d)
    ensures a == b
    decreases |a| + |b|
  {
    // a post of either list is also in the other, so both are empty or neither
    if |a| > 0 {
      SameDateMember(a, 0);
      assert a[0] in SameDate(b, a[0].date);
    }
    if |b| > 0 {
      SameDateMember(b, 0);
      assert b[0] in SameDate(a, b[0].date);
    }
    if |a| > 0 {
      HeadsAgree(a, b);
      forall e ensures SameDate(a[1..], e) == SameDate(b[1..], e) {
        TailsAgree(a, b, e);
      }
      StableOrderUnique(a[1..], b[1..]);
      assert a == [a[0]] + a[1..] && b == [b[0]] + b[1..];
    }
  }

  /** Sorting a list that is already newest first changes nothing, so
      sorting twice is sorting once. */
  lemma SortIdempotent(blogs: seq<Blog>)
    ensures NewestFirst(blogs) ==> SortNewestFirst(blogs) == blogs
    ensures SortNewestFirst(SortNewestFirst(blogs)) == SortNewestFirst(blogs)
  {
    var s := SortNewestFirst(blogs);
    forall d ensures SameDate(s, d) == SameDate(blogs, d) {
      SortStable(blogs, d);
    }
    if NewestFirst(blogs) {
      StableOrderUnique(s, blogs);
    }
    forall d ensures SameDate(SortNewestFirst(s), d) == SameDate(s, d) {
      SortStable(s, d);
    }
    StableOrderUnique(SortNewestFirst(s), s);
  }

  // ---------------------------------------------------------------- Tags

  /** `allBlogs.flatMap((blog) => blog.tags || [])`. */
  function FlatTags(blogs: seq<Blog>): (r: seq<string>)
    ensures forall t :: t in r <==> exists b :: b in blogs && t in TagsOf(b)
  {
    if |blogs| == 0 then []
    else
      assert blogs == [blogs[0]] + blogs[1..];
      TagsOf(blogs[0]) + FlatTags(blogs[1..])
  }

  /** `[...new Set(allBlogs.flatMap(...))]`: the tag bar's tags, each once,
      in order of first appearance. */
  function AllTags(sorted: seq<Blog>): (r: seq<string>)
    ensures NoDuplicates(r)
    ensures forall t :: t in r <==> t in FlatTags(sorted)
    ensures forall t :: t in r <==> exists b :: b in sorted && t in TagsOf(b)
    ensures forall i, j :: 0 <= i < j < |r| ==>
              IndexOf(FlatTags(sorted), r[i]) < IndexOf(FlatTags(sorted), r[j])
  {
    Distinct(FlatTags(sorted))
  }

  // ---------------------------------------------------------------- Filter

  /** The sentinel that selects every post; also the initial selection. */
  const AllSentinel: string := "all"

  /** `blog.tags?.includes(tag)`: a post without tags matches nothing. */
  predicate HasTag(b: Blog, tag: string) {
    b.tags.Some? && tag in b.tags.value
  }

  /** `filteredBlogs`. */
  function FilterByTag(sorted: seq<Blog>, selected: string): (r: seq<Blog>)
    ensures selected == AllSentinel ==> r == sorted
    ensures IsSubsequence(r, sorted)
    ensures selected != AllSentinel ==>
              forall b :: multiset(r)[b] == if HasTag(b, selected) then multiset(sorted)[b] else 0
  {
    if selected == AllSentinel then
      FilterIsSubsequence(sorted, b => true);
      assert Filter(sorted, b => true) == sorted by {
        FilterAll(sorted);
      }
      sorted
    else
      var keep := (b: Blog) => HasTag(b, selected);
      FilterIsSubsequence(sorted, keep);
      forall b ensures multiset(Filter(sorted, keep))[b] ==
                       if HasTag(b, selected) then multiset(sorted)[b] else 0 {
        FilterCount(sorted, keep, b);
      }
      Filter(sorted, keep)
  }

  lemma {:induction false} FilterAll(s: seq<Blog>)
    ensures Filter(s, b => true) == s
  {
    if |s| > 0 {
      FilterAll(s[1..]);
      assert s == [s[0]] + s[1..];
    }
  }

  /** Every tag offered on the bar selects at least one post. */
  lemma OfferedTagSelectsSomething(sorted: seq<Blog>, tag: string)
    requires tag in AllTags(sorted)
    ensures |FilterByTag(sorted, tag)| > 0
  {
    var b :| b in sorted && tag in TagsOf(b);
    assert b in multiset(sorted);
    if tag != AllSentinel {
      assert HasTag(b, tag);
      assert multiset(FilterByTag(sorted, tag))[b] > 0;
    }
  }

  // ---------------------------------------------------------------- Page

  /** A button of the tag bar: its caption, the tag it selects, and whether
      it is drawn as the active one. */
  datatype TagButton = TagButton(caption: string, value: string, active: bool)

  /** What the page renders: the tag bar (absent when hidden), the cards, the
      empty-state message, and the "Products Shipped" count (absent when the
      stats section is hidden). */
  datatype Page = Page(
    tagBar: Option<seq<TagButton>>,
    cards: seq<Blog>,
    emptyState: bool,
    shipped: Option<nat>)

  function TagBar(tags: seq<string>, selected: string): (r: seq<TagButton>)
    ensures |r| == |tags| + 1
    ensures r[0] == TagButton("All Projects", AllSentinel, selected == AllSentinel)
    ensures forall i :: 0 <= i < |tags| ==>
              r[i + 1] == TagButton("#" + tags[i], tags[i], selected == tags[i])
    ensures forall k :: 0 <= k < |r| ==> (r[k].active <==> r[k].value == selected)
  {
    [TagButton("All Projects", AllSentinel, selected == AllSentinel)] +
    seq(|tags|, i requires 0 <= i < |tags| => TagButton("#" + tags[i], tags[i], selected == tags[i]))
  }

  /** `CaseStudiesClient({ blogs })` with `selectedTag` as its state. */
  function Render(blogs: seq<Blog>, selected: string): (r: Page)
    ensures r.cards == FilterByTag(SortNewestFirst(blogs), selected)
    ensures r.emptyState <==> |r.cards| == 0
    ensures r.tagBar.Some? <==> exists b :: b in blogs && |TagsOf(b)| > 0
    ensures r.tagBar.Some? ==> r.tagBar.value == TagBar(AllTags(SortNewestFirst(blogs)), selected)
    ensures r.shipped.Some? <==> |blogs| > 0
    ensures r.shipped.Some? ==> r.shipped.value == |blogs|
  {
    var sorted := SortNewestFirst(blogs);
    var tags := AllTags(sorted);
    var cards := FilterByTag(sorted, selected);
    assert |sorted| == |blogs| by {
      assert |multiset(sorted)| == |multiset(blogs)|;
    }
    TagsOfSortedBlogs(blogs, sorted);
    Page(
      if |tags| > 0 then Some(TagBar(tags, selected)) else None,
      cards,
      |cards| == 0,
      if |sorted| > 0 then Some(|sorted|) else None)
  }

  lemma TagsOfSortedBlogs(blogs: seq<Blog>, sorted: seq<Blog>)
    requires multiset(sorted) == multiset(blogs)
    ensures |AllTags(sorted)| > 0 <==> exists b :: b in blogs && |TagsOf(b)| > 0
  {
    if |AllTags(sorted)| > 0 {
      var t := AllTags(sorted)[0];
      assert t in AllTags(sorted);
      var b :| b in sorted && t in TagsOf(b);
      assert b in multiset(blogs);
    }
    if b :| b in blogs && |TagsOf(b)| > 0 {
      assert b in multiset(sorted);
      assert TagsOf(b)[0] in AllTags(sorted);
    }
  }

  /** The initial page (nothing selected yet) lists every post, newest
      first. */
  lemma InitialPageShowsAll(blogs: seq<Blog>)
    ensures Render(blogs, AllSentinel).cards == SortNewestFirst(blogs)
    ensures |Render(blogs, AllSentinel).cards| == |blogs|
  {
    assert |multiset(SortNewestFirst(blogs))| == |multiset(blogs)|;
  }

  /** A post literally tagged `"all"` cannot be singled out: selecting that
      tag shows every post, tagged or not. */
  lemma TagNamedAllIsNoFilter(blogs: seq<Blog>)
    ensures Render(blogs, "all").cards == SortNewestFirst(blogs)
  {
  }
}
