/** `app/components/BlogsSectionClient.js`: the home page's blog grid shows
    the first three posts until "Read More" expands it to all of them. The
    component's one piece of state is `showAll`. */
module BlogsSection {
  import opened Wrappers
  import opened Seqs
  import opened Content

  /** How many posts the collapsed grid shows. */
  const CollapsedCount: nat := 3

  function Min(a: nat, b: nat): nat { if a <= b then a else b }

  /** The `blogs` prop, defaulting to `[]` when not passed. */
  function BlogsOrDefault(prop: Option<seq<Blog>>): seq<Blog> { prop.GetOr([]) }

  /** `visibleBlogs = showAll ? blogs : blogs.slice(0, 3)`. */
  function VisibleBlogs(blogs: seq<Blog>, showAll: bool): (r: seq<Blog>)
    ensures IsPrefix(r, blogs)
    ensures showAll ==> r == blogs
    ensures !showAll ==> |r| == Min(CollapsedCount, |blogs|)
  {
    if showAll then blogs else blogs[..Min(CollapsedCount, |blogs|)]
  }

  /** `hasMoreBlogs`: whether collapsing hides anything. */
  predicate HasMoreBlogs(blogs: seq<Blog>) {
    |blogs| > CollapsedCount
  }

  /** The toggle button's click handler, `setShowAll(!showAll)`. */
  function Toggle(showAll: bool): (r: bool)
    ensures r != showAll
  {
    !showAll
  }

  function ButtonCaption(showAll: bool): string {
    if showAll then "Show Less" else "Read More"
  }

  /** What the section renders: the cards, and the toggle button's caption
      when the button is shown. */
  datatype Section = Section(cards: seq<Blog>, button: Option<string>)

  function Render(prop: Option<seq<Blog>>, showAll: bool): (r: Section)
    ensures r.button.Some? <==> |BlogsOrDefault(prop)| > 3
    ensures r.button.Some? ==> (r.button.value == "Show Less" <==> showAll)
    ensures IsPrefix(r.cards, BlogsOrDefault(prop))
    ensures showAll ==> r.cards == BlogsOrDefault(prop)
    ensures !showAll ==> |r.cards| == Min(CollapsedCount, |BlogsOrDefault(prop)|)
  {
    var blogs := BlogsOrDefault(prop);
    Section(VisibleBlogs(blogs, showAll),
            if HasMoreBlogs(blogs) then Some(ButtonCaption(showAll)) else None)
  }

  /** The initial, collapsed state shows exactly the first three posts (or
      all of them when there are fewer). */
  lemma InitiallyFirstThree(blogs: seq<Blog>)
    ensures Render(Some(blogs), false).cards == blogs[..Min(3, |blogs|)]
  {
  }

  /** Toggling twice returns to the state it started from. */
  lemma ToggleTwice(showAll: bool)
    ensures Toggle(Toggle(showAll)) == showAll
  {
  }

  /** When the button is hidden nothing is hidden: with at most three posts
      both states show every post, so the missing button loses nothing. */
  lemma NoButtonNothingHidden(blogs: seq<Blog>, showAll: bool)
    requires Render(Some(blogs), showAll).button.None?
    ensures Render(Some(blogs), showAll).cards == blogs
  {
  }

  /** When the button is shown, expanding really shows more posts. */
  lemma ButtonShowsMore(blogs: seq<Blog>)
    requires Render(Some(blogs), false).button.Some?
    ensures |Render(Some(blogs), Toggle(false)).cards| > |Render(Some(blogs), false).cards|
  {
  }
}
