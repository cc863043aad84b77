/**
 * The article list of the blog index (src/components/Posts.tsx): the search
 * and tag filters, the tag selection the tag buttons edit, the section title
 * and the shortened description on each card.
 */
module PostList {
  import opened Wrappers
  import opened Text
  import opened Sequences

  /** The fields of a post the list reads. */
  datatype ListedPost = ListedPost(
    title: string,
    slug: string,
    description: string,
    categories: Option<seq<string>>)

  /** Case-insensitive match of the search term in the title or the description. */
  predicate MatchesSearch(p: ListedPost, term: string) {
    Contains(Lower(p.title), Lower(term)) || Contains(Lower(p.description), Lower(term))
  }

  /** Some category of the post is selected; a post without categories has none. */
  predicate HasSelectedTag(p: ListedPost, selected: seq<string>) {
    p.categories.Some? && exists c :: c in p.categories.value && c in selected
  }

  /** Whether the list shows a post: each filter applies only when it is active. */
  predicate Shown(p: ListedPost, term: string, selected: seq<string>) {
    (term == "" || MatchesSearch(p, term)) && (|selected| == 0 || HasSelectedTag(p, selected))
  }

  /** `filteredPosts`: the search filter, then the tag filter. */
  function FilteredPosts(posts: seq<ListedPost>, term: string, selected: seq<string>): (shown: seq<ListedPost>)
    ensures shown == Filter(posts, p => Shown(p, term, selected))
    ensures IsSubsequence(shown, posts)
    ensures forall p :: multiset(shown)[p] == if Shown(p, term, selected) then multiset(posts)[p] else 0
    ensures term == "" && |selected| == 0 ==> shown == posts
  {
    var searched := if term != "" then Filter(posts, p => MatchesSearch(p, term)) else posts;
    var tagged := if |selected| > 0 then Filter(searched, p => HasSelectedTag(p, selected)) else searched;
    var keep := p => Shown(p, term, selected);
    FilterCounts(posts, keep);
    FilterIsSubsequence(posts, keep);
    if term != "" && |selected| > 0 then
      FilterFilter(posts, p => MatchesSearch(p, term), p => HasSelectedTag(p, selected), keep);
      tagged
    else if term != "" then
      FilterSame(posts, p => MatchesSearch(p, term), keep);
      tagged
    else if |selected| > 0 then
      FilterSame(posts, p => HasSelectedTag(p, selected), keep);
      tagged
    else
      FilterAll(posts, keep);
      tagged
  }

  /** No tag is selected twice. */
  ghost predicate Distinct(tags: seq<string>) {
    forall t :: multiset(tags)[t] <= 1
  }

  /** `removeTag`: every copy of `tag` goes, the other tags stay in order. */
  function Without(tags: seq<string>, tag: string): (r: seq<string>)
    ensures tag !in r
    ensures forall t :: t != tag ==> multiset(r)[t] == multiset(tags)[t]
    ensures IsSubsequence(r, tags)
  {
    FilterCounts(tags, t => t != tag);
    FilterIsSubsequence(tags, t => t != tag);
    Filter(tags, t => t != tag)
  }

  /** `handleTagClick`: a selected tag is deselected, any other is added at the end. */
  function Toggle(tags: seq<string>, tag: string): (r: seq<string>)
    ensures tag in r <==> tag !in tags
    ensures forall t :: t != tag ==> multiset(r)[t] == multiset(tags)[t]
    ensures tag !in tags ==> |r| == |tags| + 1 && r[..|tags|] == tags && r[|tags|] == tag
    ensures tag in tags ==> IsSubsequence(r, tags)
  {
    if tag in tags then Without(tags, tag) else tags + [tag]
  }

  /** Clicking an unselected tag twice gives the selection back. */
  lemma ToggleTwice(tags: seq<string>, tag: string)
    requires tag !in tags
    ensures Toggle(Toggle(tags, tag), tag) == tags
  {
    assert tag in tags + [tag];
    FilterAppend(tags, [tag], t => t != tag);
    FilterAll(tags, t => t != tag);
    assert Filter([tag], t => t != tag) == [];
  }

  /** Toggling and removing never select a tag twice. */
  lemma ToggleKeepsDistinct(tags: seq<string>, tag: string)
    requires Distinct(tags)
    ensures Distinct(Toggle(tags, tag)) && Distinct(Without(tags, tag))
  {
    if tag !in tags {
      assert multiset(tags + [tag]) == multiset(tags) + multiset{tag};
    }
  }

  /** In a selection without repeats, removing a selected tag removes exactly one entry. */
  lemma WithoutSelectedTag(tags: seq<string>, tag: string)
    requires Distinct(tags) && tag in tags
    ensures |Without(tags, tag)| == |tags| - 1
  {
    var r := Without(tags, tag);
    assert multiset(tags)[tag] == 1;
    assert multiset(r) == multiset(tags) - multiset{tag};
    assert |multiset(r)| == |r| && |multiset(tags)| == |tags|;
  }

  /** `getSectionTitle`. */
  function SectionTitle(selected: seq<string>): (title: string)
    ensures |selected| == 0 <==> title == "All Articles"
    ensures |selected| > 0 ==> StartsWith(title, "Posts tagged as ")
    ensures |selected| == 1 ==> title == "Posts tagged as " + selected[0]
    ensures |selected| >= 2 ==>
      title == "Posts tagged as " + Join(selected[..|selected| - 1], ", ") + " or " + selected[|selected| - 1]
  {
    if |selected| == 1 then
      "Posts tagged as " + selected[0]
    else if |selected| > 1 then
      "Posts tagged as " + Join(selected[..|selected| - 1], ", ") + " or " + selected[|selected| - 1]
    else
      "All Articles"
  }

  /** The title names every selected tag. */
  lemma SectionTitleNamesEveryTag(selected: seq<string>, i: int)
    requires 0 <= i < |selected|
    ensures Contains(SectionTitle(selected), selected[i])
  {
    var n := |selected|;
    if n == 1 {
      TitleNamesLast("Posts tagged as ", selected[0]);
    } else if i < n - 1 {
      TitleNamesFront("Posts tagged as ", selected[..n - 1], selected[n - 1], i);
    } else {
      TitleNamesLast("Posts tagged as " + Join(selected[..n - 1], ", ") + " or ", selected[n - 1]);
    }
  }

  lemma TitleNamesLast(head: string, last: string)
    ensures Contains(head + last, last)
  {
    assert OccursAt(last, last, 0);
    assert head + last == head + last + "";
    ContainsWithin(head, last, "", last);
  }

  lemma TitleNamesFront(head: string, front: seq<string>, last: string, i: int)
    requires 0 <= i < |front|
    ensures Contains(head + Join(front, ", ") + " or " + last, front[i])
  {
    JoinContainsPart(front, ", ", i);
    assert head + Join(front, ", ") + " or " + last == head + Join(front, ", ") + (" or " + last);
    ContainsWithin(head, Join(front, ", "), " or " + last, front[i]);
  }

  /** The description shown on a card: at most 120 characters, then "...". */
  function Excerpt(description: string): (shown: string)
    ensures |description| <= 120 ==> shown == description
    ensures |description| > 120 ==> |shown| == 123 && StartsWith(description, shown[..120]) && EndsWith(shown, "...")
  {
    if |description| > 120 then description[..120] + "..." else description
  }

  /**
   * The filter state of the list: the search box's text and the selected
   * tags, which the tag buttons, the remove buttons and the clear button
   * change.
   */
  class Filters {
    var searchTerm: string
    var selectedTags: seq<string>

    ghost predicate Valid()
      reads this
    {
      Distinct(selectedTags)
    }

    constructor()
      ensures searchTerm == "" && selectedTags == []
      ensures Valid()
    {
      searchTerm := "";
      selectedTags := [];
    }

    method SetSearchTerm(term: string)
      requires Valid()
      modifies this
      ensures searchTerm == term && selectedTags == old(selectedTags)
      ensures Valid()
    {
      searchTerm := term;
    }

    method HandleTagClick(tag: string)
      requires Valid()
      modifies this
      ensures selectedTags == Toggle(old(selectedTags), tag)
      ensures searchTerm == old(searchTerm)
      ensures Valid()
      ensures tag in old(selectedTags) ==> |selectedTags| == |old(selectedTags)| - 1
    {
      ToggleKeepsDistinct(selectedTags, tag);
      if tag in selectedTags {
        WithoutSelectedTag(selectedTags, tag);
      }
      selectedTags := Toggle(selectedTags, tag);
    }

    method RemoveTag(tag: string)
      requires Valid()
      modifies this
      ensures selectedTags == Without(old(selectedTags), tag)
      ensures searchTerm == old(searchTerm)
      ensures Valid()
    {
      ToggleKeepsDistinct(selectedTags, tag);
      selectedTags := Without(selectedTags, tag);
    }

    /** The clear button empties the selection and leaves the search term as it is. */
    method ClearFilters()
      requires Valid()
      modifies this
      ensures selectedTags == [] && searchTerm == old(searchTerm)
      ensures Valid()
    {
      selectedTags := [];
    }
  }
}
