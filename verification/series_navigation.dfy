/**
 * The series box shown above a post (src/components/SeriesNavigation.tsx):
 * one entry per post of the series, marked completed, current or upcoming,
 * and a link to the next post.
 */
module SeriesNavigation {
  import opened Wrappers
  import opened Markdown
  import opened Series

  datatype Status = Completed | Current | Upcoming

  /** The marker of the post at `index`: before the current post, the current post, or after it. */
  function StatusOf(index: int, currentIndex: int): (s: Status)
    ensures s == Completed <==> index < currentIndex
    ensures s == Current <==> index == currentIndex
    ensures s == Upcoming <==> index > currentIndex
  {
    if index < currentIndex then Completed
    else if index == currentIndex then Current
    else Upcoming
  }

  function PostHref(slug: string): string {
    "/blog/" + slug
  }

  /** One row of the box: the title, the marker, the link (none for the current post) and the "Current" badge. */
  datatype Entry = Entry(title: string, status: Status, link: Option<string>, badge: bool)

  function Entries(posts: seq<BlogPost>, currentIndex: int): (es: seq<Entry>)
    ensures |es| == |posts|
    ensures forall i :: 0 <= i < |es| ==>
      && es[i].title == posts[i].title
      && es[i].status == StatusOf(i, currentIndex)
      && (es[i].link.None? <==> i == currentIndex)
      && (es[i].link.Some? ==> es[i].link.value == PostHref(posts[i].slug))
      && (es[i].badge <==> es[i].status == Current)
  {
    seq(|posts|, i requires 0 <= i < |posts| =>
      var isCurrent := i == currentIndex;
      Entry(posts[i].title, StatusOf(i, currentIndex),
            if isCurrent then None else Some(PostHref(posts[i].slug)), isCurrent))
  }

  /** How many entries are marked current. */
  function CountCurrent(es: seq<Entry>): nat
    decreases |es|
  {
    if |es| == 0 then 0
    else (if es[0].status == Current then 1 else 0) + CountCurrent(es[1..])
  }

  lemma {:induction false} CountCurrentNone(es: seq<Entry>)
    requires forall i :: 0 <= i < |es| ==> es[i].status != Current
    ensures CountCurrent(es) == 0
    decreases |es|
  {
    if |es| > 0 {
      CountCurrentNone(es[1..]);
    }
  }

  lemma {:induction false} CountCurrentOne(es: seq<Entry>, k: int)
    requires 0 <= k < |es| && es[k].status == Current
    requires forall i :: 0 <= i < |es| && i != k ==> es[i].status != Current
    ensures CountCurrent(es) == 1
    decreases |es|
  {
    if k == 0 {
      CountCurrentNone(es[1..]);
    } else {
      CountCurrentOne(es[1..], k - 1);
    }
  }

  /** With the index in range exactly one entry is current; otherwise none is. */
  lemma ExactlyOneCurrent(posts: seq<BlogPost>, currentIndex: int)
    ensures CountCurrent(Entries(posts, currentIndex)) == if 0 <= currentIndex < |posts| then 1 else 0
  {
    var es := Entries(posts, currentIndex);
    if 0 <= currentIndex < |posts| {
      CountCurrentOne(es, currentIndex);
    } else {
      CountCurrentNone(es);
    }
  }

  datatype NextLink = NextLink(href: string, title: string)

  /** "Next in series": shown while the current post is not the last one. */
  function NextInSeries(posts: seq<BlogPost>, currentIndex: int): (r: Option<NextLink>)
    requires currentIndex >= -1
    ensures r.Some? <==> currentIndex < |posts| - 1
    ensures r.Some? ==> r.value == NextLink(PostHref(posts[currentIndex + 1].slug), posts[currentIndex + 1].title)
  {
    if currentIndex < |posts| - 1 then
      var next := posts[currentIndex + 1];
      Some(NextLink(PostHref(next.slug), next.title))
    else
      None
  }

  /**
   * For a series resolved by `getSeriesInfo` the box is well formed: the
   * current post is the one being read and is the only one marked current,
   * and the next link, when shown, is the series post right after it.
   */
  lemma NavigationOfSeriesInfo(posts: seq<BlogPost>, currentSlug: string, defs: map<string, string>)
    requires GetSeriesInfo(posts, currentSlug, defs).Some?
    ensures var info := GetSeriesInfo(posts, currentSlug, defs).value;
      && info.currentIndex >= -1
      && CountCurrent(Entries(info.posts, info.currentIndex)) == 1
      && Entries(info.posts, info.currentIndex)[info.currentIndex].title == info.posts[info.currentIndex].title
      && info.posts[info.currentIndex].slug == currentSlug
      && (NextInSeries(info.posts, info.currentIndex).Some? <==> info.currentIndex + 1 < |info.posts|)
  {
    var info := GetSeriesInfo(posts, currentSlug, defs).value;
    ExactlyOneCurrent(info.posts, info.currentIndex);
  }
}
