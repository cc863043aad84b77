/**
 * Series resolution, `getSeriesInfo` of src/lib/series.ts: the posts that
 * share the current post's first series, oldest first, and the current
 * post's position among them.
 */
module Series {
  import opened Wrappers
  import opened Markdown
  import opened StableSort
  import opened Sequences
  import Posts

  datatype SeriesInfo = SeriesInfo(name: string, description: string, posts: seq<BlogPost>, currentIndex: int)

  /** `posts.findIndex((post) => post.slug === slug)`; `posts.find` returns the post at this index. */
  function FindIndex(posts: seq<BlogPost>, slug: string): (i: int)
    ensures -1 <= i < |posts|
    ensures i >= 0 ==> posts[i].slug == slug
    ensures i >= 0 ==> forall j :: 0 <= j < i ==> posts[j].slug != slug
    ensures i < 0 ==> forall j :: 0 <= j < |posts| ==> posts[j].slug != slug
    decreases |posts|
  {
    if |posts| == 0 then -1
    else if posts[0].slug == slug then 0
    else
      var k := FindIndex(posts[1..], slug);
      if k < 0 then -1 else k + 1
  }

  /** `posts.filter(post => post.series?.includes(name))`, in input order. */
  function InSeries(posts: seq<BlogPost>, name: string): (r: seq<BlogPost>)
    ensures forall p :: multiset(r)[p] == if name in p.series then multiset(posts)[p] else 0
    ensures IsSubsequence(r, posts)
  {
    FilterCounts(posts, (p: BlogPost) => name in p.series);
    FilterIsSubsequence(posts, (p: BlogPost) => name in p.series);
    Filter(posts, (p: BlogPost) => name in p.series)
  }

  /** The description of a series, when the definitions give it a non-empty one (`!description` otherwise). */
  predicate Described(defs: map<string, string>, name: string) {
    name in defs && defs[name] != ""
  }

  /**
   * `getSeriesInfo(posts, currentSlug, seriesDefinitions)`: `None` exactly when
   * no post has the slug, the first such post has no series, or its first
   * series has no (non-empty) description. Otherwise the series members in
   * ascending date order (stable), with the current post's index in range.
   */
  function GetSeriesInfo(posts: seq<BlogPost>, currentSlug: string, defs: map<string, string>): (r: Option<SeriesInfo>)
    ensures var k := FindIndex(posts, currentSlug);
      r.None? <==> (k < 0 || |posts[k].series| == 0 || !Described(defs, posts[k].series[0]))
    ensures r.Some? ==>
      var k := FindIndex(posts, currentSlug);
      var name := posts[k].series[0];
      var info := r.value;
      && info.name == name
      && info.description == defs[name]
      && SortedBy(info.posts, Posts.DateKey, Ascending)
      && multiset(info.posts) == multiset(InSeries(posts, name))
      && StableFor(info.posts, InSeries(posts, name), Posts.DateKey)
      && 0 <= info.currentIndex < |info.posts|
      && info.posts[info.currentIndex].slug == currentSlug
      && forall j :: 0 <= j < info.currentIndex ==> info.posts[j].slug != currentSlug
  {
    var k := FindIndex(posts, currentSlug);
    if k < 0 || |posts[k].series| == 0 then None
    else
      var name := posts[k].series[0];
      if !Described(defs, name) then None
      else
        var members := Sort(InSeries(posts, name), Posts.DateKey, Ascending);
        var current := posts[k];
        assert current in multiset(members) by {
          assert multiset(posts)[current] > 0;
        }
        var m :| 0 <= m < |members| && members[m] == current;
        var index := FindIndex(members, currentSlug);
        assert index >= 0;
        Some(SeriesInfo(name, defs[name], members, index))
  }

  /**
   * Every post shown in the series carries the series name, and every post
   * that carries it is shown: membership is decided by the name alone.
   */
  lemma SeriesMembership(posts: seq<BlogPost>, currentSlug: string, defs: map<string, string>, p: BlogPost)
    requires GetSeriesInfo(posts, currentSlug, defs).Some?
    ensures var info := GetSeriesInfo(posts, currentSlug, defs).value;
      p in info.posts <==> p in posts && info.name in p.series
  {
    var info := GetSeriesInfo(posts, currentSlug, defs).value;
    assert multiset(info.posts)[p] == multiset(InSeries(posts, info.name))[p];
    assert p in info.posts <==> multiset(info.posts)[p] > 0;
    assert p in posts <==> multiset(posts)[p] > 0;
  }

  /** Two posts of series "X", one month apart: reading order is oldest first. */
  lemma TwoPartSeriesExample(a: BlogPost, b: BlogPost)
    requires a.slug == "a" && b.slug == "b"
    requires a.date == Dated(1) && b.date == Dated(2)
    requires a.series == ["X"] && b.series == ["X"]
    ensures GetSeriesInfo([b, a], "a", map["X" := "intro series"]) == Some(SeriesInfo("X", "intro series", [a, b], 0))
    ensures GetSeriesInfo([b, a], "b", map["X" := "intro series"]) == Some(SeriesInfo("X", "intro series", [a, b], 1))
  {
    var defs := map["X" := "intro series"];
    assert [b, a][1..] == [a];
    assert InSeries([b, a], "X") == [b, a];
    assert Sort([b, a], Posts.DateKey, Ascending) == [a, b] by {
      assert [b, a][1..] == [a];
      assert [a][1..] == [];
      assert Sort([a], Posts.DateKey, Ascending) == [a];
    }
    assert [a, b][1..] == [b];
  }
}
