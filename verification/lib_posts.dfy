/**
 * The post repository of src/lib/posts.ts (scripts/generate-static-data.js
 * carries a copy that behaves identically): `generateAllPosts`, `generatePost` and
 * `generateStaticSlugs` over the `content/blog` directory.
 *
 * The directory is a value: `listing` is what `readdirSync` returns (`None`
 * when it throws), and `files` maps a file name to what `matter` makes of its
 * text (`None` when the front matter cannot be parsed and `matter` throws); a
 * name that is not a key of `files` cannot be read, so `readFileSync` throws.
 */
module Posts {
  import opened Wrappers
  import opened Text
  import opened Markdown
  import opened StableSort
  import opened Sequences

  datatype ContentDir = ContentDir(listing: Option<seq<string>>, files: map<string, Option<Matter>>)

  /** `name.endsWith('.md')`. */
  predicate IsMarkdownFile(name: string) {
    EndsWith(name, ".md")
  }

  /** `name.replace(/\.md$/, '')`: only the one trailing `.md` is removed. */
  function SlugOf(name: string): (slug: string)
    requires IsMarkdownFile(name)
    ensures slug + ".md" == name
  {
    name[..|name| - 3]
  }

  /** `filenames.filter((name) => name.endsWith('.md'))`. */
  function MarkdownNames(names: seq<string>): (r: seq<string>)
    ensures forall i :: 0 <= i < |r| ==> IsMarkdownFile(r[i])
    ensures forall n :: n in r <==> n in names && IsMarkdownFile(n)
    ensures IsSubsequence(r, names)
  {
    FilterCounts(names, IsMarkdownFile);
    FilterIsSubsequence(names, IsMarkdownFile);
    Filter(names, IsMarkdownFile)
  }

  /** Every copy of a `.md` name is kept and no copy of any other name, so repeats are counted exactly. */
  lemma MarkdownNamesCounts(names: seq<string>)
    ensures forall n :: multiset(MarkdownNames(names))[n] == if IsMarkdownFile(n) then multiset(names)[n] else 0
  {
    FilterCounts(names, IsMarkdownFile);
  }

  /** `.map((name) => name.replace(/\.md$/, ''))`. */
  function SlugsOf(names: seq<string>): (slugs: seq<string>)
    requires forall i :: 0 <= i < |names| ==> IsMarkdownFile(names[i])
    ensures |slugs| == |names|
    ensures forall i :: 0 <= i < |names| ==> slugs[i] + ".md" == names[i]
  {
    seq(|names|, i requires 0 <= i < |names| => SlugOf(names[i]))
  }

  /** `generateStaticSlugs()`: the `.md` names in listing order, without the suffix; `[]` when the listing fails. */
  function GenerateStaticSlugs(dir: ContentDir): (slugs: seq<string>)
    ensures dir.listing.None? ==> slugs == []
    ensures dir.listing.Some? ==>
      var names := MarkdownNames(dir.listing.value);
      |slugs| == |names| && forall i :: 0 <= i < |names| ==> slugs[i] + ".md" == names[i]
    ensures dir.listing.Some? ==> forall s :: s in slugs <==> s + ".md" in dir.listing.value
  {
    match dir.listing
    case None => []
    case Some(names) =>
      var md := MarkdownNames(names);
      var slugs := SlugsOf(md);
      assert forall s :: s in slugs ==> s + ".md" in names by {
        forall s | s in slugs ensures s + ".md" in names {
          var i :| 0 <= i < |slugs| && slugs[i] == s;
          assert md[i] in md;
        }
      }
      assert forall s :: s + ".md" in names ==> s in slugs by {
        forall s | s + ".md" in names ensures s in slugs {
          var n := s + ".md";
          assert n[|n| - 3..] == ".md";
          assert n in md;
          var i :| 0 <= i < |md| && md[i] == n;
          assert slugs[i] + ".md" == s + ".md";
          assert slugs[i] == (slugs[i] + ".md")[..|slugs[i]|];
        }
      }
      slugs
  }

  /** The file can be read and its front matter parsed. */
  predicate Loadable(dir: ContentDir, name: string) {
    name in dir.files && dir.files[name].Some?
  }

  /** Reading `name` and parsing it as the post `slug`; `None` when either step throws. */
  function LoadFile(dir: ContentDir, name: string, slug: string): (r: Option<BlogPost>)
    ensures r.Some? <==> Loadable(dir, name)
    ensures r.Some? ==> r.value == ParseMarkdown(dir.files[name].value, slug)
  {
    if Loadable(dir, name) then Some(ParseMarkdown(dir.files[name].value, slug)) else None
  }

  /** `Promise.all` over the `.md` names: every file is parsed, or the whole step fails. */
  function ParseAll(dir: ContentDir, names: seq<string>): (r: Option<seq<BlogPost>>)
    requires forall i :: 0 <= i < |names| ==> IsMarkdownFile(names[i])
    ensures r.Some? <==> forall i :: 0 <= i < |names| ==> Loadable(dir, names[i])
    ensures r.Some? ==> |r.value| == |names|
    ensures r.Some? ==> forall i :: 0 <= i < |names| ==>
      r.value[i] == ParseMarkdown(dir.files[names[i]].value, SlugOf(names[i]))
    decreases |names|
  {
    if |names| == 0 then Some([])
    else
      match LoadFile(dir, names[0], SlugOf(names[0]))
      case None => None
      case Some(p) =>
        match ParseAll(dir, names[1..])
        case None => None
        case Some(ps) =>
          assert forall i :: 1 <= i < |names| ==> names[i] == names[1..][i - 1];
          Some([p] + ps)
  }

  /** `new Date(p.date).getTime()`; an undated post sorts as the epoch (see README). */
  function DateKey(p: BlogPost): int {
    match p.date
    case Dated(t) => t
    case Undated => 0
  }

  /**
   * `generateAllPosts()`: every `.md` file parsed, newest first, with equal
   * dates kept in listing order; `[]` when the listing, any read or any parse
   * fails.
   */
  function GenerateAllPosts(dir: ContentDir): (posts: seq<BlogPost>)
    ensures dir.listing.None? ==> posts == []
    ensures dir.listing.Some? ==>
      var names := MarkdownNames(dir.listing.value);
      var parsed := ParseAll(dir, names);
      && (parsed.None? ==> posts == [])
      && (parsed.Some? ==>
            && SortedBy(posts, DateKey, Descending)
            && multiset(posts) == multiset(parsed.value)
            && StableFor(posts, parsed.value, DateKey))
  {
    match dir.listing
    case None => []
    case Some(names) =>
      match ParseAll(dir, MarkdownNames(names))
      case None => []
      case Some(ps) => Sort(ps, DateKey, Descending)
  }

  /** `generatePost(slug)`: reads exactly `slug + ".md"`; `None` when the read or the parse fails. */
  function GeneratePost(dir: ContentDir, slug: string): (r: Option<BlogPost>)
    ensures r.Some? <==> Loadable(dir, slug + ".md")
    ensures r.Some? ==> r.value.slug == slug
    ensures r.Some? ==> r.value == ParseMarkdown(dir.files[slug + ".md"].value, slug)
  {
    LoadFile(dir, slug + ".md", slug)
  }

  /** Every post of the full listing is also what a single-post lookup of its slug returns. */
  lemma LoadOneAgreesWithLoadAll(dir: ContentDir, p: BlogPost)
    requires p in GenerateAllPosts(dir)
    ensures GeneratePost(dir, p.slug) == Some(p)
  {
    var all := GenerateAllPosts(dir);
    assert dir.listing.Some?;
    var names := MarkdownNames(dir.listing.value);
    var parsed := ParseAll(dir, names);
    assert parsed.Some?;
    var ps := parsed.value;
    assert multiset(all) == multiset(ps);
    assert p in multiset(all);
    assert p in ps;
    var i :| 0 <= i < |ps| && ps[i] == p;
    assert p.slug + ".md" == names[i];
  }

  function SlugList(posts: seq<BlogPost>): (slugs: seq<string>)
    ensures |slugs| == |posts|
    ensures forall i :: 0 <= i < |posts| ==> slugs[i] == posts[i].slug
  {
    seq(|posts|, i requires 0 <= i < |posts| => posts[i].slug)
  }

  lemma SlugListPermutation(a: seq<BlogPost>, b: seq<BlogPost>)
    requires multiset(a) == multiset(b)
    ensures multiset(SlugList(a)) == multiset(SlugList(b))
  {
    MapPermutation(a, b, (p: BlogPost) => p.slug);
    assert SlugList(a) == Map(a, (p: BlogPost) => p.slug);
    assert SlugList(b) == Map(b, (p: BlogPost) => p.slug);
  }

  /**
   * When the listing and every `.md` file load, the slugs of the full listing
   * are, counted with multiplicity, exactly the static slugs.
   */
  lemma AllPostsSlugsAreStaticSlugs(dir: ContentDir)
    requires dir.listing.Some?
    requires forall n :: n in dir.listing.value && IsMarkdownFile(n) ==> Loadable(dir, n)
    ensures multiset(SlugList(GenerateAllPosts(dir))) == multiset(GenerateStaticSlugs(dir))
  {
    var names := MarkdownNames(dir.listing.value);
    assert forall i :: 0 <= i < |names| ==> Loadable(dir, names[i]) by {
      forall i | 0 <= i < |names| ensures Loadable(dir, names[i]) {
        assert names[i] in names;
      }
    }
    var ps := ParseAll(dir, names).value;
    SlugListPermutation(GenerateAllPosts(dir), ps);
    var slugs := GenerateStaticSlugs(dir);
    assert SlugList(ps) == slugs by {
      forall i | 0 <= i < |ps| ensures SlugList(ps)[i] == slugs[i] {
        assert ps[i].slug + ".md" == names[i] == slugs[i] + ".md";
        assert ps[i].slug == (ps[i].slug + ".md")[..|ps[i].slug|];
        assert slugs[i] == (slugs[i] + ".md")[..|slugs[i]|];
      }
    }
  }

  /** A name ending in `.md.md` keeps one `.md`; a name without the suffix is not listed. */
  lemma DoubleSuffixExample()
    ensures GenerateStaticSlugs(ContentDir(Some(["a.md.md", "notes.txt"]), map[])) == ["a.md"]
  {
    var names := ["a.md.md", "notes.txt"];
    var a, n := names[0], names[1];
    assert a[|a| - 3..] == ".md";
    assert n[|n| - 3..] == "txt";
    assert IsMarkdownFile(a) && !IsMarkdownFile(n);
    var tail: seq<string> := [n];
    assert MarkdownNames(tail) == [] by {
      assert |tail[1..]| == 0;
    }
    assert names[1..] == tail;
    assert MarkdownNames(names) == [a];
    assert SlugOf(a) == "a.md";
  }
}
