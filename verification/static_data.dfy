/**
 * The build-time generator `main` of scripts/generate-static-data.js. It
 * writes into the output directory `src/data`: `posts.json` with the full
 * post list, one `posts/<slug>.json` per listed slug whose file loads, and a
 * verbatim copy of `content/series.json` when that file can be read.
 *
 * The script's own copies of `parseMarkdown`, `generateAllPosts`,
 * `generatePost` and `generateStaticSlugs` are the library functions of
 * module Posts. The output directory is a map from paths (relative to
 * `src/data`) to what was written there; a written artifact is the value
 * that `JSON.stringify` serialises, or the copied text.
 */
module StaticData {
  import opened Wrappers
  import opened Text
  import opened Markdown
  import opened Posts

  datatype Artifact = PostList(posts: seq<BlogPost>) | SinglePost(post: BlogPost) | Verbatim(text: string)

  type OutputDir = map<string, Artifact>

  const PostsFile: string := "posts.json"
  const SeriesFile: string := "series.json"

  /** `join(postsDir, `${slug}.json`)`, relative to the output directory. */
  function PostPath(slug: string): string {
    "posts/" + slug + ".json"
  }

  predicate IsPostPath(path: string) {
    |path| >= 11 && StartsWith(path, "posts/") && EndsWith(path, ".json")
  }

  /** The slug a per-post path was written for. */
  function SlugOfPath(path: string): (slug: string)
    requires IsPostPath(path)
    ensures PostPath(slug) == path
  {
    path[6..|path| - 5]
  }

  lemma PostPathInverse(slug: string)
    ensures IsPostPath(PostPath(slug)) && SlugOfPath(PostPath(slug)) == slug
  {
    var p := PostPath(slug);
    assert p[..6] == "posts/";
    assert p[|p| - 5..] == ".json";
    assert p[6..|p| - 5] == slug;
  }

  /** `posts.json` and `series.json` are never per-post paths. */
  lemma FixedFilesAreNotPostPaths()
    ensures !IsPostPath(PostsFile) && !IsPostPath(SeriesFile)
  {
    assert PostsFile[..6] != "posts/" by {
      assert PostsFile[5] == '.';
    }
    assert SeriesFile[..6] != "posts/" by {
      assert SeriesFile[0] == 's';
    }
  }

  /** One iteration of the per-slug loop: write `posts/<slug>.json` iff `generatePost(slug)` is non-null. */
  function WriteSlug(dir: ContentDir, out: OutputDir, slug: string): OutputDir {
    match GeneratePost(dir, slug)
    case Some(post) => out[PostPath(slug) := SinglePost(post)]
    case None => out
  }

  /** The per-slug loop run over `slugs`, in order, from output `out`. */
  function WriteSlugs(dir: ContentDir, slugs: seq<string>, out: OutputDir): OutputDir
    decreases |slugs|
  {
    if |slugs| == 0 then out
    else WriteSlug(dir, WriteSlugs(dir, slugs[..|slugs| - 1], out), slugs[|slugs| - 1])
  }

  /** `path` is the per-post path of a slug in `slugs` whose post loads. */
  predicate WrittenForSlug(dir: ContentDir, slugs: seq<string>, path: string) {
    IsPostPath(path) && SlugOfPath(path) in slugs && GeneratePost(dir, SlugOfPath(path)).Some?
  }

  /** One more iteration of the loop writes the next slug. */
  lemma WriteSlugsStep(dir: ContentDir, slugs: seq<string>, i: nat, out: OutputDir)
    requires i < |slugs|
    ensures WriteSlugs(dir, slugs[..i + 1], out) == WriteSlug(dir, WriteSlugs(dir, slugs[..i], out), slugs[i])
  {
    assert slugs[..i + 1][..i] == slugs[..i];
  }

  /** What the per-slug loop leaves at any path: the loaded post for a written path, the old entry elsewhere. */
  lemma {:induction false} WriteSlugsAt(dir: ContentDir, slugs: seq<string>, out: OutputDir, path: string)
    ensures path in WriteSlugs(dir, slugs, out) <==> path in out || WrittenForSlug(dir, slugs, path)
    ensures WrittenForSlug(dir, slugs, path) ==>
      WriteSlugs(dir, slugs, out)[path] == SinglePost(GeneratePost(dir, SlugOfPath(path)).value)
    ensures !WrittenForSlug(dir, slugs, path) && path in out ==> WriteSlugs(dir, slugs, out)[path] == out[path]
    decreases |slugs|
  {
    if |slugs| > 0 {
      var init, last := slugs[..|slugs| - 1], slugs[|slugs| - 1];
      WriteSlugsAt(dir, init, out, path);
      assert slugs == init + [last];
      PostPathInverse(last);
      if IsPostPath(path) {
        assert SlugOfPath(path) in slugs <==> SlugOfPath(path) in init || SlugOfPath(path) == last;
        assert path == PostPath(last) <==> SlugOfPath(path) == last;
      }
    }
  }

  /** The writes of one run, given the post list and the slug list the run computed. */
  function WriteAll(dir: ContentDir, posts: seq<BlogPost>, slugs: seq<string>, seriesSource: Option<string>, out: OutputDir): OutputDir {
    var withList := out[PostsFile := PostList(posts)];
    var withPosts := WriteSlugs(dir, slugs, withList);
    match seriesSource
    case Some(text) => withPosts[SeriesFile := Verbatim(text)]
    case None => withPosts
  }

  /** The whole effect of one run of the generator on output directory `out`. */
  function Generate(dir: ContentDir, seriesSource: Option<string>, out: OutputDir): OutputDir {
    WriteAll(dir, GenerateAllPosts(dir), GenerateStaticSlugs(dir), seriesSource, out)
  }

  /** The writing half of `main()`: `posts.json`, then the per-slug files one by one, then `series.json`. */
  method WriteOutputs(dir: ContentDir, posts: seq<BlogPost>, slugs: seq<string>, seriesSource: Option<string>, out0: OutputDir)
    returns (out: OutputDir)
    ensures out == WriteAll(dir, posts, slugs, seriesSource, out0)
  {
    out := out0[PostsFile := PostList(posts)];
    ghost var withList := out;
    for i := 0 to |slugs|
      invariant out == WriteSlugs(dir, slugs[..i], withList)
    {
      WriteSlugsStep(dir, slugs, i, withList);
      var post := GeneratePost(dir, slugs[i]);
      if post.Some? {
        out := out[PostPath(slugs[i]) := SinglePost(post.value)];
      }
    }
    assert slugs[..|slugs|] == slugs;
    if seriesSource.Some? {
      out := out[SeriesFile := Verbatim(seriesSource.value)];
    }
  }

  /** `main()`: load the post list and the slug list, then write everything. */
  method GenerateStaticData(dir: ContentDir, seriesSource: Option<string>, out0: OutputDir) returns (out: OutputDir)
    ensures out == Generate(dir, seriesSource, out0)
  {
    var posts := GenerateAllPosts(dir);
    var slugs := GenerateStaticSlugs(dir);
    out := WriteOutputs(dir, posts, slugs, seriesSource, out0);
  }

  /** `posts.json` holds exactly the full post list, even when that list is the `[]` of a failure. */
  lemma GeneratedPostList(dir: ContentDir, seriesSource: Option<string>, out: OutputDir)
    ensures var result := Generate(dir, seriesSource, out);
      PostsFile in result && result[PostsFile] == PostList(GenerateAllPosts(dir))
  {
    var withList := out[PostsFile := PostList(GenerateAllPosts(dir))];
    FixedFilesAreNotPostPaths();
    WriteSlugsAt(dir, GenerateStaticSlugs(dir), withList, PostsFile);
  }

  /**
   * `posts/<slug>.json` is written, with that slug's post, iff the slug is
   * listed and its file loads; a slug that does not load is skipped and a
   * file left by an earlier run stays.
   */
  lemma GeneratedPostFiles(dir: ContentDir, seriesSource: Option<string>, out: OutputDir, slug: string)
    ensures var result := Generate(dir, seriesSource, out);
      && (slug in GenerateStaticSlugs(dir) && GeneratePost(dir, slug).Some? ==>
            PostPath(slug) in result && result[PostPath(slug)] == SinglePost(GeneratePost(dir, slug).value))
      && (!(slug in GenerateStaticSlugs(dir) && GeneratePost(dir, slug).Some?) ==>
            (PostPath(slug) in result <==> PostPath(slug) in out)
            && (PostPath(slug) in out ==> result[PostPath(slug)] == out[PostPath(slug)]))
  {
    var withList := out[PostsFile := PostList(GenerateAllPosts(dir))];
    FixedFilesAreNotPostPaths();
    PostPathInverse(slug);
    WriteSlugsAt(dir, GenerateStaticSlugs(dir), withList, PostPath(slug));
  }

  /** `series.json` is the verbatim source when it is readable; otherwise it is left as it was. */
  lemma GeneratedSeriesFile(dir: ContentDir, seriesSource: Option<string>, out: OutputDir)
    ensures var result := Generate(dir, seriesSource, out);
      && (seriesSource.Some? ==> SeriesFile in result && result[SeriesFile] == Verbatim(seriesSource.value))
      && (seriesSource.None? ==> (SeriesFile in result <==> SeriesFile in out))
      && (seriesSource.None? && SeriesFile in out ==> result[SeriesFile] == out[SeriesFile])
  {
    var withList := out[PostsFile := PostList(GenerateAllPosts(dir))];
    FixedFilesAreNotPostPaths();
    WriteSlugsAt(dir, GenerateStaticSlugs(dir), withList, SeriesFile);
  }

  /** Nothing is deleted, and any other path keeps its old content. */
  lemma OtherPathsUntouched(dir: ContentDir, seriesSource: Option<string>, out: OutputDir, path: string)
    requires path != PostsFile && path != SeriesFile && !IsPostPath(path)
    ensures var result := Generate(dir, seriesSource, out);
      (path in result <==> path in out) && (path in out ==> result[path] == out[path])
  {
    var withList := out[PostsFile := PostList(GenerateAllPosts(dir))];
    WriteSlugsAt(dir, GenerateStaticSlugs(dir), withList, path);
  }

  /** Writing the same lists twice gives what writing them once does. */
  lemma WriteAllIdempotent(dir: ContentDir, posts: seq<BlogPost>, slugs: seq<string>, seriesSource: Option<string>, out: OutputDir)
    ensures WriteAll(dir, posts, slugs, seriesSource, WriteAll(dir, posts, slugs, seriesSource, out))
         == WriteAll(dir, posts, slugs, seriesSource, out)
  {
    var once := WriteAll(dir, posts, slugs, seriesSource, out);
    var twice := WriteAll(dir, posts, slugs, seriesSource, once);
    var w1 := out[PostsFile := PostList(posts)];
    var w2 := once[PostsFile := PostList(posts)];
    FixedFilesAreNotPostPaths();
    forall path
      ensures (path in twice <==> path in once) && (path in once ==> twice[path] == once[path])
    {
      WriteSlugsAt(dir, slugs, w1, path);
      WriteSlugsAt(dir, slugs, w2, path);
    }
    assert twice.Keys == once.Keys;
  }

  /** A second run over the same sources writes nothing new: the generator is idempotent. */
  lemma GenerateIdempotent(dir: ContentDir, seriesSource: Option<string>, out: OutputDir)
    ensures Generate(dir, seriesSource, Generate(dir, seriesSource, out)) == Generate(dir, seriesSource, out)
  {
    WriteAllIdempotent(dir, GenerateAllPosts(dir), GenerateStaticSlugs(dir), seriesSource, out);
  }
}
