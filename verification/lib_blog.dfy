/**
 * The post cache of src/lib/blog.ts: `getAllPosts` fills the module-level
 * `cachedPosts` once, from the pre-generated `posts.json` when it can be
 * imported, otherwise (outside production) from the content directory.
 *
 * What a call sees of the world is an `Environment`: the result of importing
 * `posts.json` (`None` when the import throws), whether `NODE_ENV` is
 * `'production'`, and the content directory.
 */
module Blog {
  import opened Wrappers
  import opened Markdown
  import Posts

  datatype Environment = Environment(precomputed: Option<seq<BlogPost>>, production: bool, dir: Posts.ContentDir)

  /** What one call returns, and the cache it leaves behind. */
  datatype Outcome = Outcome(posts: seq<BlogPost>, cache: Option<seq<BlogPost>>)

  /**
   * One call of `getAllPosts` from cache state `cache`. Any cached array,
   * the empty one included, is truthy and is returned as it is.
   */
  function Lookup(cache: Option<seq<BlogPost>>, env: Environment): (r: Outcome)
    ensures cache.Some? ==> r == Outcome(cache.value, cache)
    ensures cache.None? && env.precomputed.Some? ==> r == Outcome(env.precomputed.value, env.precomputed)
    ensures cache.None? && env.precomputed.None? && env.production ==> r == Outcome([], None)
    ensures cache.None? && env.precomputed.None? && !env.production ==>
      r.cache == Some(r.posts) && r.posts == Posts.GenerateAllPosts(env.dir)
    ensures r.cache.Some? ==> r.posts == r.cache.value
  {
    match cache
    case Some(posts) => Outcome(posts, cache)
    case None =>
      match env.precomputed
      case Some(data) => Outcome(data, Some(data))
      case None =>
        if env.production then Outcome([], None)
        else
          var generated := Posts.GenerateAllPosts(env.dir);
          Outcome(generated, Some(generated))
  }

  /** The results of a sequence of calls, each in its own environment, starting from `cache`. */
  function Calls(cache: Option<seq<BlogPost>>, envs: seq<Environment>): (results: seq<seq<BlogPost>>)
    ensures |results| == |envs|
    decreases |envs|
  {
    if |envs| == 0 then []
    else
      var o := Lookup(cache, envs[0]);
      [o.posts] + Calls(o.cache, envs[1..])
  }

  /** Once the cache holds a value, every later call returns that value, whatever the environment. */
  lemma {:induction false} CachedValueIsFinal(posts: seq<BlogPost>, envs: seq<Environment>)
    ensures forall i :: 0 <= i < |envs| ==> Calls(Some(posts), envs)[i] == posts
    decreases |envs|
  {
    if |envs| > 0 {
      CachedValueIsFinal(posts, envs[1..]);
      assert Calls(Some(posts), envs) == [posts] + Calls(Some(posts), envs[1..]);
    }
  }

  /** From an empty cache, a first call that is not a production miss decides every later result. */
  lemma FirstLoadIsFinal(envs: seq<Environment>)
    requires |envs| > 0
    requires envs[0].precomputed.Some? || !envs[0].production
    ensures forall i :: 0 <= i < |envs| ==> Calls(None, envs)[i] == Calls(None, envs)[0]
  {
    var o := Lookup(None, envs[0]);
    CachedValueIsFinal(o.posts, envs[1..]);
    assert Calls(None, envs) == [o.posts] + Calls(Some(o.posts), envs[1..]);
  }

  /**
   * From an empty cache, the first call that is not a production miss decides
   * every later result, however many production misses, each answering `[]`,
   * came before it.
   */
  lemma {:induction false} FirstLoadAfterMisses(envs: seq<Environment>, k: nat)
    requires k < |envs|
    requires forall j :: 0 <= j < k ==> envs[j].precomputed.None? && envs[j].production
    requires envs[k].precomputed.Some? || !envs[k].production
    ensures forall j :: 0 <= j < k ==> Calls(None, envs)[j] == []
    ensures forall i :: k <= i < |envs| ==> Calls(None, envs)[i] == Calls(None, envs)[k]
    decreases k
  {
    if k == 0 {
      FirstLoadIsFinal(envs);
    } else {
      FirstLoadAfterMisses(envs[1..], k - 1);
      assert Calls(None, envs) == [[]] + Calls(None, envs[1..]);
    }
  }

  /** A failed production load answers `[]` and caches nothing, so the next call tries again. */
  lemma ProductionMissRetries(first: Environment, later: Environment)
    requires first.precomputed.None? && first.production
    ensures Calls(None, [first, later]) == [[], Lookup(None, later).posts]
  {
    assert [first, later][1..] == [later];
  }

  class PostCache {
    /** `cachedPosts`: `None` is JavaScript's `null`. */
    var cachedPosts: Option<seq<BlogPost>>

    constructor ()
      ensures cachedPosts == None
    {
      cachedPosts := None;
    }

    /** `getAllPosts()`. */
    method GetAllPosts(env: Environment) returns (posts: seq<BlogPost>)
      modifies this
      ensures Outcome(posts, cachedPosts) == Lookup(old(cachedPosts), env)
      ensures old(cachedPosts).Some? ==> cachedPosts == old(cachedPosts)
    {
      if cachedPosts.Some? {
        return cachedPosts.value;
      }
      match env.precomputed {
        case Some(data) =>
          cachedPosts := Some(data);
          return data;
        case None =>
          if env.production {
            return [];
          }
          var generated := Posts.GenerateAllPosts(env.dir);
          cachedPosts := Some(generated);
          return generated;
      }
    }
  }

  /** Two calls on one cache: the second returns what the first did, unless the first was a production miss. */
  method TwoCalls(first: Environment, second: Environment) returns (a: seq<BlogPost>, b: seq<BlogPost>)
    ensures first.precomputed.Some? || !first.production ==> a == b
    ensures first.precomputed.None? && first.production ==> a == []
  {
    var cache := new PostCache();
    a := cache.GetAllPosts(first);
    b := cache.GetAllPosts(second);
  }
}
