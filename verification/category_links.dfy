/**
 * The category buttons of the home page (src/components/CategoryLinks.tsx):
 * a click adds the lowercased category to the comma-separated `tags` query
 * parameter unless it is already there.
 */
module CategoryLinks {
  import opened Wrappers
  import opened Text
  import opened Sequences

  /** The buttons, in display order. */
  const Categories: seq<string> := [
    "RAG", "Voice", "Personal Development", "Synthetic Data", "LLM",
    "Applied AI", "Evals", "MCP", "Agents"
  ]

  const TagsKey: string := "tags"

  /** The decoded query parameters of the page URL. */
  type Query = map<string, string>

  function Param(query: Query, key: string): (v: Option<string>)
    ensures v.Some? <==> key in query
    ensures v.Some? ==> v.value == query[key]
  {
    if key in query then Some(query[key]) else None
  }

  /** The tags in a `tags` value: its comma-separated pieces without the empty ones. */
  function CurrentTags(param: Option<string>): (tags: seq<string>)
    ensures param.None? ==> tags == []
    ensures forall i :: 0 <= i < |tags| ==> tags[i] != "" && ',' !in tags[i]
    ensures param.Some? ==> IsSubsequence(tags, Split(param.value, ','))
    ensures param.Some? ==> forall t :: t != "" ==> multiset(tags)[t] == multiset(Split(param.value, ','))[t]
  {
    match param
    case None => []
    case Some(v) =>
      FilterCounts(Split(v, ','), t => t != "");
      FilterIsSubsequence(Split(v, ','), t => t != "");
      var tags := Filter(Split(v, ','), t => t != "");
      assert forall i :: 0 <= i < |tags| ==> tags[i] in Split(v, ',');
      tags
  }

  /** A value written from well-formed tags reads back as those tags. */
  lemma CurrentTagsOfJoin(tags: seq<string>)
    requires forall i :: 0 <= i < |tags| ==> tags[i] != "" && ',' !in tags[i]
    ensures CurrentTags(Some(Join(tags, ","))) == tags
  {
    if |tags| == 0 {
      assert Split(Join(tags, ","), ',') == [""];
    } else {
      assert "," == [','];
      SplitJoin(tags, ',');
      FilterAll(tags, t => t != "");
    }
  }

  /** The query after a click on `category`; only the `tags` parameter can change. */
  function HandleCategoryClick(query: Query, category: string): (r: Query)
    ensures forall k :: k != TagsKey ==> (k in r <==> k in query)
    ensures forall k :: k != TagsKey && k in r ==> r[k] == query[k]
    ensures Lower(category) in CurrentTags(Param(query, TagsKey)) ==> r == query
    ensures Lower(category) !in CurrentTags(Param(query, TagsKey)) ==>
      TagsKey in r && r[TagsKey] == Join(CurrentTags(Param(query, TagsKey)) + [Lower(category)], ",")
  {
    var current := CurrentTags(Param(query, TagsKey));
    var tag := Lower(category);
    if tag !in current then query[TagsKey := Join(current + [tag], ",")] else query
  }

  /** Lowercasing keeps a tag non-empty and free of commas. */
  lemma LowerKeepsTagShape(category: string)
    requires category != "" && ',' !in category
    ensures Lower(category) != "" && ',' !in Lower(category)
  {
    forall i | 0 <= i < |category|
      ensures Lower(category)[i] != ','
    {
      assert category[i] != ',';
    }
  }

  /** After a click the lowercased category is among the tags, after the tags that were there. */
  lemma ClickSelectsCategory(query: Query, category: string)
    requires category != "" && ',' !in category
    ensures var before := CurrentTags(Param(query, TagsKey));
            var after := CurrentTags(Param(HandleCategoryClick(query, category), TagsKey));
            Lower(category) in after &&
            (Lower(category) !in before ==> after == before + [Lower(category)])
  {
    var before := CurrentTags(Param(query, TagsKey));
    var tag := Lower(category);
    if tag !in before {
      LowerKeepsTagShape(category);
      CurrentTagsOfJoin(before + [tag]);
    }
  }

  /** A second click on the same category changes nothing. */
  lemma ClickTwiceIsClickOnce(query: Query, category: string)
    requires category != "" && ',' !in category
    ensures HandleCategoryClick(HandleCategoryClick(query, category), category) == HandleCategoryClick(query, category)
  {
    ClickSelectsCategory(query, category);
  }

  /** Every button's category satisfies the lemmas above. */
  lemma CategoriesAreTags(i: int)
    requires 0 <= i < |Categories|
    ensures Categories[i] != "" && ',' !in Categories[i]
  {
  }
}
