/**
 * The helpers of the post page (src/components/blog-post.tsx): the table of
 * contents built from the rendered headings, the scan that picks the heading
 * being read, the indicator widths, and the "Written N days ago" label.
 */
module BlogPostView {
  import opened Wrappers
  import opened Text
  import opened Sequences

  /** An `h2` or `h3` element of the rendered post. */
  datatype Heading = Heading(tagName: string, textContent: Option<string>)

  /** A table of contents entry; `level` is `None` where `parseInt` gives NaN. */
  datatype TocItem = TocItem(id: string, text: string, level: Option<int>)

  /** `parseInt(tagName.charAt(1))`: the digit after the tag letter. */
  function LevelOf(tagName: string): (level: Option<int>)
    ensures level.Some? <==> |tagName| >= 2 && '0' <= tagName[1] <= '9'
    ensures level.Some? ==> 0 <= level.value <= 9 && level.value == tagName[1] as int - '0' as int
  {
    if |tagName| >= 2 && '0' <= tagName[1] <= '9' then Some(tagName[1] as int - '0' as int) else None
  }

  lemma HeadingLevels()
    ensures LevelOf("H2") == Some(2) && LevelOf("H3") == Some(3)
  {
  }

  /**
   * The effect that collects the headings, in document order. `ids[i]` is the
   * id the slugger gives the i-th heading's text.
   */
  method BuildTocItems(headings: seq<Heading>, ids: seq<string>) returns (items: seq<TocItem>)
    requires |ids| == |headings|
    ensures |items| == |headings|
    ensures forall i :: 0 <= i < |items| ==>
      items[i] == TocItem(ids[i], headings[i].textContent.GetOr(""), LevelOf(headings[i].tagName))
  {
    items := [];
    for i := 0 to |headings|
      invariant |items| == i
      invariant forall j :: 0 <= j < i ==>
        items[j] == TocItem(ids[j], headings[j].textContent.GetOr(""), LevelOf(headings[j].tagName))
    {
      var text := headings[i].textContent.GetOr("");
      var level := LevelOf(headings[i].tagName);
      items := items + [TocItem(ids[i], text, level)];
    }
  }

  /** The width class of an entry's indicator while the list is hovered. */
  function LineLength(level: Option<int>): (width: string)
    ensures level == Some(2) <==> width == "w-8"
    ensures level == Some(3) <==> width == "w-6"
    ensures level != Some(2) && level != Some(3) <==> width == "w-4"
  {
    if level == Some(2) then "w-8" else if level == Some(3) then "w-6" else "w-4"
  }

  /** A heading whose element exists, with the element's `offsetTop`. */
  datatype Located = Located(id: string, offsetTop: int)

  /**
   * The entries whose id names an element of the page, in order; `offsets`
   * maps each element id of the page to the element's `offsetTop`.
   */
  function LocatedHeadings(items: seq<TocItem>, offsets: map<string, int>): (hs: seq<Located>)
    ensures |hs| <= |items|
    ensures forall h :: h in hs ==> h.id in offsets && h.offsetTop == offsets[h.id]
    ensures forall h :: h in hs ==> exists i :: 0 <= i < |items| && items[i].id == h.id
    ensures forall i :: 0 <= i < |items| && items[i].id in offsets ==> Located(items[i].id, offsets[items[i].id]) in hs
    decreases |items|
  {
    if |items| == 0 then []
    else
      var rest := LocatedHeadings(items[1..], offsets);
      assert forall h :: h in rest ==> exists i :: 0 <= i < |items| && items[i].id == h.id by {
        forall h | h in rest ensures exists i :: 0 <= i < |items| && items[i].id == h.id {
          var i :| 0 <= i < |items[1..]| && items[1..][i].id == h.id;
          assert items[i + 1].id == h.id;
        }
      }
      var id := items[0].id;
      if id in offsets then [Located(id, offsets[id])] + rest else rest
  }

  /** The located headings keep the order and the repeats of the entries whose element exists. */
  lemma {:induction false} LocatedHeadingsOrder(items: seq<TocItem>, offsets: map<string, int>)
    ensures Map(LocatedHeadings(items, offsets), (h: Located) => h.id)
         == Map(Filter(items, (it: TocItem) => it.id in offsets), (it: TocItem) => it.id)
    decreases |items|
  {
    if |items| > 0 {
      LocatedHeadingsOrder(items[1..], offsets);
      var rest := LocatedHeadings(items[1..], offsets);
      var kept := Filter(items[1..], (it: TocItem) => it.id in offsets);
      if items[0].id in offsets {
        var h := Located(items[0].id, offsets[items[0].id]);
        assert LocatedHeadings(items, offsets) == [h] + rest;
        assert Filter(items, (it: TocItem) => it.id in offsets) == [items[0]] + kept;
        MapCons(h, rest, (h: Located) => h.id);
        MapCons(items[0], kept, (it: TocItem) => it.id);
      } else {
        assert LocatedHeadings(items, offsets) == rest;
        assert Filter(items, (it: TocItem) => it.id in offsets) == kept;
      }
    }
  }

  /**
   * The heading being read: the last one at or above `threshold`, or the
   * first one when none is.
   */
  function ActiveIndex(hs: seq<Located>, threshold: int): (k: nat)
    requires |hs| > 0
    ensures k < |hs|
    ensures forall j :: k < j < |hs| ==> hs[j].offsetTop > threshold
    ensures hs[k].offsetTop <= threshold || (k == 0 && forall j :: 0 <= j < |hs| ==> hs[j].offsetTop > threshold)
    decreases |hs|
  {
    if |hs| == 1 then 0
    else if hs[|hs| - 1].offsetTop <= threshold then |hs| - 1
    else ActiveIndex(hs[..|hs| - 1], threshold)
  }

  /** The heading that the characterisation of `ActiveIndex` singles out is `ActiveIndex`. */
  lemma ActiveIndexIs(hs: seq<Located>, threshold: int, k: nat)
    requires k < |hs|
    requires forall j :: k < j < |hs| ==> hs[j].offsetTop > threshold
    requires hs[k].offsetTop <= threshold || (k == 0 && forall j :: 0 <= j < |hs| ==> hs[j].offsetTop > threshold)
    ensures ActiveIndex(hs, threshold) == k
  {
  }

  /** The backward scan of `updateActiveHeading`: the last heading at or above `threshold`, else the first. */
  method LastAtOrAbove(hs: seq<Located>, threshold: int) returns (active: Located)
    requires |hs| > 0
    ensures active == hs[ActiveIndex(hs, threshold)]
  {
    active := hs[0];
    var i := |hs| - 1;
    while i >= 0
      invariant -1 <= i < |hs|
      invariant forall j :: i < j < |hs| ==> hs[j].offsetTop > threshold
      invariant active == hs[0]
    {
      if hs[i].offsetTop <= threshold {
        active := hs[i];
        ActiveIndexIs(hs, threshold, i);
        break;
      }
      i := i - 1;
    }
    if i < 0 {
      ActiveIndexIs(hs, threshold, 0);
    }
  }

  /**
   * `updateActiveHeading`: the id of the heading being read, at 100 pixels
   * below the scroll position; the current id when no heading is on the page.
   */
  method UpdateActiveHeading(items: seq<TocItem>, offsets: map<string, int>, scrollY: int, activeId: string)
    returns (newActiveId: string)
    ensures var hs := LocatedHeadings(items, offsets);
      && (|hs| == 0 ==> newActiveId == activeId)
      && (|hs| > 0 ==> newActiveId == hs[ActiveIndex(hs, scrollY + 100)].id)
  {
    var hs := LocatedHeadings(items, offsets);
    if |hs| == 0 {
      return activeId;
    }
    var active := LastAtOrAbove(hs, scrollY + 100);
    newActiveId := active.id;
  }

  /** The heading chosen is an entry of the table of contents. */
  lemma ActiveHeadingIsListed(items: seq<TocItem>, offsets: map<string, int>, threshold: int)
    requires |LocatedHeadings(items, offsets)| > 0
    ensures var hs := LocatedHeadings(items, offsets);
      exists i :: 0 <= i < |items| && items[i].id == hs[ActiveIndex(hs, threshold)].id
  {
    var hs := LocatedHeadings(items, offsets);
    assert hs[ActiveIndex(hs, threshold)] in hs;
  }

  /** One link of the table of contents. */
  datatype TocRow = TocRow(href: string, active: bool, line: string)

  /** `TableOfContents`: nothing when there are no entries. */
  function TocRows(items: seq<TocItem>, activeId: string, hovered: bool): (rows: Option<seq<TocRow>>)
    ensures rows.None? <==> |items| == 0
    ensures rows.Some? ==> |rows.value| == |items| && forall i :: 0 <= i < |items| ==>
      && rows.value[i].href == "#" + items[i].id
      && (rows.value[i].active <==> items[i].id == activeId)
      && rows.value[i].line == (if hovered then LineLength(items[i].level) else "w-4")
  {
    if |items| == 0 then None
    else Some(seq(|items|, i requires 0 <= i < |items| =>
      TocRow("#" + items[i].id, items[i].id == activeId, if hovered then LineLength(items[i].level) else "w-4")))
  }

  /** With distinct ids, at most one entry is highlighted. */
  lemma AtMostOneActiveRow(items: seq<TocItem>, activeId: string, hovered: bool, i: int, j: int)
    requires forall a, b :: 0 <= a < b < |items| ==> items[a].id != items[b].id
    requires TocRows(items, activeId, hovered).Some?
    requires 0 <= i < |items| && 0 <= j < |items|
    requires TocRows(items, activeId, hovered).value[i].active && TocRows(items, activeId, hovered).value[j].active
    ensures i == j
  {
  }

  /** How long ago a post was written, in the unit the label uses. */
  datatype Age = Days(n: nat) | Months(n: nat) | Years(n: nat)

  /** The bucket of a day difference: days below 30, months below 365, years after. */
  function AgeOf(diffDays: nat): (a: Age)
    ensures diffDays < 30 ==> a == Days(diffDays)
    ensures 30 <= diffDays < 365 ==> a.Months? && 1 <= a.n <= 12 && a.n * 30 <= diffDays < (a.n + 1) * 30
    ensures 365 <= diffDays ==> a.Years? && a.n >= 1 && a.n * 365 <= diffDays < (a.n + 1) * 365
  {
    if diffDays < 30 then Days(diffDays)
    else if diffDays < 365 then Months(diffDays / 30)
    else Years(diffDays / 365)
  }

  function UnitName(a: Age): string {
    match a
    case Days(_) => "day"
    case Months(_) => "month"
    case Years(_) => "year"
  }

  /** "Written N unit(s) ago". */
  function AgeLabel(diffDays: nat): (caption: string)
    ensures StartsWith(caption, "Written ") && EndsWith(caption, " ago")
  {
    var a := AgeOf(diffDays);
    "Written " + Decimal(a.n) + " " + UnitName(a) + (if a.n == 1 then "" else "s") + " ago"
  }

  /** The unit is plural unless the count is exactly one. */
  lemma AgeLabelPlural(diffDays: nat)
    ensures EndsWith(AgeLabel(diffDays), "s ago") <==> AgeOf(diffDays).n != 1
  {
    var a := AgeOf(diffDays);
    var caption := AgeLabel(diffDays);
    var stem := "Written " + Decimal(a.n) + " " + UnitName(a);
    if a.n == 1 {
      assert caption == stem + "" + " ago";
      assert caption[|caption| - 5] == stem[|stem| - 1];
      assert UnitName(a)[|UnitName(a)| - 1] != 's';
    } else {
      assert caption == stem + "s" + " ago";
      assert caption[|caption| - 5..] == "s ago";
    }
  }

  /** The number in the label reads back as the count. */
  lemma AgeLabelNumber(diffDays: nat)
    ensures var digits := Decimal(AgeOf(diffDays).n);
      AgeLabel(diffDays)[8..8 + |digits|] == digits && DecimalValue(digits) == AgeOf(diffDays).n
  {
    DecimalRoundTrip(AgeOf(diffDays).n);
  }

  /** After the number comes the unit of the age's bucket, plural unless the count is one, then " ago". */
  lemma AgeLabelUnit(diffDays: nat)
    ensures var a := AgeOf(diffDays);
      var unit := if diffDays < 30 then "day" else if diffDays < 365 then "month" else "year";
      AgeLabel(diffDays)[8 + |Decimal(a.n)|..] == " " + unit + (if a.n == 1 then "" else "s") + " ago"
  {
    var a := AgeOf(diffDays);
    var tail := " " + UnitName(a) + (if a.n == 1 then "" else "s") + " ago";
    assert AgeLabel(diffDays) == "Written " + Decimal(a.n) + tail;
  }
}
