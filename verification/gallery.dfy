/**
 * The portfolio filter: filter buttons select a category, cards are shown or
 * hidden by it, and a single "no results" placeholder appears when nothing
 * matches.
 */
module Gallery {
  import opened Wrappers

  /** The category that matches every card. */
  const All: string := "all"

  /** A `.video-card`: its `data-category` attribute and whether it is displayed. */
  datatype Card = Card(category: Option<string>, displayed: bool)

  /**
   * The filterable part of the page. `placeholders` counts the `.no-results`
   * nodes in the whole document; `gridPresent` records whether the
   * `#portfolioGrid` container exists to receive a new one.
   */
  datatype Grid = Grid(cards: seq<Card>, placeholders: nat, gridPresent: bool)

  /** A `.filter-btn`: its `data-filter` attribute and whether it carries the `active` class. */
  datatype Button = Button(filter: Option<string>, active: bool)

  datatype Page = Page(grid: Grid, buttons: seq<Button>)

  /** Whether a card with category attribute `cardCategory` is shown under the selection. */
  predicate Matches(selected: Option<string>, cardCategory: Option<string>)
  {
    selected == Some(All) || cardCategory == selected
  }

  predicate AnyMatch(cards: seq<Card>, selected: Option<string>)
  {
    exists i :: 0 <= i < |cards| && Matches(selected, cards[i].category)
  }

  /** Sets every card's visibility from the selection, keeping its category. */
  function ShowMatching(cards: seq<Card>, selected: Option<string>): (r: seq<Card>)
    ensures |r| == |cards|
    ensures forall i :: 0 <= i < |r| ==> r[i].category == cards[i].category
    ensures forall i :: 0 <= i < |r| ==> (r[i].displayed <==> Matches(selected, cards[i].category))
  {
    if |cards| == 0 then []
    else [Card(cards[0].category, Matches(selected, cards[0].category))] + ShowMatching(cards[1..], selected)
  }

  /**
   * `applyFilter(category)`: show the matching cards, then add the placeholder
   * when nothing matched and none exists yet, or remove the first one found
   * when something matched.
   */
  function ApplyFilter(g: Grid, selected: Option<string>): (r: Grid)
    ensures |r.cards| == |g.cards|
    ensures forall i :: 0 <= i < |r.cards| ==> r.cards[i].category == g.cards[i].category
    ensures forall i :: 0 <= i < |r.cards| ==>
      (r.cards[i].displayed <==> selected == Some(All) || g.cards[i].category == selected)
    ensures r.gridPresent == g.gridPresent
    ensures AnyMatch(g.cards, selected) ==> r.placeholders == if g.placeholders > 0 then g.placeholders - 1 else 0
    ensures !AnyMatch(g.cards, selected) && g.placeholders == 0 ==> r.placeholders == (if g.gridPresent then 1 else 0)
    ensures !AnyMatch(g.cards, selected) && g.placeholders > 0 ==> r.placeholders == g.placeholders
  {
    var cards := ShowMatching(g.cards, selected);
    var count :=
      if !AnyMatch(g.cards, selected) then
        (if g.placeholders == 0 && g.gridPresent then 1 else g.placeholders)
      else if g.placeholders > 0 then g.placeholders - 1
      else 0;
    Grid(cards, count, g.gridPresent)
  }

  /** Some card is displayed after the filter exactly when some card matched. */
  lemma AnyDisplayedIffMatched(g: Grid, selected: Option<string>)
    ensures (exists i :: 0 <= i < |ApplyFilter(g, selected).cards| && ApplyFilter(g, selected).cards[i].displayed)
        <==> AnyMatch(g.cards, selected)
  {
    var r := ApplyFilter(g, selected);
    if AnyMatch(g.cards, selected) {
      var i :| 0 <= i < |g.cards| && Matches(selected, g.cards[i].category);
      assert r.cards[i].displayed;
    }
  }

  /** With the grid present and at most one placeholder before, there is one afterwards exactly when no card is displayed. */
  lemma PlaceholderIffNothingShown(g: Grid, selected: Option<string>)
    requires g.gridPresent && g.placeholders <= 1
    ensures ApplyFilter(g, selected).placeholders <= 1
    ensures ApplyFilter(g, selected).placeholders == 1
        <==> forall i :: 0 <= i < |g.cards| ==> !ApplyFilter(g, selected).cards[i].displayed
  {
    var r := ApplyFilter(g, selected);
    if AnyMatch(g.cards, selected) {
      var i :| 0 <= i < |g.cards| && Matches(selected, g.cards[i].category);
      assert r.cards[i].displayed;
    }
  }

  /** However often the filter runs, there is never more than one placeholder once there is at most one. */
  lemma AtMostOnePlaceholder(g: Grid, selections: seq<Option<string>>)
    requires g.placeholders <= 1
    ensures ApplyAll(g, selections).placeholders <= 1
    decreases |selections|
  {
    if |selections| > 0 {
      AtMostOnePlaceholder(ApplyFilter(g, selections[0]), selections[1..]);
    }
  }

  /** A run of filter selections, applied in order. */
  function ApplyAll(g: Grid, selections: seq<Option<string>>): Grid
    decreases |selections|
  {
    if |selections| == 0 then g else ApplyAll(ApplyFilter(g, selections[0]), selections[1..])
  }

  /** Filtering twice by the same category is filtering once (from at most one placeholder). */
  lemma ApplyFilterIdempotent(g: Grid, selected: Option<string>)
    requires g.placeholders <= 1
    ensures ApplyFilter(ApplyFilter(g, selected), selected) == ApplyFilter(g, selected)
  {
    var once := ApplyFilter(g, selected);
    var twice := ApplyFilter(once, selected);
    assert forall i :: 0 <= i < |once.cards| ==> once.cards[i].category == g.cards[i].category;
    assert AnyMatch(once.cards, selected) == AnyMatch(g.cards, selected) by {
      if AnyMatch(g.cards, selected) {
        var i :| 0 <= i < |g.cards| && Matches(selected, g.cards[i].category);
        assert Matches(selected, once.cards[i].category);
      }
      if AnyMatch(once.cards, selected) {
        var i :| 0 <= i < |once.cards| && Matches(selected, once.cards[i].category);
        assert Matches(selected, g.cards[i].category);
      }
    }
    assert twice.cards == once.cards;
  }

  /** With two stray placeholders the filter is not idempotent: each matching run removes only one. */
  lemma TwoPlaceholdersNotIdempotent()
    ensures var g := Grid([Card(Some("gaming"), true)], 2, true);
      ApplyFilter(ApplyFilter(g, Some(All)), Some(All)) != ApplyFilter(g, Some(All))
  {
    var g := Grid([Card(Some("gaming"), true)], 2, true);
    assert Matches(Some(All), g.cards[0].category);
    assert ApplyFilter(g, Some(All)).placeholders == 1;
    assert ApplyFilter(ApplyFilter(g, Some(All)), Some(All)).placeholders == 0;
  }

  /** The number of buttons carrying the `active` class. */
  function ActiveCount(bs: seq<Button>): (n: nat)
    ensures n <= |bs|
    ensures n == 0 <==> forall i :: 0 <= i < |bs| ==> !bs[i].active
  {
    if |bs| == 0 then 0 else (if bs[0].active then 1 else 0) + ActiveCount(bs[1..])
  }

  /** Removes `active` from the first button that has it, as `querySelector('.filter-btn.active')` does. */
  function DeactivateFirst(bs: seq<Button>): (r: seq<Button>)
    ensures |r| == |bs|
    ensures forall i :: 0 <= i < |bs| ==> r[i].filter == bs[i].filter
    ensures ActiveCount(bs) > 0 ==> ActiveCount(r) == ActiveCount(bs) - 1
    ensures ActiveCount(bs) == 0 ==> r == bs
    ensures forall i :: 0 <= i < |bs| && r[i].active ==> bs[i].active
  {
    if |bs| == 0 then []
    else if bs[0].active then [bs[0].(active := false)] + bs[1..]
    else [bs[0]] + DeactivateFirst(bs[1..])
  }

  /** The button that loses `active` is the first active one in document order; nothing else changes. */
  lemma {:induction false} DeactivateFirstPicksFirst(bs: seq<Button>, k: nat)
    requires k < |bs| && bs[k].active
    requires forall j :: 0 <= j < k ==> !bs[j].active
    ensures DeactivateFirst(bs) == bs[k := bs[k].(active := false)]
    decreases k
  {
    if k == 0 {
      assert bs[0 := bs[0].(active := false)] == [bs[0].(active := false)] + bs[1..];
    } else {
      InactivePrefixShifts(bs, k);
      DeactivateFirstPicksFirst(bs[1..], k - 1);
      SkipInactiveHead(bs, k, bs[k].(active := false));
    }
  }

  lemma InactivePrefixShifts(bs: seq<Button>, k: nat)
    requires 0 < k < |bs|
    requires forall j :: 0 <= j < k ==> !bs[j].active
    ensures forall j :: 0 <= j < k - 1 ==> !bs[1..][j].active
  {
    forall j | 0 <= j < k - 1 ensures !bs[1..][j].active { assert bs[1..][j] == bs[j + 1]; }
  }

  /** Past an inactive first button, deactivation happens in the rest. */
  lemma SkipInactiveHead(bs: seq<Button>, k: nat, b: Button)
    requires 0 < k < |bs| && !bs[0].active
    requires DeactivateFirst(bs[1..]) == bs[1..][k - 1 := b]
    ensures DeactivateFirst(bs) == bs[k := b]
  {
    ConsUpdate(bs, k, b);
  }

  lemma ConsUpdate(bs: seq<Button>, k: nat, b: Button)
    requires 0 < k < |bs|
    ensures bs[k := b] == [bs[0]] + bs[1..][k - 1 := b]
  {
  }

  /** Setting the `active` class of button `k`. */
  lemma ActivateCount(bs: seq<Button>, k: nat)
    requires k < |bs|
    ensures ActiveCount(bs[k := bs[k].(active := true)]) == ActiveCount(bs) + (if bs[k].active then 0 else 1)
    decreases k
  {
    if k > 0 {
      ActivateCount(bs[1..], k - 1);
      assert bs[k := bs[k].(active := true)][1..] == bs[1..][k - 1 := bs[k].(active := true)];
    }
  }

  /** A click on filter button `k`: move the `active` class to it, then filter by its `data-filter`. */
  function ClickFilter(p: Page, k: nat): (r: Page)
    requires k < |p.buttons|
    ensures r.grid == ApplyFilter(p.grid, p.buttons[k].filter)
    ensures |r.buttons| == |p.buttons|
    ensures forall i :: 0 <= i < |p.buttons| ==> r.buttons[i].filter == p.buttons[i].filter
    ensures r.buttons[k].active
    ensures ActiveCount(p.buttons) <= 1 ==> ActiveCount(r.buttons) == 1
    ensures forall i :: 0 <= i < |p.buttons| && i != k ==> r.buttons[i] == DeactivateFirst(p.buttons)[i]
  {
    var cleared := DeactivateFirst(p.buttons);
    ActivateCount(cleared, k);
    Page(ApplyFilter(p.grid, p.buttons[k].filter), cleared[k := cleared[k].(active := true)])
  }

  /**
   * With two buttons already active, a click on a third leaves the second one
   * active: only the first active button is cleared, so two stay active.
   */
  lemma ClickKeepsLaterActive(g: Grid)
    ensures var p := Page(g, [Button(Some("a"), true), Button(Some("b"), true), Button(Some("c"), false)]);
      var r := ClickFilter(p, 2);
      !r.buttons[0].active && r.buttons[1].active && r.buttons[2].active && ActiveCount(r.buttons) == 2
  {
  }

  /** After a click on button `k` with at most one active button before, `k` is the only active button. */
  lemma ClickLeavesOnlyClickedActive(p: Page, k: nat)
    requires k < |p.buttons| && ActiveCount(p.buttons) <= 1
    ensures forall i :: 0 <= i < |p.buttons| && i != k ==> !ClickFilter(p, k).buttons[i].active
  {
    var r := ClickFilter(p, k);
    forall i | 0 <= i < |p.buttons| && i != k
      ensures !r.buttons[i].active
    {
      if r.buttons[i].active {
        OtherActiveRaisesCount(r.buttons, i, k);
      }
    }
  }

  /** Two distinct active buttons make the count at least two. */
  lemma {:induction false} OtherActiveRaisesCount(bs: seq<Button>, i: nat, k: nat)
    requires i < |bs| && k < |bs| && i != k && bs[i].active && bs[k].active
    ensures ActiveCount(bs) >= 2
    decreases |bs|
  {
    if i == 0 || k == 0 {
      var other := if i == 0 then k else i;
      assert bs[1..][other - 1].active;
    } else {
      OtherActiveRaisesCount(bs[1..], i - 1, k - 1);
    }
  }
}
