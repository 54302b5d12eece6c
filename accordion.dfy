/**
 * The FAQ accordion: a group of buttons, each followed by its panel, of
 * which a click opens one and closes all the others.
 */
module Accordion {
  import opened Wrappers

  /** Icon text of an open item, an en dash. */
  const OpenGlyph: string := "\U{2013}"

  /** Icon text of a closed item. */
  const ClosedGlyph: string := "+"

  /**
   * One `.accordion__item` button: whether its `aria-expanded` attribute is
   * `"true"`, whether its sibling panel (when there is one) has the class
   * `is-open`, and the text of its `.accordion__icon` (when there is one).
   */
  datatype Item = Item(expanded: bool, panelOpen: Option<bool>, icon: Option<string>)

  /** An item as the click handler leaves every button other than the clicked one. */
  function Collapsed(it: Item): (r: Item)
    ensures !r.expanded && Consistent(r)
    ensures (r.panelOpen.Some? <==> it.panelOpen.Some?) && (r.icon.Some? <==> it.icon.Some?)
  {
    Item(false,
         if it.panelOpen.Some? then Some(false) else None,
         if it.icon.Some? then Some(ClosedGlyph) else None)
  }

  /** The clicked item after the handler: its state flipped, panel and icon following it. */
  function Toggled(it: Item): (r: Item)
    ensures r.expanded == !it.expanded && Consistent(r)
    ensures (r.panelOpen.Some? <==> it.panelOpen.Some?) && (r.icon.Some? <==> it.icon.Some?)
  {
    var now := !it.expanded;
    Item(now,
         if it.panelOpen.Some? then Some(now) else None,
         if it.icon.Some? then Some(if now then OpenGlyph else ClosedGlyph) else None)
  }

  /** The whole group after a click on item `i`. */
  function AfterClick(s: seq<Item>, i: nat): (t: seq<Item>)
    requires i < |s|
    ensures |t| == |s|
  {
    seq(|s|, j requires 0 <= j < |s| => if j == i then Toggled(s[i]) else Collapsed(s[j]))
  }

  /** The item's panel and icon agree with its `aria-expanded` state. */
  predicate Consistent(it: Item) {
    (it.panelOpen.Some? ==> it.panelOpen.value == it.expanded) &&
    (it.icon.Some? ==> it.icon.value == if it.expanded then OpenGlyph else ClosedGlyph)
  }

  /** The number of expanded items of a group. */
  function ExpandedCount(s: seq<Item>): nat {
    if s == [] then 0 else (if s[0].expanded then 1 else 0) + ExpandedCount(s[1..])
  }

  /** A group in which no item but `i` is expanded has at most that one expanded. */
  lemma {:induction false} CountWithOnlyCandidate(s: seq<Item>, i: nat)
    requires i < |s|
    requires forall j | 0 <= j < |s| && j != i :: !s[j].expanded
    ensures ExpandedCount(s) == if s[i].expanded then 1 else 0
  {
    if i == 0 {
      NoneExpanded(s[1..]);
    } else {
      CountWithOnlyCandidate(s[1..], i - 1);
    }
  }

  /** A group with no expanded item counts zero. */
  lemma {:induction false} NoneExpanded(s: seq<Item>)
    requires forall j | 0 <= j < |s| :: !s[j].expanded
    ensures ExpandedCount(s) == 0
  {
    if s != [] {
      NoneExpanded(s[1..]);
    }
  }

  /**
   * After a click on item `i`, every other item is closed with the `+` icon
   * and a closed panel, item `i` has flipped, every item keeps whichever of
   * panel and icon it had, and every item's panel and icon agree with its
   * state.
   */
  lemma ClickEffect(s: seq<Item>, i: nat)
    requires i < |s|
    ensures var t := AfterClick(s, i);
      (forall j | 0 <= j < |s| && j != i ::
         !t[j].expanded && t[j].panelOpen != Some(true) &&
         (s[j].icon.Some? <==> t[j].icon == Some(ClosedGlyph))) &&
      t[i].expanded == !s[i].expanded &&
      (forall j | 0 <= j < |s| ::
         (t[j].panelOpen.Some? <==> s[j].panelOpen.Some?) && (t[j].icon.Some? <==> s[j].icon.Some?)) &&
      (forall j | 0 <= j < |s| :: Consistent(t[j]))
  {
  }

  /**
   * The group's invariant: after any click at most one item is expanded,
   * and exactly one when the clicked item was closed.
   */
  lemma {:induction false} AtMostOneExpanded(s: seq<Item>, i: nat)
    requires i < |s|
    ensures ExpandedCount(AfterClick(s, i)) == if s[i].expanded then 0 else 1
  {
    CountWithOnlyCandidate(AfterClick(s, i), i);
  }

  /**
   * Clicking the same item twice gives it back its state and leaves every
   * other item closed.
   */
  lemma ClickTwice(s: seq<Item>, i: nat)
    requires i < |s|
    ensures AfterClick(AfterClick(s, i), i)[i].expanded == s[i].expanded
    ensures ExpandedCount(AfterClick(AfterClick(s, i), i)) == if s[i].expanded then 1 else 0
  {
    AtMostOneExpanded(AfterClick(s, i), i);
  }

  /**
   * The click listener of item `i`: read its state, close every other item,
   * then toggle item `i`.
   */
  method Click(items: array<Item>, i: nat)
    requires i < items.Length
    modifies items
    ensures items[..] == AfterClick(old(items[..]), i)
  {
    var expanded := items[i].expanded;
    var j := 0;
    while j < items.Length
      invariant 0 <= j <= items.Length
      invariant items[i] == old(items[i])
      invariant forall k | 0 <= k < j && k != i :: items[k] == Collapsed(old(items[k]))
      invariant forall k | j <= k < items.Length :: items[k] == old(items[k])
    {
      if j != i {
        items[j] := Collapsed(items[j]);
      }
      j := j + 1;
    }
    items[i] := Item(!expanded, if items[i].panelOpen.Some? then Some(!expanded) else None,
                     if items[i].icon.Some? then Some(if expanded then ClosedGlyph else OpenGlyph) else None);
  }
}
