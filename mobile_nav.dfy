/**
 * The mobile navigation menu: `#navList` carries the class `is-open` while
 * the menu is shown, and `#navToggle` mirrors it in `aria-expanded`.
 */
module MobileNav {

  /** `String(b)` for a boolean. */
  function BoolText(b: bool): (t: string)
    ensures t == "true" <==> b
    ensures t == "false" <==> !b
  {
    if b then "true" else "false"
  }

  /** The menu's state: the `is-open` class and the `aria-expanded` attribute. */
  datatype NavState = NavState(open: bool, ariaExpanded: string)

  /** The attribute tells the truth about the class. */
  predicate Synced(s: NavState) {
    s.ariaExpanded == BoolText(s.open)
  }

  /** Where a click lands.  The toggle button is not inside the menu. */
  datatype Target = ToggleButton | MenuLink | InsideMenu | Elsewhere

  /** What the user does: a click on some target, or a key press. */
  datatype Event = Click(target: Target) | KeyDown(key: string)

  /** The toggle's listener: flip the class and mirror the new value. */
  function Toggled(s: NavState): (t: NavState)
    ensures t.open == !s.open && Synced(t)
  {
    var open := !s.open;
    NavState(open, BoolText(open))
  }

  /** `closeNav`. */
  function Closed(s: NavState): (t: NavState)
    ensures !t.open && t.ariaExpanded == "false"
  {
    NavState(false, "false")
  }

  /**
   * The effect of one user action with every listener it reaches, in the
   * order the browser runs them: the toggle's or a link's own listener, then
   * the document's click listener, which closes the menu only for clicks
   * outside both the menu and the toggle; and the document's key listener.
   */
  function Step(s: NavState, e: Event): (t: NavState)
    ensures t == s || Synced(t)
    ensures e == KeyDown("Escape") || e == Click(MenuLink) || e == Click(Elsewhere) ==> !t.open
    ensures e == Click(InsideMenu) || (e.KeyDown? && e.key != "Escape") ==> t == s
  {
    match e
    case Click(ToggleButton) => Toggled(s)
    case Click(MenuLink) => Closed(s)
    case Click(InsideMenu) => s
    case Click(Elsewhere) => Closed(s)
    case KeyDown(key) => if key == "Escape" then Closed(s) else s
  }

  /** The state after a sequence of actions. */
  function Run(s: NavState, events: seq<Event>): NavState
    decreases |events|
  {
    if events == [] then s else Run(Step(s, events[0]), events[1..])
  }

  /** `closeNav` is idempotent. */
  lemma CloseIdempotent(s: NavState)
    ensures Closed(Closed(s)) == Closed(s)
  {
  }

  /** Two clicks on the toggle give back the menu's state, with the attribute in sync. */
  lemma ToggleTwice(s: NavState)
    ensures Toggled(Toggled(s)).open == s.open && Synced(Toggled(Toggled(s)))
  {
  }

  /** Every action that changes the menu leaves the attribute in sync with the class. */
  lemma StepSyncs(s: NavState, e: Event)
    ensures Step(s, e) != s ==> Synced(Step(s, e))
    ensures Synced(s) ==> Synced(Step(s, e))
  {
  }

  /** Once in sync, the attribute stays in sync whatever the user does. */
  lemma {:induction false} RunKeepsSynced(s: NavState, events: seq<Event>)
    requires Synced(s)
    ensures Synced(Run(s, events))
    decreases |events|
  {
    if events != [] {
      StepSyncs(s, events[0]);
      RunKeepsSynced(Step(s, events[0]), events[1..]);
    }
  }

  /** Escape, a link click or an outside click always leaves the menu closed. */
  lemma {:induction false} ClosingActions(s: NavState, events: seq<Event>)
    requires events != []
    requires events[|events| - 1] in {KeyDown("Escape"), Click(MenuLink), Click(Elsewhere)}
    ensures !Run(s, events).open && Run(s, events).ariaExpanded == "false"
  {
    if |events| == 1 {
      assert Run(s, events) == Run(Step(s, events[0]), []);
    } else {
      RunKeepsLast(s, events);
    }
  }

  /** `Run` splits at its last action. */
  lemma {:induction false} RunKeepsLast(s: NavState, events: seq<Event>)
    requires events != []
    ensures Run(s, events) == Step(Run(s, events[..|events| - 1]), events[|events| - 1])
    decreases |events|
  {
    if |events| == 1 {
      assert events[..0] == [];
    } else {
      RunKeepsLast(Step(s, events[0]), events[1..]);
      assert events[1..][..|events| - 2] == events[..|events| - 1][1..];
    }
  }

  /** The two elements the listeners update in place. */
  class Nav {
    /** `#navList` has the class `is-open`. */
    var open: bool
    /** `#navToggle`'s `aria-expanded` attribute, as the markup or the last listener set it. */
    var ariaExpanded: string

    constructor (open: bool, ariaExpanded: string)
      ensures this.open == open && this.ariaExpanded == ariaExpanded
    {
      this.open, this.ariaExpanded := open, ariaExpanded;
    }

    function State(): NavState
      reads this
    {
      NavState(open, ariaExpanded)
    }

    /** `closeNav`: remove `is-open`, set `aria-expanded` to `"false"`. */
    method CloseNav()
      modifies this
      ensures !open && ariaExpanded == "false"
    {
      open := false;
      ariaExpanded := "false";
    }

    /** The toggle's click listener. */
    method OnToggleClick()
      modifies this
      ensures open == !old(open) && ariaExpanded == BoolText(open)
    {
      open := !open;
      ariaExpanded := BoolText(open);
    }

    /** The document's click listener, told whether the click is inside the menu or the toggle. */
    method OnDocumentClick(inMenu: bool, inToggle: bool)
      modifies this
      ensures !inMenu && !inToggle ==> !open && ariaExpanded == "false"
      ensures inMenu || inToggle ==> open == old(open) && ariaExpanded == old(ariaExpanded)
    {
      if !inMenu && !inToggle {
        CloseNav();
      }
    }

    /** The document's keydown listener. */
    method OnKeyDown(key: string)
      modifies this
      ensures key == "Escape" ==> !open && ariaExpanded == "false"
      ensures key != "Escape" ==> open == old(open) && ariaExpanded == old(ariaExpanded)
    {
      if key == "Escape" {
        CloseNav();
      }
    }

    /** One user action delivered to every listener it reaches, in order. */
    method Dispatch(e: Event)
      modifies this
      ensures State() == Step(old(State()), e)
    {
      match e {
        case Click(target) =>
          if target == ToggleButton {
            OnToggleClick();
          } else if target == MenuLink {
            CloseNav();
          }
          OnDocumentClick(target == MenuLink || target == InsideMenu, target == ToggleButton);
        case KeyDown(key) =>
          OnKeyDown(key);
      }
    }
  }
}
