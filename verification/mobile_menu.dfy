/**
  The mobile navigation menu: the `active` class on the toggle button and on
  the nav element, driven by clicks (dispatched to every handler the click
  reaches) and by the Escape key.
 */
module MobileMenu {

  /** Whether each of the two elements carries the `active` class. */
  datatype Menu = Menu(toggleActive: bool, navActive: bool)

  /** Where a click lands: on the toggle button, on a nav link, elsewhere inside
      the nav, or outside both. */
  datatype Target = ToggleButton | NavLink | InsideNav | Outside

  datatype MenuEvent = Click(target: Target) | KeyDown(key: string)

  const Closed := Menu(false, false)

  /** The toggle button's handler flips both classes independently. */
  function ToggleHandler(m: Menu): (r: Menu)
    ensures r.toggleActive != m.toggleActive && r.navActive != m.navActive
  {
    Menu(!m.toggleActive, !m.navActive)
  }

  /** `nav.contains(target) || toggle.contains(target)`. */
  predicate WithinMenu(target: Target) {
    target.ToggleButton? || target.NavLink? || target.InsideNav?
  }

  /** The document-level handler: a click outside the nav and the toggle button
      clears both classes; any other click leaves them. */
  function DocumentClickHandler(m: Menu, target: Target): (r: Menu)
    ensures target.Outside? ==> r == Closed
    ensures !target.Outside? ==> r == m
  {
    if !WithinMenu(target) then Closed else m
  }

  /** A click runs the handler on its target, then bubbles to the document. */
  function ClickStep(m: Menu, target: Target): (r: Menu)
    ensures target == ToggleButton ==> r == ToggleHandler(m)
    ensures target == NavLink || target == Outside ==> r == Closed
    ensures target == InsideNav ==> r == m
  {
    var afterTarget :=
      match target
      case ToggleButton => ToggleHandler(m)
      case NavLink => Closed
      case _ => m;
    DocumentClickHandler(afterTarget, target)
  }

  /** The keydown handler: Escape clears both classes when the nav is open;
      every other key, and Escape on a closed nav, leaves them. */
  function KeyStep(m: Menu, key: string): (r: Menu)
    ensures key == "Escape" && m.navActive ==> r == Closed
    ensures key != "Escape" || !m.navActive ==> r == m
  {
    if key == "Escape" && m.navActive then Closed else m
  }

  /** One click or key. A toggle click flips the menu; on a menu whose classes
      agree, every closing event leaves it closed; any other event leaves it
      as it was. */
  function MenuStep(m: Menu, e: MenuEvent): (r: Menu)
    ensures e == Click(ToggleButton) ==> r == ToggleHandler(m)
    ensures Closes(e) && Synced(m) ==> r == Closed
    ensures !Closes(e) && e != Click(ToggleButton) ==> r == m
  {
    match e
    case Click(target) => ClickStep(m, target)
    case KeyDown(key) => KeyStep(m, key)
  }

  /** The two classes agree. */
  predicate Synced(m: Menu) {
    m.toggleActive == m.navActive
  }

  /** Every event keeps agreeing classes in agreement. */
  lemma StepKeepsSynced(m: Menu, e: MenuEvent)
    requires Synced(m)
    ensures Synced(MenuStep(m, e))
  {
  }

  function RunMenu(m: Menu, events: seq<MenuEvent>): Menu
    decreases |events|
  {
    if events == [] then m else RunMenu(MenuStep(m, events[0]), events[1..])
  }

  /** Agreement survives any sequence of clicks and keys. */
  lemma {:induction false} RunKeepsSynced(m: Menu, events: seq<MenuEvent>)
    requires Synced(m)
    ensures Synced(RunMenu(m, events))
    decreases |events|
  {
    if events != [] {
      StepKeepsSynced(m, events[0]);
      RunKeepsSynced(MenuStep(m, events[0]), events[1..]);
    }
  }

  /** Starting from the page-load state, the toggle button shows active exactly
      when the nav is open. */
  lemma FromClosedSynced(events: seq<MenuEvent>)
    ensures RunMenu(Closed, events).toggleActive == RunMenu(Closed, events).navActive
  {
    RunKeepsSynced(Closed, events);
  }

  /** Two toggle clicks restore the menu. */
  lemma ToggleTwiceIdentity(m: Menu)
    ensures ClickStep(ClickStep(m, ToggleButton), ToggleButton) == m
  {
  }

  /** Closing is idempotent, and a closed menu ignores Escape. */
  lemma CloseIdempotent(m: Menu, target: Target)
    requires target == NavLink || target == Outside
    ensures ClickStep(ClickStep(m, target), target) == ClickStep(m, target) == Closed
    ensures KeyStep(Closed, "Escape") == Closed
  {
  }

  /** Escape looks only at the nav: with the classes out of step and the nav
      closed, Escape leaves the toggle button active. */
  lemma EscapeIgnoresToggleAlone()
    ensures KeyStep(Menu(true, false), "Escape") == Menu(true, false)
  {
  }

  /** Clicks on a nav link or outside, and the Escape key, are the events that
      leave a synced menu closed. */
  predicate Closes(e: MenuEvent) {
    match e
    case Click(target) => target.NavLink? || target.Outside?
    case KeyDown(key) => key == "Escape"
  }

  /** The number of toggle clicks after the last closing event. */
  function TogglesSinceClose(events: seq<MenuEvent>): nat
    decreases |events|
  {
    if events == [] then 0
    else
      var e := events[|events| - 1];
      var before := events[..|events| - 1];
      if Closes(e) then 0
      else if e == Click(ToggleButton) then TogglesSinceClose(before) + 1
      else TogglesSinceClose(before)
  }

  lemma {:induction false} RunMenuSnoc(m: Menu, events: seq<MenuEvent>, e: MenuEvent)
    ensures RunMenu(m, events + [e]) == MenuStep(RunMenu(m, events), e)
    decreases |events|
  {
    if events != [] {
      assert (events + [e])[1..] == events[1..] + [e];
      RunMenuSnoc(MenuStep(m, events[0]), events[1..], e);
    }
  }

  /** From the page-load state the nav is open exactly when an odd number of
      toggle clicks followed the last closing event. */
  lemma {:induction false} OpenIffOddToggles(events: seq<MenuEvent>)
    ensures RunMenu(Closed, events).navActive <==> TogglesSinceClose(events) % 2 == 1
    decreases |events|
  {
    if events != [] {
      var e := events[|events| - 1];
      var before := events[..|events| - 1];
      assert events == before + [e];
      RunMenuSnoc(Closed, before, e);
      OpenIffOddToggles(before);
      RunKeepsSynced(Closed, before);
    }
  }
}
