/**
 * The mobile burger menu: the burger button and the drawer both carry the
 * `open` class, the button an `aria-expanded` attribute and the drawer an
 * `aria-hidden` attribute. The handlers exist only when both elements do.
 */
module Menu {

  /** `String(b)` for a boolean. */
  function BoolText(b: bool): string {
    if b then "true" else "false"
  }

  datatype Click = BurgerClick | LinkClick

  /** The open state after one click. */
  function Step(open: bool, c: Click): bool {
    match c
    case BurgerClick => !open
    case LinkClick => false
  }

  /** The open state after a sequence of clicks, first click first. */
  function Run(open: bool, clicks: seq<Click>): bool
    decreases clicks
  {
    if clicks == [] then open else Run(Step(open, clicks[0]), clicks[1..])
  }

  /** A further click acts on the state the earlier clicks left. */
  lemma {:induction false} RunThen(open: bool, clicks: seq<Click>, c: Click)
    ensures Run(open, clicks + [c]) == Step(Run(open, clicks), c)
    decreases clicks
  {
    if clicks != [] {
      assert (clicks + [c])[1..] == clicks[1..] + [c];
      RunThen(Step(open, clicks[0]), clicks[1..], c);
    } else {
      assert [] + [c] == [c];
    }
  }

  /** Whatever came before, a drawer-link click leaves the menu closed. */
  lemma LinkClickCloses(open: bool, clicks: seq<Click>)
    ensures !Run(open, clicks + [LinkClick])
  {
    RunThen(open, clicks, LinkClick);
  }

  /** Burger clicks alone flip the state once per click. */
  lemma {:induction false} BurgerClicksToggle(open: bool, clicks: seq<Click>)
    requires forall i :: 0 <= i < |clicks| ==> clicks[i] == BurgerClick
    ensures Run(open, clicks) == (open != (|clicks| % 2 == 1))
    decreases clicks
  {
    if clicks != [] {
      BurgerClicksToggle(!open, clicks[1..]);
    }
  }

  /** After the last drawer-link click, only the burger clicks that follow it
      count. */
  lemma RunAfterLink(open: bool, before: seq<Click>, after: seq<Click>)
    requires forall i :: 0 <= i < |after| ==> after[i] == BurgerClick
    ensures Run(open, before + [LinkClick] + after) == (|after| % 2 == 1)
  {
    RunAppend(open, before + [LinkClick], after);
    LinkClickCloses(open, before);
    BurgerClicksToggle(false, after);
  }

  lemma {:induction false} RunAppend(open: bool, xs: seq<Click>, ys: seq<Click>)
    ensures Run(open, xs + ys) == Run(Run(open, xs), ys)
    decreases xs
  {
    if xs != [] {
      assert (xs + ys)[0] == xs[0] && (xs + ys)[1..] == xs[1..] + ys;
      RunAppend(Step(open, xs[0]), xs[1..], ys);
    } else {
      assert xs + ys == ys;
    }
  }

  class Drawer {
    var burgerOpen: bool
    var drawerOpen: bool
    var ariaExpanded: string
    var ariaHidden: string

    /** Burger and drawer agree, `aria-expanded` says whether the menu is open
        and `aria-hidden` says the opposite. */
    ghost predicate Consistent()
      reads this
    {
      && drawerOpen == burgerOpen
      && ariaExpanded == BoolText(burgerOpen)
      && ariaHidden == BoolText(!burgerOpen)
    }

    /** The elements as the page's markup left them, consistent or not. */
    constructor (burgerOpen: bool, drawerOpen: bool, ariaExpanded: string, ariaHidden: string)
      ensures this.burgerOpen == burgerOpen && this.drawerOpen == drawerOpen
      ensures this.ariaExpanded == ariaExpanded && this.ariaHidden == ariaHidden
    {
      this.burgerOpen, this.drawerOpen := burgerOpen, drawerOpen;
      this.ariaExpanded, this.ariaHidden := ariaExpanded, ariaHidden;
    }

    /** The burger's click handler: toggle the burger's `open`, give the drawer
        the same state, and write both aria attributes from it. Consistency
        holds afterwards whatever the state before. */
    method OnBurgerClick()
      modifies this
      ensures Consistent()
      ensures burgerOpen == Step(old(burgerOpen), BurgerClick)
    {
      burgerOpen := !burgerOpen;
      var isOpen := burgerOpen;
      drawerOpen := isOpen;
      ariaExpanded := BoolText(isOpen);
      ariaHidden := BoolText(!isOpen);
    }

    /** A drawer link's click handler: close both and reset the attributes. */
    method OnLinkClick()
      modifies this
      ensures Consistent()
      ensures burgerOpen == Step(old(burgerOpen), LinkClick)
    {
      burgerOpen := false;
      drawerOpen := false;
      ariaExpanded := "false";
      ariaHidden := "true";
    }
  }

  /** In a consistent state the attribute texts determine the open state. */
  lemma AriaReflectsOpen(d: Drawer)
    requires d.Consistent()
    ensures d.ariaExpanded == "true" <==> d.burgerOpen
    ensures d.ariaHidden == "true" <==> !d.burgerOpen
    ensures d.drawerOpen == d.burgerOpen
  {
    assert "false" != "true" by { assert "false"[0] != "true"[0]; }
  }
}
