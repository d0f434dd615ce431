/**
 * Navigation state: the navbar's 'scrolled' class, and the 'active' class
 * on the mobile-menu button and on the link list, which the menu toggles together.
 */
module Navigation {
  import opened Wrappers

  /** Scroll positions past this many pixels count as scrolled; there is no hysteresis. */
  const ScrollThreshold: real := 50.0

  datatype NavFlags = NavFlags(scrolled: bool, linksActive: bool, buttonActive: bool)

  datatype NavEvent = Scroll(scrollY: real) | MenuButtonClick | NavLinkClick

  /** The flags after one handled event. */
  function Step(f: NavFlags, e: NavEvent): (r: NavFlags)
    ensures e.Scroll? ==> r.scrolled == (e.scrollY > ScrollThreshold)
    ensures !e.Scroll? ==> r.scrolled == f.scrolled
    ensures e.Scroll? ==> r.linksActive == f.linksActive && r.buttonActive == f.buttonActive
    ensures e == MenuButtonClick ==> r.linksActive != f.linksActive && r.buttonActive != f.buttonActive
    ensures e == NavLinkClick ==> !r.linksActive && !r.buttonActive
    ensures f.linksActive == f.buttonActive ==> r.linksActive == r.buttonActive
  {
    match e
    case Scroll(y) => f.(scrolled := y > ScrollThreshold)
    case MenuButtonClick => f.(linksActive := !f.linksActive, buttonActive := !f.buttonActive)
    case NavLinkClick => f.(linksActive := false, buttonActive := false)
  }

  /** The flags after a sequence of events, in order. */
  function Run(f: NavFlags, es: seq<NavEvent>): (r: NavFlags)
    decreases |es|
  {
    if es == [] then f else Run(Step(f, es[0]), es[1..])
  }

  /** Scroll position of the latest scroll event, None when there is none. */
  function LastScroll(es: seq<NavEvent>): (r: Option<real>)
    ensures r.Some? <==> exists k :: 0 <= k < |es| && es[k].Scroll?
    decreases |es|
  {
    if es == [] then None
    else if es[|es| - 1].Scroll? then Some(es[|es| - 1].scrollY)
    else LastScroll(es[..|es| - 1])
  }

  lemma {:induction false} RunAppend(f: NavFlags, es: seq<NavEvent>, e: NavEvent)
    ensures Run(f, es + [e]) == Step(Run(f, es), e)
    decreases |es|
  {
    if es != [] {
      assert (es + [e])[1..] == es[1..] + [e];
      RunAppend(Step(f, es[0]), es[1..], e);
    }
  }

  /**
   * After any sequence of events the navbar is 'scrolled' exactly when the
   * latest scroll position exceeds the threshold; with no scroll event it keeps its flag.
   */
  lemma {:induction false} ScrolledFollowsLastScroll(f: NavFlags, es: seq<NavEvent>)
    ensures Run(f, es).scrolled == match LastScroll(es)
                                   case None => f.scrolled
                                   case Some(y) => y > ScrollThreshold
    decreases |es|
  {
    if es != [] {
      var init, last := es[..|es| - 1], es[|es| - 1];
      assert es == init + [last];
      RunAppend(f, init, last);
      ScrolledFollowsLastScroll(f, init);
    }
  }

  /** The menu button and link list flags, once equal, stay equal through any events. */
  lemma {:induction false} MenuFlagsStayEqual(f: NavFlags, es: seq<NavEvent>)
    requires f.linksActive == f.buttonActive
    ensures Run(f, es).linksActive == Run(f, es).buttonActive
    decreases |es|
  {
    if es != [] {
      MenuFlagsStayEqual(Step(f, es[0]), es[1..]);
    }
  }

  /** Two menu-button clicks restore both menu flags. */
  lemma ToggleTwiceRestores(f: NavFlags)
    ensures Run(f, [MenuButtonClick, MenuButtonClick]) == f
  {
    assert [MenuButtonClick, MenuButtonClick][1..] == [MenuButtonClick];
  }

  /** A nav-link click closes the menu whatever came before. */
  lemma LinkClickCloses(f: NavFlags, es: seq<NavEvent>)
    ensures !Run(f, es + [NavLinkClick]).linksActive && !Run(f, es + [NavLinkClick]).buttonActive
  {
    RunAppend(f, es, NavLinkClick);
  }

  class NavigationController {
    var scrolled: bool        // 'scrolled' class on .navbar
    var linksActive: bool     // 'active' class on .nav-links
    var buttonActive: bool    // 'active' class on .mobile-menu-btn

    ghost function Flags(): NavFlags
      reads this
    {
      NavFlags(scrolled, linksActive, buttonActive)
    }

    /** initNavigation installs handlers only; the flags start as the markup has them. */
    constructor (markup: NavFlags)
      ensures Flags() == markup
    {
      scrolled, linksActive, buttonActive := markup.scrolled, markup.linksActive, markup.buttonActive;
    }

    /** Window scroll: 'scrolled' is added past the threshold and removed otherwise. */
    method OnScroll(scrollY: real)
      modifies this
      ensures Flags() == Step(old(Flags()), Scroll(scrollY))
      ensures scrolled == (scrollY > ScrollThreshold)
      ensures linksActive == old(linksActive) && buttonActive == old(buttonActive)
    {
      if scrollY > ScrollThreshold {
        scrolled := true;
      } else {
        scrolled := false;
      }
    }

    /** Mobile-menu button click: toggle 'active' on the link list and on the button. */
    method OnMenuButtonClick()
      modifies this
      ensures Flags() == Step(old(Flags()), MenuButtonClick)
      ensures linksActive == !old(linksActive) && buttonActive == !old(buttonActive)
      ensures scrolled == old(scrolled)
    {
      linksActive := !linksActive;
      buttonActive := !buttonActive;
    }

    /** Click on a link in the menu: remove 'active' from the link list and the button. */
    method OnNavLinkClick()
      modifies this
      ensures Flags() == Step(old(Flags()), NavLinkClick)
      ensures !linksActive && !buttonActive && scrolled == old(scrolled)
    {
      linksActive := false;
      buttonActive := false;
    }
  }
}
