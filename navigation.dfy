/** `initNavigation` (js/main.js:16-56): the mobile menu's two "active"
    classes and the navbar's "scrolled" class. */
module Navigation {

  /** The "active" class on the menu and on the toggle button. */
  datatype MenuFlags = MenuFlags(menu: bool, toggle: bool)

  /** Where a click lands: on the toggle button (or inside it), on a nav link,
      elsewhere inside the menu, or outside both. */
  datatype Target = OnToggle | OnNavLink | InMenu | Outside

  const Closed: MenuFlags := MenuFlags(false, false)

  /** The listener on the clicked element itself (js/main.js:23-35). */
  function ElementListener(f: MenuFlags, t: Target): MenuFlags {
    match t
    case OnToggle => MenuFlags(!f.menu, !f.toggle)
    case OnNavLink => Closed
    case _ => f
  }

  /** The document's listener, which the click reaches by bubbling (js/main.js:38-43). */
  function DocumentListener(f: MenuFlags, t: Target): MenuFlags {
    if t == Outside then Closed else f
  }

  /** One click: the element's listener, then the document's. */
  function Click(f: MenuFlags, t: Target): MenuFlags {
    DocumentListener(ElementListener(f, t), t)
  }

  /** A sequence of clicks, in order. */
  function Run(f: MenuFlags, clicks: seq<Target>): MenuFlags
    decreases |clicks|
  {
    if clicks == [] then f else Run(Click(f, clicks[0]), clicks[1..])
  }

  /** A toggle click flips both flags; a nav-link or outside click clears both;
      a click elsewhere in the menu leaves them. */
  lemma ClickEffect(f: MenuFlags, t: Target)
    ensures t == OnToggle ==> Click(f, t).menu == !f.menu && Click(f, t).toggle == !f.toggle
    ensures t == OnNavLink || t == Outside ==> !Click(f, t).menu && !Click(f, t).toggle
    ensures t == InMenu ==> Click(f, t) == f
  {
  }

  /** Flags that start equal stay equal, whatever is clicked. */
  lemma {:induction false} FlagsStayInStep(f: MenuFlags, clicks: seq<Target>)
    requires f.menu == f.toggle
    ensures Run(f, clicks).menu == Run(f, clicks).toggle
    decreases |clicks|
  {
    if clicks != [] {
      FlagsStayInStep(Click(f, clicks[0]), clicks[1..]);
    }
  }

  /** After toggle clicks only, the menu is open exactly when it started open
      xor the number of clicks is odd. */
  lemma {:induction false} ToggleParity(f: MenuFlags, clicks: seq<Target>)
    requires forall i :: 0 <= i < |clicks| ==> clicks[i] == OnToggle
    ensures Run(f, clicks).menu == (f.menu != (|clicks| % 2 == 1))
    ensures Run(f, clicks).toggle == (f.toggle != (|clicks| % 2 == 1))
    decreases |clicks|
  {
    if clicks != [] {
      ToggleParity(Click(f, clicks[0]), clicks[1..]);
    }
  }

  /** A nav-link or outside click closes the menu whatever came before it. */
  lemma {:induction false} LastCloseWins(f: MenuFlags, clicks: seq<Target>)
    requires |clicks| > 0 && clicks[|clicks| - 1] in {OnNavLink, Outside}
    ensures Run(f, clicks) == Closed
    decreases |clicks|
  {
    if |clicks| > 1 {
      LastCloseWins(Click(f, clicks[0]), clicks[1..]);
    }
  }

  /** The rule of the scroll listener (js/main.js:49): strictly past 50 pixels. */
  predicate ScrolledAt(scrollY: real) {
    scrollY > 50.0
  }

  /** The navbar's class after a series of scroll events depends only on the last one. */
  function AfterScrolls(scrolled: bool, positions: seq<real>): bool
    decreases |positions|
  {
    if positions == [] then scrolled else AfterScrolls(ScrolledAt(positions[0]), positions[1..])
  }

  lemma {:induction false} LastScrollDecides(scrolled: bool, positions: seq<real>)
    requires |positions| > 0
    ensures AfterScrolls(scrolled, positions) == (positions[|positions| - 1] > 50.0)
    decreases |positions|
  {
    if |positions| > 1 {
      LastScrollDecides(ScrolledAt(positions[0]), positions[1..]);
    }
  }

  /** The page's navbar, menu and toggle. The listeners exist only when the
      elements they need were found at load time. */
  class NavigationBar {
    /** Both `nav-toggle` and `nav-menu` exist, so the menu listeners are installed. */
    const menuWired: bool
    /** `navbar` exists and did not start with "scrolled", so the scroll listener is installed. */
    const scrollWired: bool
    var flags: MenuFlags
    var scrolled: bool

    constructor Init(hasToggleAndMenu: bool, hasNavbar: bool, startsScrolled: bool, flags: MenuFlags)
      ensures menuWired == hasToggleAndMenu
      ensures scrollWired == (hasNavbar && !startsScrolled)
      ensures this.flags == flags && scrolled == startsScrolled
    {
      menuWired := hasToggleAndMenu;
      scrollWired := hasNavbar && !startsScrolled;
      this.flags := flags;
      scrolled := startsScrolled;
    }

    method OnClick(t: Target)
      modifies this
      ensures flags == if menuWired then Click(old(flags), t) else old(flags)
      ensures scrolled == old(scrolled)
    {
      if menuWired {
        match t {
          case OnToggle =>
            flags := MenuFlags(!flags.menu, !flags.toggle);
          case OnNavLink =>
            flags := MenuFlags(false, false);
          case _ =>
        }
        if t == Outside {
          flags := MenuFlags(false, false);
        }
      }
    }

    method OnScroll(scrollY: real)
      modifies this
      ensures scrolled == if scrollWired then ScrolledAt(scrollY) else old(scrolled)
      ensures flags == old(flags)
    {
      if scrollWired {
        if scrollY > 50.0 {
          scrolled := true;
        } else {
          scrolled := false;
        }
      }
    }
  }
}
