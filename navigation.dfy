/**
 * The mobile navigation menu (`initNavigation` and `initMobileMenuClose`,
 * assets/js/main.js). Its state is the menu's `active` class, the toggle
 * button's `aria-expanded` attribute and the class of the toggle's icon,
 * if the toggle has one.
 */
module Navigation {

  const BarsIcon := "fas fa-bars"
  const TimesIcon := "fas fa-times"
  /** Widths above this many pixels are the desktop layout. */
  const MobileBreakpoint := 768

  datatype NavView = NavView(menuActive: bool, ariaExpanded: string, hasIcon: bool, iconClass: string)

  /** A boolean written through `setAttribute`, which stores its string form. */
  function AttrString(b: bool): string {
    if b then "true" else "false"
  }

  /** The three parts agree: open means expanded with the times icon, closed means the bars icon. */
  predicate Consistent(v: NavView) {
    && v.ariaExpanded == AttrString(v.menuActive)
    && (v.hasIcon ==> v.iconClass == if v.menuActive then TimesIcon else BarsIcon)
  }

  /**
   * The toggle's click handler: the menu's class flips, `aria-expanded`
   * becomes the negation of whether it read `"true"`, and the icon follows
   * `aria-expanded`.
   */
  function Toggled(v: NavView): NavView {
    var wasExpanded := v.ariaExpanded == "true";
    NavView(!v.menuActive, AttrString(!wasExpanded), v.hasIcon,
            if v.hasIcon then (if wasExpanded then BarsIcon else TimesIcon) else v.iconClass)
  }

  /** `closeMobileMenu`: inactive, not expanded, bars icon, whatever the state was. */
  function Closed(v: NavView): NavView {
    NavView(false, AttrString(false), v.hasIcon, if v.hasIcon then BarsIcon else v.iconClass)
  }

  /** The resize handler: above the breakpoint an active menu is closed; otherwise nothing changes. */
  function Resized(v: NavView, innerWidth: int): NavView {
    if innerWidth > MobileBreakpoint && v.menuActive then Closed(v) else v
  }

  /**
   * From a consistent state a toggle flips the menu and `aria-expanded`
   * together, shows the times icon when opening and the bars icon when
   * closing, and two toggles give back the starting state.
   */
  lemma ToggleFlipsTogether(v: NavView)
    requires Consistent(v)
    ensures Consistent(Toggled(v)) && Toggled(v).menuActive == !v.menuActive
    ensures Toggled(v).hasIcon ==> Toggled(v).iconClass == if v.menuActive then BarsIcon else TimesIcon
    ensures Toggled(Toggled(v)) == v
  {
  }

  /** Closing gives the consistent closed state and is idempotent. */
  lemma CloseForcesClosed(v: NavView)
    ensures Consistent(Closed(v)) && !Closed(v).menuActive && Closed(v).ariaExpanded == "false"
    ensures Closed(v).hasIcon ==> Closed(v).iconClass == BarsIcon
    ensures Closed(Closed(v)) == Closed(v)
  {
  }

  /** Resizing to a mobile width changes nothing. */
  lemma NarrowResizeChangesNothing(v: NavView, innerWidth: int)
    requires innerWidth <= MobileBreakpoint
    ensures Resized(v, innerWidth) == v
  {
  }

  /**
   * From a consistent state, resizing above the breakpoint is the same as
   * closing, and doing it twice is the same as doing it once.
   */
  lemma WideResizeCloses(v: NavView, innerWidth: int)
    requires Consistent(v) && innerWidth > MobileBreakpoint
    ensures Resized(v, innerWidth) == Closed(v)
    ensures Resized(Resized(v, innerWidth), innerWidth) == Resized(v, innerWidth)
  {
  }

  /** Opening the closed menu and then widening the window restores the closed state. */
  lemma OpenThenWideResize(v: NavView, innerWidth: int)
    requires Consistent(v) && !v.menuActive && innerWidth > MobileBreakpoint
    ensures Toggled(v).menuActive
    ensures Resized(Toggled(v), innerWidth) == v
  {
  }

  /** The menu and its toggle button. */
  class NavMenu {
    var menuActive: bool
    var ariaExpanded: string
    const hasIcon: bool
    var iconClass: string

    function View(): NavView
      reads this
    {
      NavView(menuActive, ariaExpanded, hasIcon, iconClass)
    }

    constructor (initial: NavView)
      ensures View() == initial
    {
      menuActive := initial.menuActive;
      ariaExpanded := initial.ariaExpanded;
      hasIcon := initial.hasIcon;
      iconClass := initial.iconClass;
    }

    /** A click on the toggle button. */
    method ToggleClick()
      modifies this
      ensures View() == Toggled(old(View()))
    {
      var isExpanded := ariaExpanded == "true";
      menuActive := !menuActive;
      ariaExpanded := AttrString(!isExpanded);
      if hasIcon {
        iconClass := if isExpanded then BarsIcon else TimesIcon;
      }
    }

    /** `closeMobileMenu`, run on a click on a menu link or outside the menu. */
    method CloseMobileMenu()
      modifies this
      ensures View() == Closed(old(View()))
    {
      menuActive := false;
      ariaExpanded := AttrString(false);
      if hasIcon {
        iconClass := BarsIcon;
      }
    }

    /** The window's resize handler, given the new inner width. */
    method Resize(innerWidth: int)
      modifies this
      ensures View() == Resized(old(View()), innerWidth)
    {
      if innerWidth > MobileBreakpoint {
        if menuActive {
          menuActive := false;
          ariaExpanded := AttrString(false);
          if hasIcon {
            iconClass := BarsIcon;
          }
        }
      }
    }
  }
}
