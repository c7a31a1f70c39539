/**
 * The faculty sidebar of `src/components/facultydashboard/Navbar.tsx`:
 * three flags (`collapsed`, `mobileOpen`, `isDesktop`), the handlers that
 * set them and the sidebar geometry derived from them. The window width is
 * a parameter of `HandleResize`; the spring animation towards the target
 * width and offset is not part of this model.
 */
module Navbar {

  /** Window widths from this one up count as desktop (Tailwind's `lg` breakpoint). */
  const DesktopMinWidth := 1024

  const OpenWidth := 256
  const RailWidth := 72

  /** The tabs the sidebar navigates to. */
  datatype TabKey = OverviewTab | StudentsTab | AttendanceTab | ReportsTab

  class SidebarState {
    var collapsed: bool
    var mobileOpen: bool
    var isDesktop: bool

    /**
     * What every handler keeps: a desktop sidebar is never in the mobile-open
     * state, and a mobile sidebar is never collapsed.
     */
    predicate Valid()
      reads this
    {
      (isDesktop ==> !mobileOpen) && (!isDesktop ==> !collapsed)
    }

    /** The three `useState(false)` hooks. */
    constructor()
      ensures Valid() && !collapsed && !mobileOpen && !isDesktop
    {
      collapsed, mobileOpen, isDesktop := false, false, false;
    }

    /**
     * `handleResize`, run on mount and on every `resize`: desktop is a
     * width of at least 1024; turning desktop closes the mobile menu,
     * turning mobile expands the sidebar, and the other flag stays.
     */
    method HandleResize(width: int)
      modifies this
      ensures Valid()
      ensures isDesktop == (width >= DesktopMinWidth)
      ensures isDesktop ==> !mobileOpen && collapsed == old(collapsed)
      ensures !isDesktop ==> !collapsed && mobileOpen == old(mobileOpen)
    {
      var desktop := width >= DesktopMinWidth;
      isDesktop := desktop;
      if desktop {
        mobileOpen := false;
      } else {
        collapsed := false;
      }
    }

    /** The menu button of the top bar, which is only displayed below the desktop breakpoint. */
    method ToggleMobile()
      modifies this
      requires Valid() && !isDesktop
      ensures Valid()
      ensures mobileOpen == !old(mobileOpen) && collapsed == old(collapsed) && isDesktop == old(isDesktop)
    {
      mobileOpen := !mobileOpen;
    }

    /** The chevron button, rendered only on desktop. */
    method ToggleCollapse()
      modifies this
      requires Valid() && isDesktop
      ensures Valid()
      ensures collapsed == !old(collapsed) && mobileOpen == old(mobileOpen) && isDesktop == old(isDesktop)
    {
      collapsed := !collapsed;
    }

    /** A click on the dimmed overlay closes the mobile menu. */
    method CloseOverlay()
      modifies this
      requires Valid()
      ensures Valid()
      ensures !mobileOpen && collapsed == old(collapsed) && isDesktop == old(isDesktop)
    {
      mobileOpen := false;
    }

    /** A navigation button: the tab goes to `onNavigate`; on mobile the menu closes. */
    method Navigate(tab: TabKey) returns (navigated: TabKey)
      modifies this
      requires Valid()
      ensures Valid()
      ensures navigated == tab
      ensures !old(isDesktop) ==> !mobileOpen
      ensures old(isDesktop) ==> mobileOpen == old(mobileOpen)
      ensures collapsed == old(collapsed) && isDesktop == old(isDesktop)
    {
      navigated := tab;
      if !isDesktop {
        mobileOpen := false;
      }
    }

    /** The logout button: `onLogout` is called (when given); on mobile the menu closes. */
    method Logout()
      modifies this
      requires Valid()
      ensures Valid()
      ensures !old(isDesktop) ==> !mobileOpen
      ensures old(isDesktop) ==> mobileOpen == old(mobileOpen)
      ensures collapsed == old(collapsed) && isDesktop == old(isDesktop)
    {
      if !isDesktop {
        mobileOpen := false;
      }
    }

    /** The target width of the sidebar. */
    function Width(): (w: int)
      reads this
      ensures w == 0 || w == RailWidth || w == OpenWidth
      ensures w == 0 <==> !isDesktop && !mobileOpen
      ensures w == RailWidth <==> isDesktop && collapsed
    {
      if isDesktop then (if collapsed then RailWidth else OpenWidth)
      else (if mobileOpen then OpenWidth else 0)
    }

    /** The target horizontal offset: off-screen to the left exactly when the sidebar has no width. */
    function XOffset(): (x: int)
      reads this
      ensures x == -OpenWidth <==> Width() == 0
      ensures x == 0 <==> Width() > 0
    {
      if isDesktop then 0 else (if mobileOpen then 0 else -OpenWidth)
    }

    /** `aria-hidden` of the sidebar: set exactly when it is pushed off-screen. */
    function AriaHidden(): (r: bool)
      reads this
      ensures r <==> XOffset() == -OpenWidth
    {
      if isDesktop then false else !mobileOpen
    }

    /** The heading, the logout button and the item names are shown. */
    predicate ShowLabels()
      reads this
    {
      !collapsed || !isDesktop || mobileOpen
    }

    /** The items are wrapped in tooltips: exactly when the labels are hidden. */
    function TooltipMode(): (r: bool)
      reads this
      ensures r <==> !ShowLabels()
    {
      collapsed && isDesktop && !mobileOpen
    }

    /** In every reachable state, tooltips replace the labels exactly on the 72-pixel rail. */
    lemma TooltipsOnRail()
      requires Valid()
      ensures TooltipMode() <==> Width() == RailWidth
      ensures !ShowLabels() <==> Width() == RailWidth
    {
    }
  }
}
