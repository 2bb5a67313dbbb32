/** Page-level navigation state of `App` (src/App.jsx:227-228, 254-271, 365). */
module Navigation {
  import opened Wrappers

  /** Pixels cleared above a section: none on wide viewports, 90 under the fixed mobile bar. */
  function ScrollOffset(innerWidth: int): (r: nat)
    ensures r == 0 || r == 90
    ensures r == 0 <==> innerWidth >= 768
  {
    if innerWidth >= 768 then 0 else 90
  }

  /** Where `scrollToSection` scrolls: the section's top, raised by the offset. */
  function ScrollTarget(offsetTop: int, innerWidth: int): (top: int)
    ensures top + ScrollOffset(innerWidth) == offsetTop
    ensures innerWidth >= 768 ==> top == offsetTop
  {
    offsetTop - ScrollOffset(innerWidth)
  }

  /** The back-to-top button shows once the page has scrolled more than 500 pixels. */
  predicate ShowsBackToTop(scrollY: int) {
    scrollY > 500
  }

  class Shell {
    var isMobileMenuOpen: bool
    var showScrollToTop: bool
    /** The `top` of the last `window.scrollTo` request; None before any. */
    var scrollRequest: Option<int>

    constructor ()
      ensures !isMobileMenuOpen && !showScrollToTop && scrollRequest == None
    {
      isMobileMenuOpen := false;
      showScrollToTop := false;
      scrollRequest := None;
    }

    /** `scrollToSection(ref)`: `offsetTop` is None while the ref is unset, and then nothing happens. */
    method ScrollToSection(offsetTop: Option<int>, innerWidth: int)
      modifies this`isMobileMenuOpen, this`scrollRequest
      ensures offsetTop.Some? ==> scrollRequest == Some(ScrollTarget(offsetTop.value, innerWidth)) && !isMobileMenuOpen
      ensures offsetTop.None? ==> scrollRequest == old(scrollRequest) && isMobileMenuOpen == old(isMobileMenuOpen)
    {
      if offsetTop.Some? {
        var offset := ScrollOffset(innerWidth);
        scrollRequest := Some(offsetTop.value - offset);
        isMobileMenuOpen := false;
      }
    }

    /** `handleScroll` */
    method HandleScroll(scrollY: int)
      modifies this`showScrollToTop
      ensures showScrollToTop == ShowsBackToTop(scrollY)
    {
      showScrollToTop := scrollY > 500;
    }

    /** The mobile menu button. */
    method ToggleMobileMenu()
      modifies this`isMobileMenuOpen
      ensures isMobileMenuOpen == !old(isMobileMenuOpen)
    {
      isMobileMenuOpen := !isMobileMenuOpen;
    }
  }
}
