/**
 * The navbar's scroll effect: on every scroll event its `box-shadow` is set from the
 * current vertical offset alone. Offsets are only compared with 0, so they are reals.
 */
module Navbar {

  const DropShadow: string := "0 2px 10px rgba(0, 0, 0, 0.3)"

  /** The shadow for a scroll offset: none at the top of the page, the drop shadow below it. */
  function ShadowFor(pageYOffset: real): string {
    if pageYOffset <= 0.0 then "none" else DropShadow
  }

  /** The shadow is cleared exactly at or above the top and is the fixed value everywhere else. */
  lemma ShadowForSpec(pageYOffset: real)
    ensures ShadowFor(pageYOffset) == "none" <==> pageYOffset <= 0.0
    ensures ShadowFor(pageYOffset) != "none" ==> ShadowFor(pageYOffset) == DropShadow
  {
    assert DropShadow[0] != "none"[0];
  }

  /** The navbar element, reduced to the one style property the script writes. */
  class NavbarElement {
    var boxShadow: string

    constructor ()
      ensures boxShadow == ""
    {
      boxShadow := "";
    }
  }

  /**
   * The `scroll` listener. `navbar` is the element looked up once when the script loads, and
   * `null` when the page has none then; the listener then throws before writing, so nothing
   * changes.
   */
  method OnScroll(navbar: NavbarElement?, pageYOffset: real)
    modifies navbar
    ensures navbar != null ==> navbar.boxShadow == ShadowFor(pageYOffset)
  {
    if navbar == null {
      return;
    }
    if pageYOffset <= 0.0 {
      navbar.boxShadow := "none";
    } else {
      navbar.boxShadow := DropShadow;
    }
  }

  /** The shadow left by a run of scroll events, starting from `initial`. */
  function ShadowAfter(initial: string, offsets: seq<real>): string
    decreases |offsets|
  {
    if offsets == [] then initial else ShadowAfter(ShadowFor(offsets[0]), offsets[1..])
  }

  /** No hysteresis: after any run of scroll events the shadow depends on the last offset only. */
  lemma {:induction false} ShadowAfterLast(initial: string, offsets: seq<real>)
    requires offsets != []
    ensures ShadowAfter(initial, offsets) == ShadowFor(offsets[|offsets| - 1])
    decreases |offsets|
  {
    if |offsets| > 1 {
      ShadowAfterLast(ShadowFor(offsets[0]), offsets[1..]);
    }
  }
}
