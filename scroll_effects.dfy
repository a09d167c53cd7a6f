/** `initScrollEffects` (js/main.js:59-79): clicks on in-page anchors. */
module ScrollEffects {

  /** Gap, in pixels, left between the navbar's bottom edge and the target. */
  const Gap: int := 20

  /** What an anchor click does: nothing scripted, or a smooth scroll to `top`. */
  datatype AnchorAction = BrowserDefault | SmoothScrollTo(top: int)

  /** The anchors `a[href^="#"]` get the listener. */
  predicate IsFragmentLink(href: string) {
    |href| > 0 && href[0] == '#'
  }

  /** A click on an anchor with the given `href`. `found` maps each selector
      for which `document.querySelector` finds an element to that element's
      `offsetTop`; `navHeight` is the navbar's `offsetHeight` at click time. */
  function OnAnchorClick(href: string, found: map<string, int>, navHeight: int): (r: AnchorAction)
    ensures r.SmoothScrollTo? <==> IsFragmentLink(href) && href != "#" && href in found
    ensures r.SmoothScrollTo? ==> r.top + navHeight + Gap == found[href]
  {
    if !IsFragmentLink(href) then BrowserDefault
    else if href == "#" then BrowserDefault
    else if href in found then SmoothScrollTo(found[href] - navHeight - Gap)
    else BrowserDefault
  }
}
