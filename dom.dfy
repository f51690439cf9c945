/** The part of the browser page that the résumé's handlers read: elements
    found by selector, the sticky navigation bar, and the window geometry.
    All lengths are whole CSS pixels. */
module Dom {

  datatype Option<T> = None | Some(value: T)

  /** An element returned by `document.querySelector`: its `id`, its
      `offsetTop` (distance from the document top) and the `top` of its
      bounding rectangle (distance from the viewport top). */
  datatype Element = Element(id: string, offsetTop: int, rectTop: int)

  /** A snapshot of the page at the moment a handler runs. `elements` maps
      each selector that finds something to the element found; `nav` is the
      height of the `.nav` bar when the page has one. */
  datatype Page = Page(
    elements: map<string, Element>,
    nav: Option<int>,
    scrollY: int,
    innerHeight: int,
    bodyScrollHeight: int,
    rootScrollHeight: int)

  /** The gap kept between the sticky bar and a section's top. */
  const Margin: int := 6

  /** How close to the document end counts as "at the bottom". */
  const BottomSlack: int := 2

  /** `nav ? nav.getBoundingClientRect().height : 0` */
  function NavHeight(p: Page): int {
    if p.nav.Some? then p.nav.value else 0
  }

  /** `Math.max(document.body.scrollHeight, document.documentElement.scrollHeight)` */
  function DocHeight(p: Page): (h: int)
    ensures h >= p.bodyScrollHeight && h >= p.rootScrollHeight
    ensures h == p.bodyScrollHeight || h == p.rootScrollHeight
  {
    if p.bodyScrollHeight >= p.rootScrollHeight then p.bodyScrollHeight else p.rootScrollHeight
  }

  /** The scroll offset from which a section counts as reached: its top
      minus the bar's height minus the margin. */
  function Boundary(offsetTop: int, navH: int): int {
    offsetTop - navH - Margin
  }

  /** The bottom clamp's test: the viewport's lower edge is within
      `BottomSlack` of the document's end. */
  predicate AtBottom(scrollY: int, innerHeight: int, height: int) {
    scrollY + innerHeight >= height - BottomSlack
  }
}
