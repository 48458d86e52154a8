/**
 * The scroll-down arrow on the hero: on each scroll event it is hidden once
 * the page has scrolled more than 100 pixels, and shown again otherwise.
 */
module ScrollArrow {

  /** The two inline style properties the listener writes. */
  datatype ArrowStyle = ArrowStyle(opacity: string, pointerEvents: string)

  const Hidden: ArrowStyle := ArrowStyle("0", "none")
  const Shown: ArrowStyle := ArrowStyle("1", "auto")

  /** Scroll offset past which the arrow is hidden. */
  const HideAfter: real := 100.0

  /** The style written for a scroll offset: hidden iff the offset exceeds the threshold. */
  function ArrowStyleAt(scrolled: real): (r: ArrowStyle)
    ensures r == Hidden <==> scrolled > HideAfter
    ensures r == Shown <==> scrolled <= HideAfter
  {
    if scrolled > HideAfter then Hidden else Shown
  }

  /** Hidden at one offset means hidden at every offset further down. */
  lemma HiddenStaysHidden(s1: real, s2: real)
    requires s1 <= s2 && ArrowStyleAt(s1) == Hidden
    ensures ArrowStyleAt(s2) == Hidden
  {
  }
}
