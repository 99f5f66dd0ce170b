/**
 * The horizontal project carousel: the arrow buttons are disabled at either end,
 * a slider thumb mirrors the scroll position, clicking the slider track scrolls to
 * the clicked fraction, and a mouse wheel scrolls sideways while the carousel can
 * still move that way and otherwise lets the page scroll. Widths come from the
 * layout and are taken as given.
 */
module Carousel {
  import opened Wrappers
  import opened JsNumber

  /** The scroll geometry of the carousel element. */
  datatype Scroller = Scroller(scrollLeft: real, scrollWidth: real, clientWidth: real)

  function MaxScroll(s: Scroller): real {
    s.scrollWidth - s.clientWidth
  }

  /** What a browser keeps true: the content is at least as wide as the viewport, and
      the scroll offset lies between 0 and its maximum. */
  predicate Settled(s: Scroller) {
    && 0.0 <= s.clientWidth <= s.scrollWidth
    && 0.0 <= s.scrollLeft <= MaxScroll(s)
  }

  predicate AtStart(s: Scroller) {
    s.scrollLeft <= 0.0
  }

  /** At the end, give or take one pixel of rounding. */
  predicate AtEnd(s: Scroller) {
    s.scrollLeft >= MaxScroll(s) - 1.0
  }

  // ---------------------------------------------------------------------------
  // Arrows
  // ---------------------------------------------------------------------------

  /** The `disabled` flags of the left and right arrow buttons. */
  datatype Arrows = Arrows(leftDisabled: bool, rightDisabled: bool)

  /** `updateArrowStates`: each arrow is disabled at its own end. */
  function ArrowStates(s: Scroller): (a: Arrows)
    ensures a.leftDisabled <==> AtStart(s)
    ensures a.rightDisabled <==> AtEnd(s)
  {
    Arrows(s.scrollLeft <= 0.0, s.scrollLeft >= MaxScroll(s) - 1.0)
  }

  /** On a settled carousel both arrows are disabled exactly when it sits at 0 and its
      content overflows by at most one pixel; otherwise at least one arrow can move it. */
  lemma BothArrowsDisabled(s: Scroller)
    requires Settled(s)
    ensures var a := ArrowStates(s);
            a.leftDisabled && a.rightDisabled <==> s.scrollLeft == 0.0 && MaxScroll(s) <= 1.0
  {
  }

  // ---------------------------------------------------------------------------
  // Slider
  // ---------------------------------------------------------------------------

  /** `Math.max(20, trackWidth * (clientWidth / scrollWidth))`: the thumb is as wide a
      share of the track as the viewport is of the content, but at least 20 pixels.
      Without content (`scrollWidth` 0) the share is infinite or NaN. */
  function ThumbWidth(trackWidth: real, s: Scroller): (w: Num)
    ensures !w.NegInf?
    ensures w.Finite? ==> w.value >= 20.0
    ensures s.scrollWidth != 0.0 ==> w.Finite?
    ensures w.NaN? <==> s.scrollWidth == 0.0 && (s.clientWidth == 0.0 || trackWidth == 0.0)
  {
    Max(20.0, Mul(trackWidth, Div(s.clientWidth, s.scrollWidth)))
  }

  /** `maxScroll > 0 ? scrollLeft / maxScroll : 0`: how far along the content is
      scrolled, as a fraction. */
  function ScrollFraction(s: Scroller): (p: real)
    ensures MaxScroll(s) <= 0.0 ==> p == 0.0
    ensures MaxScroll(s) > 0.0 ==> p * MaxScroll(s) == s.scrollLeft
    ensures Settled(s) ==> 0.0 <= p <= 1.0
  {
    if MaxScroll(s) > 0.0 then
      var p := s.scrollLeft / MaxScroll(s);
      FractionBounds(s.scrollLeft, MaxScroll(s));
      p
    else 0.0
  }

  /** `scrollPct * (trackWidth - thumbWidth)`: the thumb's offset in the track. */
  function ThumbLeft(trackWidth: real, s: Scroller): (x: Num)
    ensures var w := ThumbWidth(trackWidth, s);
            w.Finite? ==> x.Finite? && x.value == ScrollFraction(s) * (trackWidth - w.value)
  {
    Mul(ScrollFraction(s), Sub(trackWidth, ThumbWidth(trackWidth, s)))
  }

  /** On a settled carousel whose track holds at least 20 pixels, the thumb lies
      inside the track: it starts at the left edge when the content does, ends at the
      right edge when the content does, and never sticks out. */
  lemma ThumbInsideTrack(trackWidth: real, s: Scroller)
    requires Settled(s) && s.scrollWidth > 0.0 && trackWidth >= 20.0
    ensures var w := ThumbWidth(trackWidth, s);
            var x := ThumbLeft(trackWidth, s);
            && w.Finite? && x.Finite?
            && 0.0 <= x.value && x.value + w.value <= trackWidth
            && (s.scrollLeft == 0.0 ==> x.value == 0.0)
            && (MaxScroll(s) > 0.0 && s.scrollLeft == MaxScroll(s) ==> x.value + w.value == trackWidth)
  {
    var q := s.clientWidth / s.scrollWidth;
    FractionBounds(s.clientWidth, s.scrollWidth);
    ProductBounds(trackWidth, q);
    var w := ThumbWidth(trackWidth, s);
    assert w.value <= trackWidth;
    var p := ScrollFraction(s);
    ProductBounds(trackWidth - w.value, p);
    if MaxScroll(s) > 0.0 && s.scrollLeft == MaxScroll(s) {
      FractionOne(s.scrollLeft);
    }
  }

  /** `clickX / rect.width * maxScroll`: where a click on the slider track scrolls to. */
  function SliderTarget(clickX: real, trackWidth: real, maxScroll: real): (left: Num)
    ensures trackWidth != 0.0 ==> left.Finite?
    ensures trackWidth > 0.0 && 0.0 <= clickX <= trackWidth && maxScroll >= 0.0 ==>
              left.Finite? && 0.0 <= left.value <= maxScroll
    ensures clickX == 0.0 && trackWidth != 0.0 ==> left == Finite(0.0)
    ensures clickX == trackWidth && trackWidth != 0.0 ==> left == Finite(maxScroll)
  {
    ScaledFraction(clickX, trackWidth, maxScroll);
    Mul(maxScroll, Div(clickX, trackWidth))
  }

  /** Clicking the track at some fraction of its width scrolls to an offset within range
      whose scroll fraction, and so the thumb's, is that same fraction. */
  lemma SliderClickRoundTrip(clickX: real, trackWidth: real, s: Scroller)
    requires Settled(s) && MaxScroll(s) > 0.0
    requires trackWidth > 0.0 && 0.0 <= clickX <= trackWidth
    ensures var left := SliderTarget(clickX, trackWidth, MaxScroll(s));
            && left.Finite?
            && Settled(s.(scrollLeft := left.value))
            && ScrollFraction(s.(scrollLeft := left.value)) == clickX / trackWidth
  {
    var f := clickX / trackWidth;
    FractionBounds(clickX, trackWidth);
    ProductBounds(MaxScroll(s), f);
    var t := s.(scrollLeft := MaxScroll(s) * f);
    assert SliderTarget(clickX, trackWidth, MaxScroll(s)) == Finite(MaxScroll(s) * f);
    assert MaxScroll(t) == MaxScroll(s);
    FractionAt(t, f);
  }

  /** An offset of `f` times the scroll range has scroll fraction `f`. */
  lemma FractionAt(t: Scroller, f: real)
    requires MaxScroll(t) > 0.0 && t.scrollLeft == MaxScroll(t) * f
    ensures ScrollFraction(t) == f
  {
    Cancel(MaxScroll(t), f);
  }

  lemma FractionBounds(a: real, b: real)
    requires b > 0.0
    ensures (a / b) * b == a
    ensures 0.0 <= a <= b ==> 0.0 <= a / b <= 1.0
  {
  }

  lemma ProductBounds(a: real, q: real)
    requires 0.0 <= q <= 1.0
    ensures a >= 0.0 ==> 0.0 <= a * q <= a
    ensures q * a == a * q
  {
  }

  /** A fraction of the track's width scales the scroll range to a point inside it;
      the whole width gives the whole range. */
  lemma ScaledFraction(x: real, w: real, m: real)
    ensures w > 0.0 && 0.0 <= x <= w && m >= 0.0 ==> 0.0 <= m * (x / w) <= m
    ensures w != 0.0 ==> m * (w / w) == m
  {
    if w > 0.0 && 0.0 <= x <= w && m >= 0.0 {
      FractionBounds(x, w);
      ProductBounds(m, x / w);
    }
  }

  lemma FractionOne(a: real)
    requires a > 0.0
    ensures a / a == 1.0
  {
  }

  lemma Cancel(m: real, f: real)
    requires m > 0.0
    ensures (m * f) / m == f
  {
  }

  // ---------------------------------------------------------------------------
  // Mouse wheel
  // ---------------------------------------------------------------------------

  datatype WheelEvent = WheelEvent(ctrlKey: bool, deltaX: real, deltaY: real)

  function Abs(x: real): real {
    if x < 0.0 then -x else x
  }

  /** The delta the user means: the vertical one unless the horizontal one is larger. */
  function Intended(e: WheelEvent): (d: real)
    ensures d == e.deltaX || d == e.deltaY
    ensures Abs(d) >= Abs(e.deltaX) && Abs(d) >= Abs(e.deltaY)
    ensures Abs(e.deltaY) >= Abs(e.deltaX) ==> d == e.deltaY
  {
    if Abs(e.deltaY) >= Abs(e.deltaX) then e.deltaY else e.deltaX
  }

  /** `Math.sign`. */
  function Sign(x: real): int {
    if x > 0.0 then 1 else if x < 0.0 then -1 else 0
  }

  /** The wheel handler: `Some(d)` when it cancels the page scroll and scrolls the
      carousel sideways by `d`, `None` when it lets the event through. */
  function Wheel(s: Scroller, e: WheelEvent): (r: Option<real>)
    ensures r.Some? ==> !e.ctrlKey && r.value == Intended(e) && r.value != 0.0
    ensures r.Some? && r.value > 0.0 ==> !AtEnd(s)
    ensures r.Some? && r.value < 0.0 ==> !AtStart(s)
  {
    if e.ctrlKey then None
    else
      var intended := Intended(e);
      if intended == 0.0 then None
      else
        var dir := Sign(intended);
        var canScrollRight := dir > 0 && !AtEnd(s);
        var canScrollLeft := dir < 0 && !AtStart(s);
        if canScrollLeft || canScrollRight then Some(intended) else None
  }

  /** The wheel is taken over exactly when no modifier is held, the gesture has a
      direction, and the carousel can still move that way. */
  lemma WheelTakenOver(s: Scroller, e: WheelEvent)
    ensures Wheel(s, e).Some? <==>
            && !e.ctrlKey
            && ((Intended(e) > 0.0 && !AtEnd(s)) || (Intended(e) < 0.0 && !AtStart(s)))
  {
  }

  /** Away from both ends every gesture without Ctrl scrolls the carousel by its larger
      delta, and a pure vertical wheel turns into a sideways scroll. */
  lemma WheelInMiddle(s: Scroller, e: WheelEvent)
    requires !AtStart(s) && !AtEnd(s) && !e.ctrlKey
    requires e.deltaX != 0.0 || e.deltaY != 0.0
    ensures Wheel(s, e).Some?
    ensures e.deltaX == 0.0 ==> Wheel(s, e) == Some(e.deltaY)
  {
  }

  /** At an end the wheel towards that end always goes to the page. */
  lemma WheelAtEdges(s: Scroller, e: WheelEvent)
    ensures AtEnd(s) && Intended(e) >= 0.0 ==> Wheel(s, e).None?
    ensures AtStart(s) && Intended(e) <= 0.0 ==> Wheel(s, e).None?
  {
  }

  /** A carousel that does not overflow never takes the wheel. */
  lemma NoOverflowNoWheel(s: Scroller, e: WheelEvent)
    requires Settled(s) && MaxScroll(s) == 0.0
    ensures Wheel(s, e).None?
  {
  }
}
