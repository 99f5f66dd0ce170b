/**
 * Scroll animations: before the animate-on-scroll library starts, the page gives
 * groups of elements `data-aos-*` attributes. Whatever the markup already says wins,
 * except the delay, which grows with the element's position in its group and is
 * capped at 600 ms. The filter buttons of the projects section are "gated" after
 * their first animation, and the gate opens again only when the section comes back
 * into view after leaving it, until a timer closes it.
 */
module ScrollAnimations {
  import opened Wrappers
  import opened JsText

  const MaxDelay: int := 600
  const DefaultStagger: int := 50

  /** The options of one `setAOSAttributes` call; a missing field is `None`. Every call
      site passes integers for the numeric fields. */
  datatype Options = Options(
    anchorPlacement: Option<string>,
    offset: Option<int>,
    duration: Option<int>,
    delayBase: Option<int>,
    stagger: Option<int>,
    easing: Option<string>,
    once: Option<bool>,
    mirror: Option<bool>)

  /** The `data-aos*` attributes of one element. */
  datatype Dataset = Dataset(
    aos: Option<string>,
    anchorPlacement: Option<string>,
    offset: Option<string>,
    duration: Option<string>,
    delay: Option<string>,
    easing: Option<string>,
    once: Option<string>,
    mirror: Option<string>)

  /** A string attribute counts as present when it is there and not empty. */
  predicate Present(a: Option<string>) {
    a.Some? && a.value != ""
  }

  /** `String(b)`. */
  function BoolToString(b: bool): string {
    if b then "true" else "false"
  }

  /** `Math.min((delayBase || 0) + (stagger || 50) * i, 600)`: a stagger of 0 counts as 50. */
  function Delay(delayBase: int, stagger: Option<int>, i: nat): (d: int)
    ensures var x := delayBase + (if stagger == None || stagger == Some(0) then DefaultStagger else stagger.value) * i;
            d <= MaxDelay && d <= x && (d == x || d == MaxDelay)
  {
    var step := if stagger.None? || stagger.value == 0 then DefaultStagger else stagger.value;
    var d := delayBase + step * i;
    if d < MaxDelay then d else MaxDelay
  }

  /** `if (!current && given) current = given` for a string option. */
  function Fill(current: Option<string>, given: Option<string>): (r: Option<string>)
    ensures Present(current) ==> r == current
    ensures !Present(current) && Present(given) ==> r == given
    ensures !Present(current) && !Present(given) ==> r == current
  {
    if !Present(current) && Present(given) then given else current
  }

  /** `if (typeof n === 'number' && !current) current = String(n)`. */
  function FillNumber(current: Option<string>, given: Option<int>): (r: Option<string>)
    ensures Present(current) ==> r == current
    ensures !Present(current) && given.Some? ==> r == Some(IntToString(given.value))
    ensures given.None? ==> r == current
  {
    if !Present(current) && given.Some? then Some(IntToString(given.value)) else current
  }

  /** `if (typeof b === 'boolean' && current == null) current = String(b)`: here an
      empty attribute counts as set. */
  function FillFlag(current: Option<string>, given: Option<bool>): (r: Option<string>)
    ensures current.Some? ==> r == current
    ensures current.None? && given.Some? ==> r == Some(BoolToString(given.value))
    ensures given.None? ==> r == current
  {
    if current.None? && given.Some? then Some(BoolToString(given.value)) else current
  }

  /** The body of the `forEach` in `setAOSAttributes` for the element at position `i`. */
  function Annotate(el: Dataset, animation: string, o: Options, i: nat): (r: Dataset)
    ensures Present(el.aos) ==> r.aos == el.aos
    ensures !Present(el.aos) ==> r.aos == Some(animation)
    ensures o.delayBase.Some? ==> r.delay == Some(IntToString(Delay(o.delayBase.value, o.stagger, i)))
    ensures o.delayBase.None? ==> r.delay == el.delay
  {
    Dataset(
      if Present(el.aos) then el.aos else Some(animation),
      Fill(el.anchorPlacement, o.anchorPlacement),
      FillNumber(el.offset, o.offset),
      FillNumber(el.duration, o.duration),
      if o.delayBase.Some? then Some(IntToString(Delay(o.delayBase.value, o.stagger, i))) else el.delay,
      Fill(el.easing, o.easing),
      FillFlag(el.once, o.once),
      FillFlag(el.mirror, o.mirror))
  }

  /** `setAOSAttributes` over the elements of one selector, in document order. */
  function AnnotateAll(els: seq<Dataset>, animation: string, o: Options): (r: seq<Dataset>)
    ensures |r| == |els|
    ensures forall i :: 0 <= i < |els| ==> r[i] == Annotate(els[i], animation, o, i)
  {
    seq(|els|, i requires 0 <= i < |els| => Annotate(els[i], animation, o, i))
  }

  /** Attributes written in the markup are kept, all but the delay. */
  lemma MarkupWins(el: Dataset, animation: string, o: Options, i: nat)
    ensures var r := Annotate(el, animation, o, i);
            && (Present(el.aos) ==> r.aos == el.aos)
            && (Present(el.anchorPlacement) ==> r.anchorPlacement == el.anchorPlacement)
            && (Present(el.offset) ==> r.offset == el.offset)
            && (Present(el.duration) ==> r.duration == el.duration)
            && (Present(el.easing) ==> r.easing == el.easing)
            && (el.once.Some? ==> r.once == el.once)
            && (el.mirror.Some? ==> r.mirror == el.mirror)
  {
  }

  /** Running the assignment twice changes nothing more than running it once. */
  lemma AnnotateIdempotent(el: Dataset, animation: string, o: Options, i: nat)
    ensures Annotate(Annotate(el, animation, o, i), animation, o, i) == Annotate(el, animation, o, i)
  {
    if o.offset.Some? {
      IntToStringNonEmpty(o.offset.value);
    }
    if o.duration.Some? {
      IntToStringNonEmpty(o.duration.value);
    }
  }

  lemma IntToStringNonEmpty(n: int)
    ensures IntToString(n) != ""
  {
    assert |NatToString(if n < 0 then -n else n)| >= 1;
  }

  /** `parseInt(el.dataset.aosDelay, 10)`, None when the attribute is missing or not a number. */
  function DelayOf(el: Dataset): Option<int> {
    if el.delay.Some? then ParseInt(el.delay.value) else None
  }

  /** The delay written is read back by `parseInt` as the capped staggered delay. */
  lemma DelayReadsBack(el: Dataset, animation: string, o: Options, i: nat)
    requires o.delayBase.Some?
    ensures var d := DelayOf(Annotate(el, animation, o, i));
            d == Some(Delay(o.delayBase.value, o.stagger, i)) && d.value <= MaxDelay
  {
    ParseIntOfIntToString(Delay(o.delayBase.value, o.stagger, i));
  }

  /** With a non-negative stagger, later elements of a group never start earlier. */
  lemma DelaysGrow(delayBase: int, stagger: Option<int>, i: nat, j: nat)
    requires stagger.None? || stagger.value >= 0
    requires i <= j
    ensures Delay(delayBase, stagger, i) <= Delay(delayBase, stagger, j)
  {
    var step := if stagger.None? || stagger.value == 0 then DefaultStagger else stagger.value;
    StepGrows(step, i, j);
  }

  lemma StepGrows(step: int, i: nat, j: nat)
    requires step >= 0 && i <= j
    ensures step * i <= step * j
  {
    assert step * j == step * i + step * (j - i);
  }

  /** A group of elements with delays is staggered in document order. */
  lemma GroupStaggered(els: seq<Dataset>, animation: string, o: Options, i: nat, j: nat)
    requires o.delayBase.Some? && (o.stagger.None? || o.stagger.value >= 0)
    requires i <= j < |els|
    ensures var r := AnnotateAll(els, animation, o);
            DelayOf(r[i]).Some? && DelayOf(r[j]).Some? && DelayOf(r[i]).value <= DelayOf(r[j]).value
  {
    var r := AnnotateAll(els, animation, o);
    DelayReadsBack(els[i], animation, o, i);
    DelayReadsBack(els[j], animation, o, j);
    DelaysGrow(o.delayBase.value, o.stagger, i, j);
  }

  /** The project cards: 50 ms plus 70 ms per card, so from the ninth card on every
      card waits the full 600 ms. */
  lemma ProjectCardDelays(i: nat)
    ensures Delay(50, Some(70), i) == if i <= 7 then 50 + 70 * i else MaxDelay
  {
    if i > 7 {
      StepGrows(70, 8, i);
    }
  }

  // ---------------------------------------------------------------------------
  // Filter button gate
  // ---------------------------------------------------------------------------

  /** The observer's flags, whether `aos-buttons-gated` is on the body, and how many
      re-gating timers are pending. */
  datatype Gate = Gate(sectionWasOut: bool, buttonsAnimatedOnce: bool, gated: bool, pendingTimers: nat)

  const InitialGate := Gate(false, false, false, 0)

  /** An `aos:in` event (for a filter button or not), the section leaving or entering
      the viewport, or the 1200 ms timer firing. */
  datatype GateEvent = AosIn(isFilterButton: bool) | Leave | Enter | TimerFires

  function GateStep(g: Gate, e: GateEvent): (r: Gate)
    ensures r.buttonsAnimatedOnce == (g.buttonsAnimatedOnce || e == AosIn(true))
    ensures g.gated && !r.gated ==> e == Enter && g.sectionWasOut
    ensures !g.sectionWasOut && r.sectionWasOut ==> e == Leave
    ensures !g.buttonsAnimatedOnce && r.buttonsAnimatedOnce ==> r.gated
  {
    match e
    case AosIn(isButton) =>
      if !g.buttonsAnimatedOnce && isButton then g.(buttonsAnimatedOnce := true, gated := true) else g
    case Leave => g.(sectionWasOut := true)
    case Enter =>
      if g.sectionWasOut then g.(gated := false, pendingTimers := g.pendingTimers + 1) else g
    case TimerFires =>
      if g.pendingTimers > 0 then g.(gated := true, sectionWasOut := false, pendingTimers := g.pendingTimers - 1) else g
  }

  /** Once the buttons have animated, the gate is open only while a timer that closes
      it is pending. */
  ghost predicate GateInvariant(g: Gate) {
    g.buttonsAnimatedOnce && !g.gated ==> g.pendingTimers > 0
  }

  function GateRun(g: Gate, es: seq<GateEvent>): Gate
  {
    if |es| == 0 then g else GateStep(GateRun(g, es[..|es| - 1]), es[|es| - 1])
  }

  lemma {:induction false} GateRunKeepsInvariant(g: Gate, es: seq<GateEvent>)
    requires GateInvariant(g)
    ensures GateInvariant(GateRun(g, es))
    decreases |es|
  {
    if |es| > 0 {
      GateRunKeepsInvariant(g, es[..|es| - 1]);
    }
  }

  /** `buttonsAnimatedOnce` never goes back, and it is set by the first filter-button
      `aos:in` of a run. */
  lemma {:induction false} AnimatedOnceSticks(g: Gate, es: seq<GateEvent>)
    ensures GateRun(g, es).buttonsAnimatedOnce <==> g.buttonsAnimatedOnce || AosIn(true) in es
    decreases |es|
  {
    if |es| > 0 {
      AnimatedOnceSticks(g, es[..|es| - 1]);
      assert es == es[..|es| - 1] + [es[|es| - 1]];
    }
  }

  /** Without the section ever leaving the viewport, a closed gate stays closed. */
  lemma {:induction false} GateStaysClosedWithoutLeaving(g: Gate, es: seq<GateEvent>)
    requires g.gated && !g.sectionWasOut
    requires Leave !in es
    ensures GateRun(g, es).gated && !GateRun(g, es).sectionWasOut
    decreases |es|
  {
    if |es| > 0 {
      GateStaysClosedWithoutLeaving(g, es[..|es| - 1]);
    }
  }

  /** Leaving and coming back opens the gate; the pending timer closes it again. */
  lemma ReentryOpensThenCloses(g: Gate)
    requires g.gated
    ensures var back := GateRun(g, [Leave, Enter]);
            && !back.gated
            && GateRun(g, [Leave, Enter, TimerFires]).gated
  {
    assert [Leave, Enter][..1] == [Leave];
    assert [Leave, Enter, TimerFires][..2] == [Leave, Enter];
    assert [Leave][..0] == [];
  }
}
