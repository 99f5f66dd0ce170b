# A verified model of the portfolio site's page logic

The site's scripts hold five pieces of sequential logic among their DOM and canvas
code. This project models each of them in Dafny and proves what they promise.

- **Fourier and geometry utilities** (`fourier-math.js`):
  - `dft` is an N-point DFT normalised by 1/N. Its output is then reordered into
    signed-frequency pairs 0, +1, −1, +2, −2, ….
  - `resamplePoints` resamples a closed polyline to N points evenly spaced by
    arclength, then re-centres them.
  - `convexHull` is a Graham scan.
  - `signedArea` is the shoelace sum without the closing edge.
- **Contact form** (`contact.js`): required fields, the e-mail pattern and the
  minimum message length, checked in that order. It also covers the honeypot field
  and the red border set when the e-mail field loses focus.
- **Workspace slideshow** (`about.js`):
  - `data-interval` and `data-images` parsing;
  - the "exactly one active slide" rule;
  - navigation with wrap-around;
  - the start/stop/restart interval timer.
- **Project filter and carousel** (`projects.js`):
  - category tokenising and matching;
  - the show/hide classification;
  - the run-id guard against stale transitions;
  - the FLIP scale clamp;
  - the arrow, slider-thumb and wheel decisions.
- **Scroll animations** (`scroll-animations.js`): the `data-aos-*` attribute rules,
  including the staggered delay capped at 600 ms, and the gating flags of the
  filter buttons.

Floating-point numbers are exact reals. Where a division by zero matters, a
Number is an explicit `Finite`/`PosInf`/`NegInf`/`NaN` value (`JsNumber`).
`Math.cos`, `Math.sin`, `Math.hypot` and `Math.atan2` are parameters of the model
(the `Trig.JsMath` record). The only facts assumed about them are named
predicates (`HypotNonNegative`, `UnitAtZero`, …), which appear as preconditions
or as antecedents of the conclusions that need them. DOM state is plain data:
`Card.shown` stands for "computed display is not none and the card has a size".
Timers are handles in a set, or counters of pending callbacks.

Modules, one per file: `Wrappers`, `JsText`, `JsNumber`, `Points`, `Trig`,
`FourierTransform`, `Resample`, `ConvexHull`, `Polygon`, `Contact`, `Slideshow`,
`ProjectFilter`, `Carousel`, `ScrollAnimations`.

## Model

| member | source | states |
|---|---|---|
| FourierTransform.WeightedSums | assets/js/utils/fourier-math.js:17-23 | the inner loop's running sums equal the sums of `re·cos φ − im·sin φ` and `re·sin φ + im·cos φ` over all N samples, φ = −2πkn/N |
| FourierTransform.Transform | assets/js/utils/fourier-math.js:16-29 | exactly N coefficients, coefficient k being frequency k with both sums divided by N, amp = hypot and phase = atan2 of them; amp ≥ 0 when hypot is never negative |
| FourierTransform.Reorder | assets/js/utils/fourier-math.js:32-51 | an empty input gives an empty list; otherwise the length is 1 + 2·⌊N/2⌋ and position i holds the entry of index 0, k or N − k with its frequency replaced by 0, +k or −k |
| FourierTransform.PairPositions | assets/js/utils/fourier-math.js:41-48 | positions 2k − 1 and 2k carry frequencies +k and −k and are copied from indices k and N − k |
| FourierTransform.ReorderedPairs | assets/js/utils/fourier-math.js:41-48 | entries 2k − 1 and 2k are `out[k]` with frequency k and `out[N − k]` with frequency −k; for even N the ±N/2 entries share re and im |
| FourierTransform.Dft | assets/js/utils/fourier-math.js:11-52 | the whole of `dft`: output length 1 + 2·⌊N/2⌋ (0 for no input), entry i is the normalised coefficient of the index it is copied from with its signed frequency, amplitudes non-negative |
| FourierTransform.SignedFreqInjective | assets/js/utils/fourier-math.js:37-47 | no two reordered entries share a frequency |
| FourierTransform.ZeroFrequencySums | assets/js/utils/fourier-math.js:18-23 | at k = 0, with cos 0 = 1 and sin 0 = 0, the weighted sums are the plain sums of the samples |
| FourierTransform.ZeroFrequencyIsCentroid | assets/js/utils/fourier-math.js:24-28 | the frequency-0 coefficient is the mean of the samples, and it is zero for samples summing to zero |
| FourierTransform.SumsAdd | assets/js/utils/fourier-math.js:18-23 | the weighted sums are additive: those of a sample-wise sum are the sums of those of the parts |
| Resample.CumulativeLengths | assets/js/utils/fourier-math.js:64-71 | `dists` has one entry per point, starts at 0, adds each edge's hypot, and is non-decreasing when hypot is non-negative |
| Resample.FloatMod | assets/js/utils/fourier-math.js:87 | `target % L` for non-negative operands lies in [0, L) and is the target itself when the target is below L |
| Resample.Advance | assets/js/utils/fourier-math.js:89 | the scan index only moves forward, stays within `dists`, and stops at the first later entry not below `tt` |
| Resample.SegmentPointOnPolygon | assets/js/utils/fourier-math.js:91-96 | the point interpolated on edge i for an arclength between `dists[i]` and the next entry lies on that edge of the closed polyline |
| Resample.EmitAsWritten | assets/js/utils/fourier-math.js:85-97 | the sampling loop as written emits exactly N points, keeping the ones already emitted |
| Resample.EvenSamplesAsWritten | assets/js/utils/fourier-math.js:74-97 | the sampling as written, on a polyline of positive length, yields exactly N points |
| Resample.Emit | assets/js/utils/fourier-math.js:85-97 | the sampling loop with the edge search restarted on wrap-around emits exactly N points, each on the closed polyline, sample k being the point at arclength `(k + 1)·step % L` on the edge whose stretch of `dists` holds it |
| Resample.SampleArclength | assets/js/utils/fourier-math.js:86-87 | the arclength of sample k, `target % L` after k + 1 additions of the step, lies in [0, L) and is the target itself while that is below L |
| Resample.SampleArclengths | assets/js/utils/fourier-math.js:82-87 | with step L/N the samples sit at arclengths L/N, 2L/N, …, (N − 1)L/N, and the last one at 0 |
| Resample.WrapLeavesPolygonAsWritten | assets/js/utils/fourier-math.js:86-96 | resampling the unit square to 4 points as written yields (1,0), (1,1), (0,1), (3,1), and (3,1) is on no edge |
| Resample.WrapReturnsToStart | assets/js/utils/fourier-math.js:86-96 | with the restarted edge search the same input yields (1,0), (1,1), (0,1), (0,0) |
| Resample.Center | assets/js/utils/fourier-math.js:99-102 | re-centring keeps the count, makes both coordinate sums zero, and moves every point by the same offset, minus the centroid |
| Resample.EvenSamples | assets/js/utils/fourier-math.js:78-97 | with the corrected edge search of the Findings table, for a polyline of positive length the N samples all lie on the closed polyline, and are evenly spaced: sample k is the point at arclength `(k + 1)·L/N % L` |
| Resample.ResamplePoints | assets/js/utils/fourier-math.js:60-103 | fewer than 2 points come back unchanged; a zero closed length gives N NaN points; otherwise max(N, 0) points with zero coordinate sums that, after one common shift, lie on the polyline and, for N > 0, are its evenly spaced samples |
| ConvexHull.BottomIndex | assets/js/utils/fourier-math.js:117-123 | the pivot index holds a point that no point is below, or level with and left of, and every earlier index holds a point it is below or left of |
| ConvexHull.SwapToFront | assets/js/utils/fourier-math.js:126 | the swap puts the pivot first and the old first point at the pivot's index, and keeps the multiset of points |
| ConvexHull.SortByAngle | assets/js/utils/fourier-math.js:129-138 | the result is ordered by the comparator (angle, then distance) and is a permutation of the input |
| ConvexHull.PopKeeps | assets/js/utils/fourier-math.js:144-152 | popping keeps the hull an in-order pick of the sorted points that turns left at every vertex |
| ConvexHull.PushKeeps | assets/js/utils/fourier-math.js:150-157 | pushing a later point that makes a strict left turn keeps both properties |
| ConvexHull.Scan | assets/js/utils/fourier-math.js:141-160 | the hull has between 2 and n points, starts at the first and ends at the last sorted point, is a subsequence of them, and every consecutive triple turns strictly left |
| ConvexHull.PivotSortsFirst | assets/js/utils/fourier-math.js:129-138 | with atan2 ≥ 0 on the upper half-plane and hypot zero only at the origin, the pivot sorts first |
| ConvexHull.Hull | assets/js/utils/fourier-math.js:110-161 | fewer than 3 points are returned as they are; otherwise at least 2 points, all from the input, turning left at every vertex; when atan2 is non-negative on the upper half-plane and hypot vanishes only at the origin, the first is a lowest, then leftmost, input point |
| Polygon.SignedAreaLoop | assets/js/utils/fourier-math.js:168-174 | the loop computes half the shoelace sum over consecutive pairs, without the closing edge |
| Polygon.SignedArea | assets/js/utils/fourier-math.js:168-174 | fewer than 2 points give area 0 |
| Polygon.ReverseNegates | assets/js/utils/fourier-math.js:168-174 | reversing the vertex order negates the signed area |
| Polygon.ScaleSquares | assets/js/utils/fourier-math.js:168-174 | scaling every coordinate by c multiplies the signed area by c² |
| Polygon.TranslateShifts | assets/js/utils/fourier-math.js:170-172 | moving every vertex by d adds twice the area of the strip between d and the chord from first to last vertex |
| Polygon.ClosedTranslationInvariant | assets/js/utils/fourier-math.js:168-174 | a polygon whose last vertex repeats its first has the same signed area wherever it is moved |
| Polygon.UnitSquareArea | assets/js/utils/fourier-math.js:163-174 | the closed counter-clockwise unit square has area 1, and clockwise −1 |
| Contact.IsEmail | assets/js/contact.js:75-76 | the decision procedure accepts exactly the language of `^[^\s@]+@[^\s@]+\.[^\s@]+$` |
| Contact.EmailDecision | assets/js/contact.js:75 | a string matches the pattern exactly when it has a non-empty local part before its first `@` and a domain of at least 3 pattern characters with a dot strictly inside |
| Contact.ValidateForm | assets/js/contact.js:67-88 | passes exactly when all four required fields are non-empty, the e-mail matches and the message has at least 10 UTF-16 units; each error text is reported exactly in its own case, in the order fields, e-mail, length |
| Contact.Submit | assets/js/contact.js:11-64 | something is sent exactly when validation passes and the honeypot is empty; errors keep the form; a filled honeypot shows a success text and resets the form without sending |
| Contact.HoneypotLooksLikeSuccess | assets/js/contact.js:24-29 | a valid form with the honeypot filled gets a success message, which is a prefix of the real one, and nothing is sent |
| Contact.AutoHideDelay | assets/js/contact.js:99-104 | a message is hidden after a delay exactly when it is a success |
| Contact.BlurBorder | assets/js/contact.js:111-119 | the border turns red exactly for a non-empty address that fails the pattern, and is cleared otherwise |
| Contact.BlurAgreesWithSubmit | assets/js/contact.js:75-79 | on a form with every required field filled, the blur check flags the e-mail exactly when submitting would report an invalid address |
| Slideshow.IntervalFromAttribute | assets/js/about.js:63-64 | a missing or empty `data-interval` gives 4500; a text `parseInt` finds no number in gives 4500; otherwise the interval is the number `parseInt` reads |
| Slideshow.IntervalWithUnit | assets/js/about.js:63-64 | an integer followed by a text not starting with a digit, as in `300ms`, gives that integer |
| Slideshow.IntervalNotANumber | assets/js/about.js:63-64 | a text starting with anything but white space, a sign or a digit gives 4500 |
| Slideshow.IntervalSkipsWhitespace | assets/js/about.js:63-64 | leading white space in `data-interval` does not change the interval |
| Slideshow.IntervalRoundTrip | assets/js/about.js:63-64 | any integer written as `data-interval` is the interval used |
| Slideshow.ParseImageList | assets/js/about.js:69-72 | every listed image name is non-empty and trimmed, and the list is the comma-free pieces that join with commas to the attribute, each trimmed, with the empty ones dropped |
| Slideshow.ImageListOfPieces | assets/js/about.js:69-72 | any attribute written as comma-free pieces joined by commas, such as `" a.jpg , ,b.jpg"`, lists exactly those pieces trimmed, without the empty ones |
| Slideshow.ImageListRoundTrip | assets/js/about.js:69-72 | writing clean file names joined by commas into `data-images` gives that list back |
| Slideshow.BuildSlidesAsWritten | assets/js/about.js:73-80 | inserting each image before the first child leaves the slides in reverse list order, slide k being the image of list position N − 1 − k |
| Slideshow.SlidesReversedAsWritten | assets/js/about.js:73-80 | with two or more images the first slide shown is the last image listed, labelled with the last position |
| Slideshow.TwoImages | assets/js/about.js:69-72 | `data-images="a.jpg,b.jpg"` lists a.jpg first |
| Slideshow.BuildSlides | assets/js/about.js:73-80 | the corrected order of the Findings table: slide k is list item k, labelled `Workspace photo k+1` like dot k |
| Slideshow.SlidesMatchDots | assets/js/about.js:93-100 | slide k and dot k carry the same number, and the first slide is the first image listed |
| Slideshow.AtMostOneInterval | assets/js/about.js:121-128 | after set-up and any sequence of events, at most one interval is live, and it is the one held in `timer` |
| Slideshow.ExactlyOneActive | assets/js/about.js:105-112 | after set-up and any sequence of events, exactly the current slide is active with Ken Burns, and exactly its dot is active |
| Slideshow.ApplyActive | assets/js/about.js:105-112 | slide i and dot i become the only active ones and `index` is i; the timer is untouched |
| Slideshow.StartTimer | assets/js/about.js:121-124 | does nothing while a timer is set; otherwise exactly one new interval is started and recorded |
| Slideshow.StopTimer | assets/js/about.js:125-127 | always leaves no timer, clearing the running interval if there is one |
| Slideshow.GoTo | assets/js/about.js:116-119 | shows slide i and leaves exactly one timer running |
| Slideshow.Next | assets/js/about.js:114 | moves to (index + 1) mod n |
| Slideshow.Prev | assets/js/about.js:115 | moves to (index − 1 + n) mod n |
| Slideshow.Step | assets/js/about.js:130-135 | every handler keeps the state well formed and the slides unchanged |
| Slideshow.StepEffects | assets/js/about.js:130-135 | the arrows, dots and the live interval's tick navigate and restart the timer; mouse enter stops it, mouse leave starts it; a stale tick does nothing |
| Slideshow.Setup | assets/js/about.js:59-139 | a slideshow starts exactly when the markup or `data-images` supplies a slide; markup slides take precedence; without them slide k is image k of the list, labelled k + 1 (the corrected order); it starts on slide 0 with a timer |
| Slideshow.SetupAsWritten | assets/js/about.js:59-139 | the same as written: without markup slides, slide k is image N − 1 − k of the list with that image's label |
| Slideshow.OpensOnLastImageAsWritten | assets/js/about.js:73-80 | as written, `data-images="a.jpg,b.jpg"` opens on b.jpg labelled "Workspace photo 2" while dot 0 is highlighted |
| Slideshow.Run | assets/js/about.js:130-135 | any sequence of handler calls keeps the state well formed and the slides unchanged |
| Slideshow.Start | assets/js/about.js:138-139 | a non-empty slide list starts a well-formed show on slide 0 with a timer running |
| Slideshow.NextClickIndex | assets/js/about.js:114 | a click on the next arrow moves one slide forward, wrapping round |
| Slideshow.NextClicksWrap | assets/js/about.js:114 | k clicks on the next arrow move k slides forward, wrapping round |
| Slideshow.PrevClickIndex | assets/js/about.js:115 | a click on the previous arrow moves one slide back, wrapping round |
| Slideshow.PrevUndoesNext | assets/js/about.js:114-119 | next then previous returns to the same slide with the same active flags |
| Slideshow.NextUndoesPrev | assets/js/about.js:114-119 | previous then next returns to the same slide with the same active flags |
| Slideshow.ClickWhileHoveredResumes | assets/js/about.js:116-134 | hovering stops the timer, but a click while hovering restarts it |
| ProjectFilter.SplitOnRuns | assets/js/projects.js:187 | splitting on runs of `[\s,\|]` gives pieces without separators, empty only at either end, lower-case when the text is, which put back together with non-empty separator runs between them give the text |
| ProjectFilter.PiecesAreTheSplit | assets/js/projects.js:187 | any such decomposition of a text is the one the split returns, so the split yields exactly the maximal separator-free stretches |
| ProjectFilter.CategoryList | assets/js/projects.js:185-188 | every category read from `data-category` is non-empty, lower-case and free of separators, and the list is the non-empty pieces, in order, of the lower-cased text's decomposition into such stretches and separator runs |
| ProjectFilter.Categories | assets/js/projects.js:185-188 | the category set holds only such names, and exactly the non-empty pieces of that decomposition |
| ProjectFilter.CategoriesAreThePieces | assets/js/projects.js:185-188 | a name is a category exactly when it is a non-empty piece of the lower-cased `data-category` split on separator runs |
| ProjectFilter.SplitOnRunsJoin | assets/js/projects.js:187 | splitting undoes joining separator-free non-empty names with one separator |
| ProjectFilter.CategoriesOfJoin | assets/js/projects.js:185-188 | a `data-category` written as category names joined by any one separator yields exactly that set of names |
| ProjectFilter.MatchesJoined | assets/js/projects.js:190-193 | such a card matches exactly when the filter is empty, is 'all', or lower-cases to one of its names |
| ProjectFilter.FilterIgnoresCase | assets/js/projects.js:192 | filters that differ only in letter case select the same cards, unless one of them is exactly 'all' |
| ProjectFilter.SeparatorInFilterMatchesNothing | assets/js/projects.js:190-193 | a filter other than 'all' containing a separator matches no card |
| ProjectFilter.Classify | assets/js/projects.js:452-461 | toShow holds exactly the matching hidden cards and toHide exactly the non-matching shown ones; the two are disjoint |
| ProjectFilter.Transition | assets/js/projects.js:474-520 | steps 3, 5 and 6 keep every card's categories; exiting cards end hidden, entering ones not also exiting end shown, no card outside the entering set becomes shown, and a card outside it stays shown only when it matches |
| ProjectFilter.TransitionShowsMatches | assets/js/projects.js:452-481 | after showing toShow, hiding toHide and hiding any other non-matching card, exactly the matching cards are shown |
| ProjectFilter.Click | assets/js/projects.js:372-381 | every click takes the next run id and records a non-empty filter, the button's `data-filter` when it has one; it starts a transition unless it repeats the active button's filter while nothing runs |
| ProjectFilter.Finalize | assets/js/projects.js:272-289 | a run that is not the active one changes nothing; otherwise each card is shown exactly when it matches the latest filter |
| ProjectFilter.ClickAll | assets/js/projects.js:372-375 | each click in a sequence advances the run counter by one |
| ProjectFilter.OvertakenRunIgnored | assets/js/projects.js:272-275 | a run overtaken by any later click finishes without touching the cards |
| ProjectFilter.LatestRunApplies | assets/js/projects.js:272-289 | the latest run shows exactly the cards matching the latest click's filter, all cards for a button without `data-filter` |
| ProjectFilter.FinalizeAgreesWithTransition | assets/js/projects.js:452-481 | finalizing the latest run leaves the display the transition produced |
| ProjectFilter.ScaleFactor | assets/js/projects.js:243-245 | the scale lies in [0.5, 2]; a zero ratio gives 1 (also 0/0, which is NaN); a ratio in range is kept; larger ratios and x/0 for positive x give 2, smaller ones 0.5 |
| ProjectFilter.Flip | assets/js/projects.js:240-245 | the offset moves the new box's corner back onto the old one and both scales lie in [0.5, 2] |
| ProjectFilter.UnmovedCardSkips | assets/js/projects.js:249-251 | a card that neither moved nor changed size is not animated, zero-sized or not |
| ProjectFilter.FlipRestoresOldBox | assets/js/projects.js:240-245 | when no side changed by more than a factor of two, scaling the new box by the factors gives the old size |
| Carousel.ArrowStates | assets/js/projects.js:28-35 | the left arrow is disabled exactly at the start, the right one exactly within a pixel of the end |
| Carousel.BothArrowsDisabled | assets/js/projects.js:28-35 | on a settled carousel both arrows are disabled exactly when it is at 0 and overflows by at most one pixel |
| Carousel.ThumbWidth | assets/js/projects.js:43-44 | a finite thumb is at least 20 wide, the thumb is finite whenever there is content, and NaN exactly in the 0/0 or 0·∞ cases |
| Carousel.ThumbLeft | assets/js/projects.js:45-48 | whenever the thumb width is finite, the thumb's offset is the scroll fraction times the track width left over by the thumb |
| Carousel.SliderTarget | assets/js/projects.js:167-171 | a click on a track of non-zero width gives a finite target; on a track of positive width a click inside it lands within [0, maxScroll], the left end at 0 and the right end at maxScroll |
| Carousel.ScrollFraction | assets/js/projects.js:46 | 0 without a scroll range; otherwise the offset divided by the range, in [0, 1] on a settled carousel |
| Carousel.ThumbInsideTrack | assets/js/projects.js:43-47 | on a settled carousel with a track of at least 20 the thumb stays inside the track, touching its left end at the start and its right end at the end |
| Carousel.SliderClickRoundTrip | assets/js/projects.js:165-173 | a click on the track at fraction f scrolls to a settled offset whose scroll fraction, and so the thumb's, is f |
| Carousel.Intended | assets/js/projects.js:88 | the delta of larger magnitude, ties going to deltaY |
| Carousel.Wheel | assets/js/projects.js:81-112 | a consumed wheel scrolls by the intended non-zero delta, never towards an end already reached, and never with Ctrl held |
| Carousel.WheelTakenOver | assets/js/projects.js:81-112 | the wheel is consumed exactly when Ctrl is up and the intended delta points to a side that can still scroll |
| Carousel.WheelInMiddle | assets/js/projects.js:81-112 | away from both ends every non-zero gesture is consumed, a vertical one turning into a sideways scroll |
| Carousel.WheelAtEdges | assets/js/projects.js:92-103 | at an end a wheel towards that end goes to the page |
| Carousel.NoOverflowNoWheel | assets/js/projects.js:90-103 | a carousel without overflow never consumes the wheel |
| ScrollAnimations.Delay | assets/js/scroll-animations.js:15 | the delay is the smaller of 600 and delayBase + step·i, the step being 50 for a missing or zero stagger |
| ScrollAnimations.Annotate | assets/js/scroll-animations.js:9-22 | an existing non-empty `data-aos` is kept, otherwise the animation is set; the delay is overwritten exactly when delayBase is a number |
| ScrollAnimations.AnnotateAll | assets/js/scroll-animations.js:7-9 | every element of a selector is annotated with its own position as the stagger index |
| ScrollAnimations.MarkupWins | assets/js/scroll-animations.js:10-21 | existing aos, anchor-placement, offset, duration and easing are never overwritten, and once and mirror are kept whenever present, even empty |
| ScrollAnimations.Fill | assets/js/scroll-animations.js:10-18 | a string option fills the attribute only when the attribute is missing or empty and the option is non-empty |
| ScrollAnimations.FillNumber | assets/js/scroll-animations.js:11-12 | a numeric option fills a missing or empty attribute with its decimal text, and a missing option changes nothing |
| ScrollAnimations.FillFlag | assets/js/scroll-animations.js:20-21 | once/mirror are set only when the attribute is absent |
| ScrollAnimations.AnnotateIdempotent | assets/js/scroll-animations.js:7-23 | running the assignment twice has the effect of running it once |
| ScrollAnimations.DelayReadsBack | assets/js/scroll-animations.js:14-16 | the delay written reads back as the capped staggered delay, at most 600 |
| ScrollAnimations.DelaysGrow | assets/js/scroll-animations.js:15 | with a non-negative stagger the delay never decreases with the element's index |
| ScrollAnimations.GroupStaggered | assets/js/scroll-animations.js:8-17 | within one selector, later elements never get a smaller delay |
| ScrollAnimations.ProjectCardDelays | assets/js/scroll-animations.js:35 | project cards wait 50 + 70·i ms up to the eighth card and 600 ms from the ninth on |
| ScrollAnimations.GateStep | assets/js/scroll-animations.js:83-109 | `buttonsAnimatedOnce` becomes true only on a filter-button `aos:in` and then the gate closes; the gate opens only on re-entry after leaving; leaving is the only way to mark the section out |
| ScrollAnimations.GateRunKeepsInvariant | assets/js/scroll-animations.js:87-109 | once the buttons have animated, the gate is open only while a timer that closes it is pending |
| ScrollAnimations.AnimatedOnceSticks | assets/js/scroll-animations.js:87-93 | `buttonsAnimatedOnce` never goes back and is true exactly after a filter-button `aos:in` |
| ScrollAnimations.GateStaysClosedWithoutLeaving | assets/js/scroll-animations.js:95-109 | without the section leaving the viewport a closed gate stays closed |
| ScrollAnimations.ReentryOpensThenCloses | assets/js/scroll-animations.js:97-108 | leaving and re-entering opens the gate, and the timer closes it again |
| JsText.Trim | assets/js/about.js:71 | `trim()` returns a piece of the input with no white space at either end, cutting away only white space |
| JsText.Split | assets/js/about.js:70 | `split(',')` gives comma-free pieces that join back to the input |
| JsText.SplitJoin | assets/js/about.js:69-70 | splitting undoes joining comma-free pieces |
| JsText.NonEmpty | assets/js/about.js:72 | `filter(Boolean)` keeps exactly the non-empty strings, keeps trimmed strings trimmed, and changes a list without empty strings not at all |
| JsText.TrimAll | assets/js/about.js:71 | every string is trimmed in place |
| JsText.ParseIntOfIntToString | assets/js/about.js:63 | `parseInt` reads back the decimal text of any integer |
| JsText.ParseIntWithSuffix | assets/js/about.js:63 | `parseInt` reads the integer at the front of a text and ignores whatever follows that does not start with a digit |
| JsText.ParseIntSkipsWhitespace | assets/js/about.js:63 | `parseInt` skips leading white space |
| JsText.ParseIntNoNumber | assets/js/about.js:63 | the empty text, and a text starting with anything but white space, a sign or a digit, are NaN to `parseInt` |
| JsText.ToLower | assets/js/projects.js:186 | lower-casing keeps the length, leaves no upper-case ASCII letter, and changes only those letters |
| JsText.Utf16Length | assets/js/contact.js:82 | `message.length` counts between one and two units per character |
| JsNumber.Div | assets/js/projects.js:244 | `a / b` is finite exactly when b ≠ 0, then times b gives a, and NaN exactly for 0/0 |
| JsNumber.Clamp | assets/js/projects.js:243 | `Math.max(lo, Math.min(hi, v))` is NaN exactly for NaN, otherwise in [lo, hi], keeping values in range; values and infinities below lo give lo, above hi give hi |

## Left out

- The GIF play/pause toggle in `assets/js/about.js:1-56` is not part of this model.
  It only wires DOM state and has no computation of its own.
- The simulated delay and the `catch` branch of the submit handler
  (`assets/js/contact.js:37-63`) are left out. The simulated submission always
  succeeds, so the error branch cannot be reached.
- Element creation, class toggling, focus, scrolling into view, preloading, WAAPI
  animations, abort controllers, `setTimeout`/`setInterval`/`requestAnimationFrame`
  scheduling, IntersectionObserver and the AOS library are left out. They have no
  decision logic beyond the flags and handles that are modelled.
- The arrow buttons' fixed scroll steps (±500), keyboard arrows (±300) and the
  touch-swipe handler of `projects.js` are left out. They issue fixed or raw scroll
  commands and decide nothing the wheel model does not already cover.
- The selector table of `initAOS` (`scroll-animations.js:27-54`) is only modelled
  for the project cards (`ProjectCardDelays`). The other rows are constant data of
  the same kind.
- The gating set-up check for a projects section and `IntersectionObserver` support
  is left out. Without them no flag exists.
- `AOS.init` options and `prefersReducedMotion` are left out. They are
  configuration passed to the library.
- Floating-point rounding is left out: Numbers are exact reals. Signed zeros are
  not modelled either.
- `toLowerCase()` is modelled for ASCII letters only. Unicode case mapping is left
  out.
- The values of `Math.cos`, `Math.sin`, `Math.hypot` and `Math.atan2` are left out.
  They are parameters, and only the named facts about them are used.
- FourierTransform.Dft: for even N the output has N + 1 entries, because the code
  copies `out[N/2]` as both +N/2 and −N/2. The model does the same.
- FourierTransform.SumsAdd: only additivity is proved. Linearity under a scalar
  factor is not stated, because the real-arithmetic proof would be too costly for
  the solver.
- Resample.ResamplePoints: when the closed length is 0 the code yields N NaN
  points (`0 % 0` is NaN), and the model returns the same as a `NotANumber` count.
  The model uses the corrected edge search of the Findings table.
- Resample.EvenSamples: uses the corrected edge search of the Findings table, so
  the last sample is at the start of the polyline. As written, the code
  extrapolates it along the last edge scanned (Resample.EvenSamplesAsWritten,
  Resample.WrapLeavesPolygonAsWritten).
- ConvexHull.Hull: the hull is proved to be made of input points, in order, turning
  left everywhere and starting at the pivot. It is not proved to enclose every
  input point.
- ConvexHull.SortByAngle: the order produced by the browser's `Array.prototype.sort`
  is represented by one particular stable insertion sort. Hull and Scan are proved
  for whatever order the sort yields.
- Slideshow.Setup: builds the `data-images` slides in list order, the corrected
  order of the Findings table. Slideshow.SetupAsWritten has the code's reversed
  order.
- ProjectFilter.Click: the `filterBusy` flag is set when a transition starts. Its
  reset, when the latest transition's promise settles, is not modelled; it is part
  of the asynchronous sequencing.
- ProjectFilter.Classify: `isActuallyVisible` is the card's `shown` flag. Computed
  styles and measured sizes are not modelled.
- ScrollAnimations.Annotate: `opts` is always an object, and its numbers are
  integers, as at every call site.
- Carousel.ThumbWidth: widths from layout are taken as given. A negative track
  width is not excluded, although no layout produces one.

## Findings

| source | as written | input that shows it | evidently intended | confidence | as-written member | corrected member |
|---|---|---|---|---|---|---|
| assets/js/utils/fourier-math.js:86-96 | the edge index `i` only moves forward, so when `target % L` wraps to 0 on the last sample the point is extrapolated along the last edge scanned | unit square (0,0), (1,0), (1,1), (0,1) with N = 4: the fourth raw sample is (3,1), which is on no edge | the fourth sample is back at the start (0,0): the edge search restarts at 0 when the wrapped arclength lies before the current edge | not executed; high for the arithmetic, the sample is then shifted by the centring like every other | Resample.WrapLeavesPolygonAsWritten | Resample.WrapReturnsToStart |
| assets/js/about.js:73-80 | each image built from `data-images` is inserted before the root's first child, so the slides end up in reverse list order, and slide 0 is labelled with the last position | `data-images="a.jpg,b.jpg"`: the first slide shown is b.jpg, labelled "Workspace photo 2", while dot 0 reads "Go to image 1" | slides in list order, slide k labelled k + 1 like its dot | not executed; medium, since the reversal may be tolerated in practice | Slideshow.SlidesReversedAsWritten | Slideshow.SlidesMatchDots |
