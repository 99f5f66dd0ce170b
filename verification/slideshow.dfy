/**
 * The workspace slideshow of the about page: slides come from the markup or from a
 * comma-separated `data-images` attribute, one slide (and its dot) is active at a
 * time, and an interval timer advances it. Mouse hover pauses the timer; every
 * navigation restarts it. Interval handles are modelled as numbers allocated in
 * order, and the browser's set of live intervals is part of the state, so that "at
 * most one interval runs" can be stated.
 */
module Slideshow {
  import opened Wrappers
  import opened JsText

  const DefaultInterval: int := 4500

  /** `parseInt(root.getAttribute('data-interval') || '4500', 10)`, with NaN replaced
      by 4500: a missing or empty attribute, or one `parseInt` finds no number in,
      gives 4500; otherwise the number `parseInt` reads. */
  function IntervalFromAttribute(attr: Option<string>): (ms: int)
    ensures attr == None || attr == Some("") ==> ms == DefaultInterval
    ensures ParseInt(Or(attr, "4500")).None? ==> ms == DefaultInterval
    ensures ParseInt(Or(attr, "4500")).Some? ==> ms == ParseInt(Or(attr, "4500")).value
  {
    var text := Or(attr, "4500");
    DefaultIntervalText();
    ParseIntOfIntToString(DefaultInterval);
    match ParseInt(text)
    case None => DefaultInterval
    case Some(v) => v
  }

  /** The fallback text '4500' is the decimal form of 4500. */
  lemma DefaultIntervalText()
    ensures IntToString(DefaultInterval) == "4500"
  {
    assert DigitChar(4) == '4' && DigitChar(5) == '5' && DigitChar(0) == '0';
    assert NatToString(4) == "4";
    assert NatToString(45) == NatToString(4) + "5";
    assert NatToString(450) == NatToString(45) + "0";
    assert NatToString(4500) == NatToString(450) + "0";
  }

  /** Any integer written into `data-interval` is the interval the slideshow uses. */
  lemma IntervalRoundTrip(n: int)
    ensures IntervalFromAttribute(Some(IntToString(n))) == n
  {
    ParseIntOfIntToString(n);
    assert IntToString(n) != "" by {
      assert |NatToString(if n < 0 then -n else n)| >= 1;
    }
  }

  /** A number followed by a unit, as in `data-interval="300ms"`, gives that number. */
  lemma IntervalWithUnit(n: int, unit: string)
    requires NoDigitFirst(unit)
    ensures IntervalFromAttribute(Some(IntToString(n) + unit)) == n
  {
    ParseIntWithSuffix(n, unit);
    assert |IntToString(n) + unit| >= |NatToString(if n < 0 then -n else n)| >= 1;
  }

  /** An attribute that starts with anything but whitespace, a sign or a digit, as in
      `data-interval="fast"`, gives 4500. */
  lemma IntervalNotANumber(text: string)
    requires text != "" && !IsWhitespace(text[0]) && !IsDigit(text[0]) && text[0] != '-' && text[0] != '+'
    ensures IntervalFromAttribute(Some(text)) == DefaultInterval
  {
    ParseIntNoNumber(text);
  }

  /** Leading whitespace in the attribute is skipped. */
  lemma IntervalSkipsWhitespace(text: string)
    requires text != "" && IsWhitespace(text[0])
    ensures IntervalFromAttribute(Some(text)) == IntervalFromAttribute(Some(text[1..]))
  {
    ParseIntSkipsWhitespace(text);
    var tail := text[1..];
    if tail == "" {
      ParseIntNoNumber("");
      assert IntervalFromAttribute(Some(tail)) == DefaultInterval;
    } else {
      assert Or(Some(tail), "4500") == tail;
    }
    assert Or(Some(text), "4500") == text;
  }

  /** The image list of `data-images`: split on commas, trimmed, empty items dropped.
      Every item is a non-empty trimmed string. */
  function ParseImageList(attr: Option<string>): (list: seq<string>)
    ensures forall i :: 0 <= i < |list| ==> list[i] != "" && IsTrimmed(list[i])
    ensures exists parts :: CommaPieces(Or(attr, ""), parts) && list == NonEmpty(TrimAll(parts))
  {
    var parts := Split(Or(attr, ""), ',');
    assert CommaPieces(Or(attr, ""), parts);
    NonEmpty(TrimAll(parts))
  }

  /** `parts` are the comma-free pieces that joined with commas give `text`. */
  predicate CommaPieces(text: string, parts: seq<string>) {
    && |parts| >= 1
    && (forall i :: 0 <= i < |parts| ==> ',' !in parts[i])
    && Join(parts, ',') == text
  }

  /** Any text written as comma-free pieces joined by commas, as in
      `" a.jpg , ,b.jpg"`, lists those pieces trimmed, with the empty ones dropped. */
  lemma ImageListOfPieces(xs: seq<string>)
    requires |xs| >= 1 && forall i :: 0 <= i < |xs| ==> ',' !in xs[i]
    ensures ParseImageList(Some(Join(xs, ','))) == NonEmpty(TrimAll(xs))
  {
    SplitJoin(xs, ',');
  }

  /** Joining at least one non-empty name gives a non-empty text. */
  lemma JoinNonEmpty(files: seq<string>)
    requires |files| >= 1 && files[0] != ""
    ensures Join(files, ',') != ""
  {
    if |files| > 1 {
      assert Join(files, ',') == files[0] + [','] + Join(files[1..], ',');
    }
  }

  /** Writing a list of clean file names (non-empty, no surrounding white space, no
      comma) into `data-images` gives that list back. */
  lemma ImageListRoundTrip(files: seq<string>)
    requires forall i :: 0 <= i < |files| ==> files[i] != "" && IsTrimmed(files[i]) && ',' !in files[i]
    ensures ParseImageList(Some(Join(files, ','))) == files
  {
    if |files| == 0 {
      NoImages();
    } else {
      SomeImages(files);
    }
  }

  /** A non-empty list of clean file names survives the round trip. */
  lemma SomeImages(files: seq<string>)
    requires |files| >= 1
    requires forall i :: 0 <= i < |files| ==> files[i] != "" && IsTrimmed(files[i]) && ',' !in files[i]
    ensures ParseImageList(Some(Join(files, ','))) == files
  {
    JoinNonEmpty(files);
    var text := Join(files, ',');
    assert Or(Some(text), "") == text;
    SplitJoin(files, ',');
    TrimAllOfTrimmed(files);
    assert TrimAll(Split(text, ',')) == files;
  }

  /** An empty `data-images` gives no images. */
  lemma NoImages()
    ensures ParseImageList(Some("")) == []
  {
    assert Split("", ',') == [""];
    assert TrimAll([""]) == [Trim("")];
  }

  /** An image of the slideshow: its source and its alternative text. */
  datatype Slide = Slide(src: string, alt: string)

  /** `Workspace photo ${i + 1}`. */
  function PhotoLabel(i: nat): string {
    "Workspace photo " + NatToString(i + 1)
  }

  /** `Go to image ${idx + 1}`, the label of the dot for slide `idx`. */
  function DotLabel(idx: nat): string {
    "Go to image " + NatToString(idx + 1)
  }

  /** The slides built from `data-images` as the source does it: every image is
      inserted before the root's first child, so the document order, and with it the
      slide order, is the reverse of the list. */
  function BuildSlidesAsWritten(list: seq<string>): (slides: seq<Slide>)
    ensures |slides| == |list|
    ensures forall k :: 0 <= k < |list| ==> slides[k] == Slide(list[|list| - 1 - k], PhotoLabel(|list| - 1 - k))
  {
    if |list| == 0 then []
    else [Slide(list[|list| - 1], PhotoLabel(|list| - 1))] + BuildSlidesAsWritten(list[..|list| - 1])
  }

  /** Distinct positions get distinct photo labels. */
  lemma PhotoLabelInjective(i: nat, j: nat)
    requires i != j
    ensures PhotoLabel(i) != PhotoLabel(j)
  {
    var prefix := "Workspace photo ";
    DigitsValueOfNatToString(i + 1);
    DigitsValueOfNatToString(j + 1);
    assert NatToString(i + 1) != NatToString(j + 1);
    assert PhotoLabel(i)[|prefix|..] == NatToString(i + 1);
    assert PhotoLabel(j)[|prefix|..] == NatToString(j + 1);
  }

  /** With two or more images the first slide shown is the last one listed, and its
      label names the last position rather than the first. */
  lemma SlidesReversedAsWritten(list: seq<string>)
    requires |list| >= 2
    ensures var slides := BuildSlidesAsWritten(list);
            slides[0].src == list[|list| - 1] && slides[0].alt == PhotoLabel(|list| - 1)
            && slides[0].alt != PhotoLabel(0)
  {
    PhotoLabelInjective(|list| - 1, 0);
  }

  /** `data-images="a.jpg,b.jpg"` lists `a.jpg` first. */
  lemma TwoImages()
    ensures ParseImageList(Some("a.jpg,b.jpg")) == ["a.jpg", "b.jpg"]
  {
    var files := ["a.jpg", "b.jpg"];
    assert Join(files, ',') == "a.jpg,b.jpg" by {
      assert Join(files[1..], ',') == "b.jpg";
    }
    ImageListRoundTrip(files);
  }

  /** The slides in list order, each labelled with its position: the order the labels
      and the dots imply, used in place of the reversal `insertBefore` produces. */
  function BuildSlides(list: seq<string>): (slides: seq<Slide>)
    ensures |slides| == |list|
    ensures forall k :: 0 <= k < |list| ==> slides[k].src == list[k]
    ensures forall k :: 0 <= k < |list| ==> slides[k].alt == PhotoLabel(k)
  {
    seq(|list|, k requires 0 <= k < |list| => Slide(list[k], PhotoLabel(k)))
  }

  /** With list order kept, slide `k` and dot `k` carry the same number, and the first
      slide shown is the first image listed. */
  lemma SlidesMatchDots(list: seq<string>, k: nat)
    requires k < |list|
    ensures var slides := BuildSlides(list);
            slides[k].alt[|"Workspace photo "|..] == DotLabel(k)[|"Go to image "|..]
            && slides[0].src == list[0]
  {
  }

  /** The slideshow's state. `active`, `kenBurns` and `dots` are the class flags of the
      slides and dots; `timer` is the handle in the `timer` variable; `live` is the
      set of intervals the browser is running; `nextHandle` is the handle the next
      `setInterval` returns (browsers hand out positive handles, so they are truthy). */
  datatype Show = Show(
    slides: seq<Slide>,
    active: seq<bool>,
    kenBurns: seq<bool>,
    dots: seq<bool>,
    index: nat,
    timer: Option<nat>,
    live: set<nat>,
    nextHandle: nat)

  /** Exactly the flag at `i` is set. */
  predicate OnlyAt(flags: seq<bool>, i: nat) {
    forall k :: 0 <= k < |flags| ==> (flags[k] <==> k == i)
  }

  /** The class flags `applyActive(i)` leaves on `n` elements: only the one at `i` set. */
  function Flags(n: nat, i: nat): (f: seq<bool>)
    ensures |f| == n && OnlyAt(f, i)
  {
    seq(n, k => k == i)
  }

  /** What every reachable state satisfies: at least one slide, the slide and dot
      flags in step with the current index, and at most one live interval — the one
      whose handle `timer` holds. */
  predicate Valid(s: Show) {
    && |s.slides| >= 1
    && s.index < |s.slides|
    && s.active == Flags(|s.slides|, s.index)
    && s.kenBurns == Flags(|s.slides|, s.index)
    && s.dots == Flags(|s.slides|, s.index)
    && s.nextHandle >= 1
    && (s.timer == None ==> s.live == {})
    && (s.timer.Some? ==> s.live == {s.timer.value} && 1 <= s.timer.value < s.nextHandle)
  }

  /** `applyActive(i)`: slide `i` and dot `i` become the only active ones. */
  function ApplyActive(s: Show, i: nat): (r: Show)
    requires i < |s.slides| && |s.dots| == |s.slides|
    ensures r.index == i && r.slides == s.slides
    ensures |r.active| == |r.kenBurns| == |r.dots| == |s.slides|
    ensures OnlyAt(r.active, i) && OnlyAt(r.kenBurns, i) && OnlyAt(r.dots, i)
    ensures r.timer == s.timer && r.live == s.live && r.nextHandle == s.nextHandle
  {
    var n := |s.slides|;
    s.(active := Flags(n, i), kenBurns := Flags(n, i), dots := Flags(n, i), index := i)
  }

  /** `startTimer()`: does nothing while a timer is set, otherwise starts one interval. */
  function StartTimer(s: Show): (r: Show)
    ensures s.timer.Some? ==> r == s
    ensures s.timer == None ==> r.timer == Some(s.nextHandle) && r.live == s.live + {s.nextHandle}
    ensures r.index == s.index && r.slides == s.slides && r.active == s.active && r.dots == s.dots
  {
    if s.timer.Some? then s
    else s.(timer := Some(s.nextHandle), live := s.live + {s.nextHandle}, nextHandle := s.nextHandle + 1)
  }

  /** `stopTimer()`: clears the running interval, if any. */
  function StopTimer(s: Show): (r: Show)
    ensures r.timer == None
    ensures s.timer.Some? ==> r.live == s.live - {s.timer.value}
    ensures s.timer == None ==> r == s
    ensures r.index == s.index && r.slides == s.slides && r.active == s.active && r.dots == s.dots
  {
    match s.timer
    case Some(h) => s.(timer := None, live := s.live - {h})
    case None => s
  }

  /** `goTo(i)`: show slide `i` and restart the timer. */
  function GoTo(s: Show, i: nat): (r: Show)
    requires Valid(s) && i < |s.slides|
    ensures Valid(r) && r.index == i && r.slides == s.slides && r.timer.Some?
  {
    StartTimer(StopTimer(ApplyActive(s, i)))
  }

  function Next(s: Show): (r: Show)
    requires Valid(s)
    ensures Valid(r) && r.index == (s.index + 1) % |s.slides|
  {
    GoTo(s, (s.index + 1) % |s.slides|)
  }

  function Prev(s: Show): (r: Show)
    requires Valid(s)
    ensures Valid(r) && r.index == (s.index - 1 + |s.slides|) % |s.slides|
  {
    GoTo(s, (s.index - 1 + |s.slides|) % |s.slides|)
  }

  /** What the page can do to the slideshow. A tick names the interval that fired. */
  datatype Event = PrevClick | NextClick | DotClick(i: nat) | Tick(handle: nat) | MouseEnter | MouseLeave

  /** The handlers: arrows and dots navigate, a live interval's tick advances, hover
      stops the timer and leaving starts it. A dot that does not exist cannot be
      clicked and an interval that was cleared does not fire. Every step keeps the
      state valid. */
  function Step(s: Show, e: Event): (r: Show)
    requires Valid(s)
    ensures Valid(r) && r.slides == s.slides
  {
    match e
    case PrevClick => Prev(s)
    case NextClick => Next(s)
    case DotClick(i) => if i < |s.slides| then GoTo(s, i) else s
    case Tick(h) => if h in s.live then Next(s) else s
    case MouseEnter => StopTimer(s)
    case MouseLeave => StartTimer(s)
  }

  /** What each event does to the current slide and the timer. */
  lemma StepEffects(s: Show, e: Event)
    requires Valid(s)
    ensures var r := Step(s, e);
      && (e.MouseEnter? ==> r.timer == None && r.live == {} && r.index == s.index)
      && (e.MouseLeave? ==> r.timer.Some? && r.index == s.index)
      && (e.NextClick? || (e.Tick? && e.handle in s.live) ==> r.index == (s.index + 1) % |s.slides|)
      && (e.PrevClick? ==> r.index == (s.index + |s.slides| - 1) % |s.slides|)
      && (e.DotClick? && e.i < |s.slides| ==> r.index == e.i)
      && ((e.DotClick? && e.i >= |s.slides|) || (e.Tick? && e.handle !in s.live) ==> r == s)
      && (e.NextClick? || e.PrevClick? || (e.DotClick? && e.i < |s.slides|) || (e.Tick? && e.handle in s.live)
          ==> r.timer.Some? && r.nextHandle > s.nextHandle)
  {
  }

  /** The state after `applyActive(0); startTimer()` on a non-empty slide list. */
  function Start(slides: seq<Slide>): (s: Show)
    requires |slides| >= 1
    ensures Valid(s) && s.index == 0 && s.slides == slides && s.timer.Some?
  {
    var n := |slides|;
    StartTimer(Show(slides, Flags(n, 0), Flags(n, 0), Flags(n, 0), 0, None, {}, 1))
  }

  /** `setupWorkspaceSlideshow` with the slides from `data-images` in list order (the
      corrected order): slides from the markup, or else built from `data-images`; no
      slideshow when there are none. */
  function Setup(markup: seq<Slide>, dataImages: Option<string>): (s: Option<Show>)
    ensures s.Some? <==> |markup| > 0 || |ParseImageList(dataImages)| > 0
    ensures |markup| > 0 ==> s.Some? && s.value.slides == markup
    ensures s.Some? ==> Valid(s.value) && s.value.index == 0 && s.value.timer.Some?
    ensures |markup| == 0 && s.Some? ==>
              var list := ParseImageList(dataImages);
              && |s.value.slides| == |list|
              && forall k :: 0 <= k < |list| ==> s.value.slides[k] == Slide(list[k], PhotoLabel(k))
  {
    var slides := if |markup| > 0 then markup else BuildSlides(ParseImageList(dataImages));
    if |slides| == 0 then None else Some(Start(slides))
  }

  /** `setupWorkspaceSlideshow` as written: the slides built from `data-images` come
      out in reverse list order, slide k being list item N - 1 - k with its label. */
  function SetupAsWritten(markup: seq<Slide>, dataImages: Option<string>): (s: Option<Show>)
    ensures s.Some? <==> |markup| > 0 || |ParseImageList(dataImages)| > 0
    ensures |markup| > 0 ==> s.Some? && s.value.slides == markup
    ensures s.Some? ==> Valid(s.value) && s.value.index == 0 && s.value.timer.Some?
    ensures |markup| == 0 && s.Some? ==>
              var list := ParseImageList(dataImages);
              var n := |list|;
              && |s.value.slides| == n
              && forall k :: 0 <= k < n ==> s.value.slides[k] == Slide(list[n - 1 - k], PhotoLabel(n - 1 - k))
  {
    var slides := if |markup| > 0 then markup else BuildSlidesAsWritten(ParseImageList(dataImages));
    if |slides| == 0 then None else Some(Start(slides))
  }

  /** As written, `data-images="a.jpg,b.jpg"` opens on b.jpg labelled "Workspace photo
      2", while the highlighted dot is the first one, "Go to image 1". */
  lemma OpensOnLastImageAsWritten()
    ensures var s := SetupAsWritten([], Some("a.jpg,b.jpg"));
            && s.Some? && s.value.index == 0 && s.value.dots[0]
            && s.value.slides[0] == Slide("b.jpg", PhotoLabel(1))
            && PhotoLabel(1) != PhotoLabel(0)
  {
    TwoImages();
    PhotoLabelInjective(1, 0);
  }

  /** A run of events from a valid state. */
  function Run(s: Show, es: seq<Event>): (r: Show)
    requires Valid(s)
    ensures Valid(r) && r.slides == s.slides
    decreases |es|
  {
    if |es| == 0 then s else Step(Run(s, es[..|es| - 1]), es[|es| - 1])
  }

  /** In every state a set-up slideshow reaches, at most one interval is live and it is
      the one `timer` holds, so the guard in `startTimer` never lets a second one run. */
  lemma AtMostOneInterval(markup: seq<Slide>, dataImages: Option<string>, es: seq<Event>)
    requires Setup(markup, dataImages).Some?
    ensures var r := Run(Setup(markup, dataImages).value, es);
            && |r.live| <= 1
            && forall h :: h in r.live ==> r.timer == Some(h)
  {
  }

  /** In every state a set-up slideshow reaches, exactly one slide is shown (with the
      Ken Burns effect) and exactly its dot is highlighted. */
  lemma ExactlyOneActive(markup: seq<Slide>, dataImages: Option<string>, es: seq<Event>)
    requires Setup(markup, dataImages).Some?
    ensures var r := Run(Setup(markup, dataImages).value, es);
            && OnlyAt(r.active, r.index) && OnlyAt(r.kenBurns, r.index) && OnlyAt(r.dots, r.index)
            && |r.active| == |r.kenBurns| == |r.dots| == |r.slides| && r.index < |r.slides|
  {
  }

  /** `k` successive events `e`. */
  function Repeat(s: Show, e: Event, k: nat): (r: Show)
    requires Valid(s)
    ensures Valid(r) && r.slides == s.slides
    decreases k
  {
    if k == 0 then s else Step(Repeat(s, e, k - 1), e)
  }

  /** A click on the next arrow moves one slide forward, wrapping round. */
  lemma NextClickIndex(s: Show)
    requires Valid(s)
    ensures Step(s, NextClick).index == (s.index + 1) % |s.slides|
  {
  }

  /** The slide reached from `i` after `k` steps forward round `n` slides. */
  function Forward(i: nat, n: nat, k: nat): nat
    requires n >= 1
    decreases k
  {
    if k == 0 then i else (Forward(i, n, k - 1) + 1) % n
  }

  lemma {:induction false} RepeatedNextIndex(s: Show, k: nat)
    requires Valid(s)
    ensures Repeat(s, NextClick, k).index == Forward(s.index, |s.slides|, k)
    decreases k
  {
    if k > 0 {
      var prev := Repeat(s, NextClick, k - 1);
      RepeatedNextIndex(s, k - 1);
      NextClickIndex(prev);
      var n := |s.slides|;
      assert |prev.slides| == n;
      var f := Forward(s.index, n, k - 1);
      assert prev.index == f;
      assert Forward(s.index, n, k) == (f + 1) % n;
    }
  }

  /** `k` steps forward from `i` land on `(i + k) % n`. */
  lemma {:induction false} ForwardWraps(i: nat, n: nat, k: nat)
    requires i < n
    ensures Forward(i, n, k) == (i + k) % n
    decreases k
  {
    if k == 0 {
      ModUnique(i, 0, i, n);
    } else {
      ForwardWraps(i, n, k - 1);
      ModSuccessor(i + (k - 1), i + k, n);
    }
  }

  /** `k` clicks on the next arrow move `k` slides forward, wrapping round. */
  lemma NextClicksWrap(s: Show, k: nat)
    requires Valid(s)
    ensures Repeat(s, NextClick, k).index == (s.index + k) % |s.slides|
  {
    RepeatedNextIndex(s, k);
    ForwardWraps(s.index, |s.slides|, k);
  }

  lemma MulSign(k: int, n: int)
    requires n >= 1
    ensures k >= 1 ==> k * n >= n
    ensures k <= -1 ==> k * n <= -n
  {
    if k >= 1 {
      assert k * n >= 1 * n;
    } else if k <= -1 {
      assert k * n <= -1 * n;
    }
  }

  lemma MultipleInWindow(k: int, n: int)
    requires n >= 1 && -n < k * n < n
    ensures k == 0
  {
    MulSign(k, n);
  }

  /** The remainder is the unique `r` in `[0, n)` with `x = q * n + r`. */
  lemma ModUnique(x: int, q: int, r: int, n: int)
    requires n >= 1 && 0 <= r < n && x == q * n + r
    ensures x % n == r
  {
    assert x == n * (x / n) + x % n;
    assert (q - x / n) * n == x % n - r;
    MultipleInWindow(q - x / n, n);
  }

  /** Stepping the remainder is stepping the number. */
  lemma ModSuccessor(a: nat, b: nat, n: nat)
    requires n >= 1 && b == a + 1
    ensures (a % n + 1) % n == b % n
  {
    var q, r := a / n, a % n;
    assert a == q * n + r;
    if r + 1 < n {
      ModUnique(r + 1, 0, r + 1, n);
      ModUnique(b, q, r + 1, n);
    } else {
      ModUnique(r + 1, 1, 0, n);
      ModUnique(b, q + 1, 0, n);
    }
  }

  /** A click on the previous arrow moves one slide back, wrapping round. */
  lemma PrevClickIndex(s: Show)
    requires Valid(s)
    ensures Step(s, PrevClick).index == (s.index + |s.slides| - 1) % |s.slides|
  {
  }

  /** Going forward and then back returns to the same slide, with the same slide and
      dot highlighted. */
  lemma PrevUndoesNext(s: Show)
    requires Valid(s)
    ensures var r := Step(Step(s, NextClick), PrevClick);
            r.index == s.index && r.active == s.active && r.kenBurns == s.kenBurns && r.dots == s.dots
  {
    var n := |s.slides|;
    var mid := Step(s, NextClick);
    var r := Step(mid, PrevClick);
    NextClickIndex(s);
    PrevClickIndex(mid);
    if s.index + 1 < n {
      ModUnique(s.index + 1, 0, s.index + 1, n);
      ModUnique(s.index + 1 + n - 1, 1, s.index, n);
    } else {
      ModUnique(s.index + 1, 1, 0, n);
      ModUnique(n - 1, 0, s.index, n);
    }
    SameOnlyAt(r.active, s.active, s.index);
    SameOnlyAt(r.kenBurns, s.kenBurns, s.index);
    SameOnlyAt(r.dots, s.dots, s.index);
  }

  /** Going back and then forward returns to the same slide, with the same slide and
      dot highlighted. */
  lemma NextUndoesPrev(s: Show)
    requires Valid(s)
    ensures var r := Step(Step(s, PrevClick), NextClick);
            r.index == s.index && r.active == s.active && r.kenBurns == s.kenBurns && r.dots == s.dots
  {
    var n := |s.slides|;
    var mid := Step(s, PrevClick);
    var r := Step(mid, NextClick);
    PrevClickIndex(s);
    NextClickIndex(mid);
    if s.index >= 1 {
      ModUnique(s.index - 1 + n, 1, s.index - 1, n);
      ModUnique(s.index - 1 + 1, 0, s.index, n);
    } else {
      ModUnique(n - 1, 0, n - 1, n);
      ModUnique(n - 1 + 1, 1, 0, n);
    }
    SameOnlyAt(r.active, s.active, s.index);
    SameOnlyAt(r.kenBurns, s.kenBurns, s.index);
    SameOnlyAt(r.dots, s.dots, s.index);
  }

  /** Two flag lists of one length with the same single set flag are equal. */
  lemma SameOnlyAt(a: seq<bool>, b: seq<bool>, i: nat)
    requires |a| == |b| && OnlyAt(a, i) && OnlyAt(b, i)
    ensures a == b
  {
    assert forall k :: 0 <= k < |a| ==> a[k] == b[k];
  }

  /** Hover pauses autoplay, but a click on an arrow while the mouse is still over
      the slideshow starts the timer again. */
  lemma ClickWhileHoveredResumes(s: Show)
    requires Valid(s)
    ensures Step(s, MouseEnter).timer == None
    ensures Step(Step(s, MouseEnter), NextClick).timer.Some?
  {
    StepEffects(s, MouseEnter);
    StepEffects(Step(s, MouseEnter), NextClick);
  }
}
