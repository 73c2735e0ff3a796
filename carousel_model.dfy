/**
 * The carousel controller of js/main.js (`initCarousel`) as a pure state machine.
 *
 * `Config` holds what one carousel instance fixes when it is set up (the markup it
 * found and its `data-*` settings); `State` holds every closure variable the
 * controller reassigns (`current`, `timer`, `pointerStartX`, `dots`) together with
 * the DOM attributes it writes (track offset, slide and dot attributes, control
 * enablement) and the host's registry of live intervals. Each closure of the
 * source is a function from one `State` to the next; `Step` is what one DOM event
 * does, as wired by the listeners, and `Init` is the construction sequence.
 */
module CarouselModel {
  import opened Wrappers

  /** Horizontal travel, in CSS pixels, that a pointer must exceed to count as a swipe. */
  const SWIPE_THRESHOLD: nat := 40
  /** Autoplay period used when `data-interval` parses to NaN or to 0. */
  const DEFAULT_INTERVAL: int := 7000
  /** One slide's share of the track's width, in percent (`translateX(-current*100%)`). */
  const SLIDE_WIDTH: nat := 100

  /** The two attributes the controller writes on a slide: `aria-hidden` and `tabIndex`. */
  datatype Slide = Slide(ariaHidden: bool, tabIndex: int)

  /**
   * An indicator button: the slide its click handler goes to, and whether it carries
   * the `is-active` class (the controller sets `aria-current` to the same value).
   */
  datatype Dot = Dot(target: nat, active: bool)

  /**
   * What a carousel instance fixes at set-up: the number of slides, which optional
   * elements exist (track, previous and next controls, dot host), the `data-autoplay`
   * flag, the reduced-motion preference sampled once, and the autoplay period.
   */
  datatype Config = Config(
    slideCount: nat,
    hasTrack: bool,
    hasPrev: bool,
    hasNext: bool,
    hasDotHost: bool,
    autoplay: bool,
    reducedMotion: bool,
    interval: int)

  /**
   * Everything the controller changes. `timer` is the closure's interval handle;
   * `intervals` are the intervals the host still runs and `nextHandle` the handle the
   * host's `setInterval` returns next (handles start at 1, so the source's truthiness
   * test `if (timer)` is a presence test). `trackShift` is `Some(p)` once the track's
   * transform has been set to `translateX(-p%)`. `prevDisabled` and `nextDisabled`
   * stand for the three redundant signals the source writes on each control
   * (`disabled`, the `is-hidden` class and `aria-disabled`).
   */
  datatype State = State(
    current: nat,
    timer: Option<nat>,
    intervals: set<nat>,
    nextHandle: nat,
    pointerStart: Option<int>,
    trackShift: Option<nat>,
    slides: seq<Slide>,
    dots: seq<Dot>,
    prevDisabled: bool,
    nextDisabled: bool)

  /** The DOM events the controller listens to, as wired at the end of `initCarousel`. */
  datatype Event =
    | ClickDot(k: nat)
    | ClickPrev
    | ClickNext
    | MouseEnter
    | MouseLeave
    | VisibilityChange(hidden: bool)
    | PointerDown(x: int)
    | PointerUp(x: int)
    | PointerCancel
    | IntervalTick

  /** How a completed pointer gesture is read. */
  datatype Gesture = SwipeNext | SwipePrev | Tap

  function Min(a: int, b: int): int { if a <= b then a else b }

  function Max(a: int, b: int): int { if a >= b then a else b }

  function Abs(a: int): int { if a < 0 then -a else a }

  /** The highest index `goTo` can reach: `Math.max(slides.length - 1, 0)`. */
  function LastIndex(count: nat): nat { if count == 0 then 0 else count - 1 }

  /** The live intervals a handle accounts for. */
  function TimerSet(timer: Option<nat>): set<nat> {
    if timer.Some? then {timer.value} else {}
  }

  /** `parseInt(carousel.getAttribute('data-interval'), 10) || 7000`, with NaN as `None`. */
  function IntervalOf(parsed: Option<int>): (ms: int)
    ensures ms != 0
    ensures parsed.Some? && parsed.value != 0 ==> ms == parsed.value
    ensures parsed == None || parsed == Some(0) ==> ms == DEFAULT_INTERVAL
    ensures ms < 0 <==> parsed.Some? && parsed.value < 0
  {
    match parsed
    case None => DEFAULT_INTERVAL
    case Some(n) => if n != 0 then n else DEFAULT_INTERVAL
  }

  /** `Math.min(Math.max(index, 0), Math.max(slides.length - 1, 0))`. */
  function Clamp(index: int, count: nat): (r: nat)
    ensures r <= LastIndex(count)
    ensures 0 <= index <= LastIndex(count) ==> r == index
    ensures index < 0 ==> r == 0
    ensures index > LastIndex(count) ==> r == LastIndex(count)
  {
    Min(Max(index, 0), Max(count - 1, 0))
  }

  /**
   * A request the clamp sends back to where the carousel already is although it asked
   * for somewhere else: the source's `nextIndex === current && index !== current`.
   */
  predicate IsEdgeHit(index: int, current: nat, count: nat) {
    Clamp(index, count) == current && index != current
  }

  /** The attributes `updateAria` gives slide `i` when slide `current` is shown. */
  function SlideAt(i: nat, current: nat): Slide {
    var hidden := i != current;
    Slide(hidden, if hidden then -1 else 0)
  }

  /** The dots `createDots` builds for `n` slides, in slide order, none active yet. */
  function NewDots(n: nat): (dots: seq<Dot>)
    ensures |dots| == n
    ensures forall i :: 0 <= i < n ==> dots[i] == Dot(i, false)
  {
    if n == 0 then [] else NewDots(n - 1) + [Dot(n - 1, false)]
  }

  /** `createDots`: with a dot host, one inactive dot per slide is appended to `dots`. */
  function CreateDots(c: Config, s: State): State {
    if !c.hasDotHost then s else s.(dots := s.dots + NewDots(c.slideCount))
  }

  /** Slides and dots show `current` and nothing else. */
  predicate AriaSynced(s: State) {
    && (forall i :: 0 <= i < |s.slides| ==> s.slides[i] == SlideAt(i, s.current))
    && (forall i :: 0 <= i < |s.dots| ==> s.dots[i].active == (i == s.current))
  }

  /** `updateAria`: every slide and every dot is recomputed from `current`. */
  function UpdateAria(s: State): (t: State)
    ensures |t.slides| == |s.slides| && |t.dots| == |s.dots|
    ensures AriaSynced(t)
    ensures forall i :: 0 <= i < |t.dots| ==> t.dots[i].target == s.dots[i].target
    ensures t == s.(slides := t.slides, dots := t.dots)
  {
    s.(slides := seq(|s.slides|, i requires 0 <= i < |s.slides| => SlideAt(i, s.current)),
       dots := seq(|s.dots|, i requires 0 <= i < |s.dots| => s.dots[i].(active := i == s.current)))
  }

  /** Each existing control is disabled exactly when it has nowhere to go. */
  predicate ControlsSynced(c: Config, s: State) {
    && (c.hasPrev ==> s.prevDisabled == (s.current == 0))
    && (c.hasNext ==> s.nextDisabled == (s.current + 1 >= c.slideCount))
  }

  /** `updateControls`: nothing happens without controls; otherwise each one present is refreshed. */
  function UpdateControls(c: Config, s: State): (t: State)
    ensures ControlsSynced(c, t)
    ensures !c.hasPrev ==> t.prevDisabled == s.prevDisabled
    ensures !c.hasNext ==> t.nextDisabled == s.nextDisabled
    ensures t == s.(prevDisabled := t.prevDisabled, nextDisabled := t.nextDisabled)
  {
    if !c.hasPrev && !c.hasNext then s
    else
      var hasPrev := s.current > 0;
      var hasNext := s.current < c.slideCount - 1;
      s.(prevDisabled := if c.hasPrev then !hasPrev else s.prevDisabled,
         nextDisabled := if c.hasNext then !hasNext else s.nextDisabled)
  }

  /** `pauseAutoplay`: a held interval is cleared and the handle dropped. */
  function Pause(s: State): State {
    if s.timer.Some? then s.(intervals := s.intervals - {s.timer.value}, timer := None) else s
  }

  /**
   * `restartAutoplay`: nothing without autoplay or under reduced motion; otherwise a held
   * interval is cleared (its handle is kept) and, with more than one slide, a new
   * interval is scheduled and its handle stored.
   */
  function Restart(c: Config, s: State): State {
    if !c.autoplay || c.reducedMotion then s
    else
      var cleared := if s.timer.Some? then s.(intervals := s.intervals - {s.timer.value}) else s;
      if c.slideCount > 1 then
        cleared.(timer := Some(s.nextHandle),
                 intervals := cleared.intervals + {s.nextHandle},
                 nextHandle := s.nextHandle + 1)
      else cleared
  }

  /** `goTo(index, userInitiated)`. */
  function GoTo(c: Config, s: State, index: int, userInitiated: bool): State {
    if !c.hasTrack then s
    else
      var target := Clamp(index, c.slideCount);
      if target == s.current && index != s.current then
        UpdateControls(c, if userInitiated then s else Pause(s))
      else
        var moved := s.(current := target, trackShift := Some(target * SLIDE_WIDTH));
        var shown := UpdateControls(c, UpdateAria(moved));
        if userInitiated then Restart(c, shown) else shown
  }

  /** `goNext(userInitiated)`: at the last slide it never wraps; the timer stops if it asked. */
  function GoNext(c: Config, s: State, userInitiated: bool): State {
    if s.current >= c.slideCount - 1 then
      if userInitiated then s else Pause(s)
    else GoTo(c, s, s.current + 1, userInitiated)
  }

  /** `goPrev(userInitiated)`: at the first slide nothing happens. */
  function GoPrev(c: Config, s: State, userInitiated: bool): State {
    if s.current <= 0 then s else GoTo(c, s, s.current - 1, userInitiated)
  }

  /** How `pointerup` reads the travel from `startX` to `endX`. */
  function Classify(startX: int, endX: int): (g: Gesture)
    ensures g == SwipeNext <==> endX < startX - SWIPE_THRESHOLD
    ensures g == SwipePrev <==> endX > startX + SWIPE_THRESHOLD
    ensures g == Tap <==> startX - SWIPE_THRESHOLD <= endX <= startX + SWIPE_THRESHOLD
  {
    var delta := endX - startX;
    if Abs(delta) > SWIPE_THRESHOLD then
      if delta < 0 then SwipeNext else SwipePrev
    else Tap
  }

  /** The track's `pointerdown` listener: the start coordinate is captured. */
  function OnPointerDown(c: Config, s: State, x: int): State {
    if c.hasTrack then s.(pointerStart := Some(x)) else s
  }

  /** The track's `pointerup` listener. */
  function OnPointerUp(c: Config, s: State, x: int): State {
    if !c.hasTrack then s
    else
      match s.pointerStart
      case None => s
      case Some(startX) =>
        var released := s.(pointerStart := None);
        match Classify(startX, x)
        case SwipeNext => GoNext(c, released, true)
        case SwipePrev => GoPrev(c, released, true)
        case Tap => released
  }

  /** The track's `pointercancel` listener: the start coordinate is dropped. */
  function OnPointerCancel(c: Config, s: State): State {
    if c.hasTrack then s.(pointerStart := None) else s
  }

  /**
   * One event, as the listeners registered by `initCarousel` handle it. A listener that
   * the source only registers when its element exists (the controls, the track) or
   * when autoplay may run (`visibilitychange`) leaves the state alone otherwise; the
   * host only fires an interval that is still live.
   */
  function Step(c: Config, s: State, e: Event): State {
    match e
    case ClickDot(k) => if k < |s.dots| then GoTo(c, s, s.dots[k].target, true) else s
    case ClickPrev => if c.hasPrev then GoPrev(c, s, true) else s
    case ClickNext => if c.hasNext then GoNext(c, s, true) else s
    case MouseEnter => Pause(s)
    case MouseLeave => Restart(c, s)
    case VisibilityChange(hidden) =>
      if c.autoplay && !c.reducedMotion then
        if hidden then Pause(s) else Restart(c, s)
      else s
    case PointerDown(x) => OnPointerDown(c, s, x)
    case PointerUp(x) => OnPointerUp(c, s, x)
    case PointerCancel => OnPointerCancel(c, s)
    case IntervalTick => if s.timer.Some? then GoNext(c, s, false) else s
  }

  /** A sequence of events, handled in the order the host delivers them. */
  function Run(c: Config, s: State, events: seq<Event>): State
    decreases |events|
  {
    if events == [] then s else Run(c, Step(c, s, events[0]), events[1..])
  }

  /** `k` firings of the autoplay interval. */
  function Ticks(c: Config, s: State, k: nat): State
    decreases k
  {
    if k == 0 then s else Ticks(c, Step(c, s, IntervalTick), k - 1)
  }

  /** The closure variables as `initCarousel` declares them, over the slides' markup. */
  function Blank(markup: seq<Slide>): State {
    State(0, None, {}, 1, None, None, markup, [], false, false)
  }

  /**
   * The construction sequence: `createDots()`, `goTo(0, false)`, `updateControls()`,
   * and, when autoplay may run, `restartAutoplay()`.
   */
  function Init(c: Config, markup: seq<Slide>): State {
    var wired := GoTo(c, CreateDots(c, Blank(markup)), 0, false);
    var shown := UpdateControls(c, wired);
    if c.autoplay && !c.reducedMotion then Restart(c, shown) else shown
  }

  /** The track offset and the slide and dot attributes all show `current`. */
  predicate TrackSynced(s: State) {
    s.trackShift == Some(s.current * SLIDE_WIDTH) && AriaSynced(s)
  }

  /** Dot `i` exists for slide `i` exactly when there is a dot host. */
  predicate DotsWired(c: Config, dots: seq<Dot>) {
    && |dots| == (if c.hasDotHost then c.slideCount else 0)
    && forall i :: 0 <= i < |dots| ==> dots[i].target == i
  }

  /**
   * What holds of every state a constructed carousel can reach: the index is in range,
   * the dots match the slides, at most one interval is live and it is the held one,
   * a timer runs only when autoplay may run over more than one slide, the controls
   * and (with a track) the slides and dots show the current index, and without a
   * track nothing has moved.
   */
  predicate Consistent(c: Config, s: State) {
    && |s.slides| == c.slideCount
    && s.current <= LastIndex(c.slideCount)
    && DotsWired(c, s.dots)
    && s.intervals == TimerSet(s.timer)
    && (s.timer.Some? ==> c.autoplay && !c.reducedMotion && c.slideCount > 1)
    && (s.timer.Some? ==> s.timer.value < s.nextHandle)
    && ControlsSynced(c, s)
    && (c.hasTrack ==> TrackSynced(s))
    && (!c.hasTrack ==> s.current == 0 && s.pointerStart == None)
  }
}
