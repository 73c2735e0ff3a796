/**
 * What the carousel controller of js/main.js promises, proved of the state machine in
 * `CarouselModel`: the invariant every event keeps, the two outcomes of `goTo`, the
 * absence of looping, the autoplay lifecycle, the swipe threshold and the
 * construction sequence.
 */
module CarouselProperties {
  import opened Wrappers
  import opened CarouselModel

  // ---------------------------------------------------------------------------
  // Recomputing what already shows the current index changes nothing
  // ---------------------------------------------------------------------------

  lemma ControlsFixed(c: Config, s: State)
    requires ControlsSynced(c, s)
    ensures UpdateControls(c, s) == s
  {
  }

  lemma AriaFixed(s: State)
    requires AriaSynced(s)
    ensures UpdateAria(s) == s
  {
    var t := UpdateAria(s);
    assert t.slides == s.slides;
    assert t.dots == s.dots;
  }

  // ---------------------------------------------------------------------------
  // Autoplay lifecycle
  // ---------------------------------------------------------------------------

  /** `pauseAutoplay` leaves no live interval and no handle, changes nothing else, and is idempotent. */
  lemma PauseEffect(c: Config, s: State)
    requires Consistent(c, s)
    ensures Pause(s) == s.(timer := None, intervals := {})
    ensures Consistent(c, Pause(s))
    ensures Pause(Pause(s)) == Pause(s)
  {
  }

  /**
   * `restartAutoplay` does nothing without autoplay or under reduced motion; otherwise the
   * old interval is cancelled and exactly one fresh interval runs afterwards iff there
   * is more than one slide. Nothing but the timer changes.
   */
  lemma RestartEffect(c: Config, s: State)
    requires Consistent(c, s)
    ensures var t := Restart(c, s);
      && (!c.autoplay || c.reducedMotion ==> t == s)
      && (c.autoplay && !c.reducedMotion ==>
            && (t.timer.Some? <==> c.slideCount > 1)
            && |t.intervals| == (if c.slideCount > 1 then 1 else 0)
            && (t.timer.Some? ==> t.timer.value in t.intervals && t.timer.value !in s.intervals))
      && t.(timer := s.timer, intervals := s.intervals, nextHandle := s.nextHandle) == s
      && Consistent(c, t)
  {
    var t := Restart(c, s);
    if c.autoplay && !c.reducedMotion && c.slideCount > 1 {
      assert t.intervals == {s.nextHandle};
    }
  }

  // ---------------------------------------------------------------------------
  // goTo
  // ---------------------------------------------------------------------------

  /** With no track, `goTo` changes nothing at all. */
  lemma GoToWithoutTrack(c: Config, s: State, index: int, userInitiated: bool)
    requires !c.hasTrack
    ensures GoTo(c, s, index, userInitiated) == s
  {
  }

  /**
   * An edge hit happens exactly when the carousel sits at one end and the request points
   * past that end.
   */
  lemma EdgeHitIff(c: Config, s: State, index: int)
    requires Consistent(c, s)
    ensures IsEdgeHit(index, s.current, c.slideCount) <==>
              (index < 0 && s.current == 0)
              || (index > LastIndex(c.slideCount) && s.current == LastIndex(c.slideCount))
  {
  }

  /**
   * An edge hit leaves the index, the track, the slides, the dots and the controls as
   * they were; the timer is stopped iff the request was not the user's.
   */
  lemma GoToEdgeHit(c: Config, s: State, index: int, userInitiated: bool)
    requires Consistent(c, s) && c.hasTrack
    requires IsEdgeHit(index, s.current, c.slideCount)
    ensures GoTo(c, s, index, userInitiated)
            == if userInitiated then s else s.(timer := None, intervals := {})
  {
    PauseEffect(c, s);
    ControlsFixed(c, if userInitiated then s else Pause(s));
  }

  /**
   * Any other request moves to the clamped index: the track is offset by 100% per slide,
   * slide `i` is hidden and out of the tab order iff `i` is not the new index, dot `i`
   * is active iff it is, each control is disabled iff it has nowhere to go, the timer
   * is restarted iff the user asked and untouched otherwise, and the pointer gesture
   * and the dots' targets are kept.
   */
  lemma GoToLands(c: Config, s: State, index: int, userInitiated: bool)
    requires Consistent(c, s) && c.hasTrack
    requires !IsEdgeHit(index, s.current, c.slideCount)
    ensures var t := GoTo(c, s, index, userInitiated);
      && t.current == Clamp(index, c.slideCount)
      && t.trackShift == Some(t.current * 100)
      && |t.slides| == |s.slides|
      && (forall i :: 0 <= i < |t.slides| ==>
            (t.slides[i].ariaHidden <==> i != t.current)
            && t.slides[i].tabIndex == (if i == t.current then 0 else -1))
      && |t.dots| == |s.dots|
      && (forall i :: 0 <= i < |t.dots| ==>
            t.dots[i].target == s.dots[i].target && (t.dots[i].active <==> i == t.current))
      && (c.hasPrev ==> (t.prevDisabled <==> t.current == 0))
      && (c.hasNext ==> (t.nextDisabled <==> t.current >= c.slideCount - 1))
      && t.pointerStart == s.pointerStart
      && (userInitiated ==> t.(current := s.current, trackShift := s.trackShift, slides := s.slides,
                               dots := s.dots, prevDisabled := s.prevDisabled,
                               nextDisabled := s.nextDisabled)
                            == Restart(c, s))
      && (!userInitiated ==> t.timer == s.timer && t.intervals == s.intervals && t.nextHandle == s.nextHandle)
  {
    var target := Clamp(index, c.slideCount);
    var moved := s.(current := target, trackShift := Some(target * SLIDE_WIDTH));
    var shown := UpdateControls(c, UpdateAria(moved));
    assert GoTo(c, s, index, userInitiated) == if userInitiated then Restart(c, shown) else shown;
  }

  /** Every `goTo` keeps the invariant, so the index never leaves `[0, max(slideCount-1, 0)]`. */
  lemma GoToConsistent(c: Config, s: State, index: int, userInitiated: bool)
    requires Consistent(c, s)
    ensures Consistent(c, GoTo(c, s, index, userInitiated))
    ensures GoTo(c, s, index, userInitiated).current <= LastIndex(c.slideCount)
  {
    if c.hasTrack {
      if IsEdgeHit(index, s.current, c.slideCount) {
        GoToEdgeHit(c, s, index, userInitiated);
      } else {
        var target := Clamp(index, c.slideCount);
        var moved := s.(current := target, trackShift := Some(target * SLIDE_WIDTH));
        var shown := UpdateControls(c, UpdateAria(moved));
        assert Consistent(c, shown);
        if userInitiated {
          RestartEffect(c, shown);
        }
      }
    }
  }

  /** Asking for the slide already shown only restarts the countdown (user navigation). */
  lemma GoToCurrent(c: Config, s: State)
    requires Consistent(c, s) && c.hasTrack
    ensures GoTo(c, s, s.current, true) == Restart(c, s)
  {
    assert s.(current := s.current, trackShift := Some(s.current * SLIDE_WIDTH)) == s;
    AriaFixed(s);
    ControlsFixed(c, s);
  }

  // ---------------------------------------------------------------------------
  // goNext / goPrev: no looping
  // ---------------------------------------------------------------------------

  /** At the last slide `goNext` never moves; when the timer asked, the timer stops. */
  lemma GoNextAtLast(c: Config, s: State, userInitiated: bool)
    requires Consistent(c, s) && s.current == LastIndex(c.slideCount)
    ensures GoNext(c, s, userInitiated)
            == if userInitiated then s else s.(timer := None, intervals := {})
  {
  }

  /** At the first slide `goPrev` changes nothing, the timer included. */
  lemma GoPrevAtFirst(c: Config, s: State, userInitiated: bool)
    requires s.current == 0
    ensures GoPrev(c, s, userInitiated) == s
  {
  }

  /** Before the last slide, `goNext` lands on the next slide and leaves the timer to `goTo`. */
  lemma GoNextInside(c: Config, s: State, userInitiated: bool)
    requires Consistent(c, s) && c.hasTrack && s.current < LastIndex(c.slideCount)
    ensures GoNext(c, s, userInitiated) == GoTo(c, s, s.current + 1, userInitiated)
    ensures GoNext(c, s, userInitiated).current == s.current + 1
    ensures !userInitiated ==> GoNext(c, s, userInitiated).timer == s.timer
  {
    GoToLands(c, s, s.current + 1, userInitiated);
  }

  /** After the first slide, `goPrev` lands on the previous slide. */
  lemma GoPrevInside(c: Config, s: State, userInitiated: bool)
    requires Consistent(c, s) && c.hasTrack && s.current > 0
    ensures GoPrev(c, s, userInitiated) == GoTo(c, s, s.current - 1, userInitiated)
    ensures GoPrev(c, s, userInitiated).current == s.current - 1
  {
    GoToLands(c, s, s.current - 1, userInitiated);
  }

  lemma GoNextConsistent(c: Config, s: State, userInitiated: bool)
    requires Consistent(c, s)
    ensures Consistent(c, GoNext(c, s, userInitiated))
  {
    if s.current >= c.slideCount - 1 {
      PauseEffect(c, s);
    } else {
      GoToConsistent(c, s, s.current + 1, userInitiated);
    }
  }

  lemma GoPrevConsistent(c: Config, s: State, userInitiated: bool)
    requires Consistent(c, s)
    ensures Consistent(c, GoPrev(c, s, userInitiated))
  {
    if s.current > 0 {
      GoToConsistent(c, s, s.current - 1, userInitiated);
    }
  }

  // ---------------------------------------------------------------------------
  // Pointer swipe
  // ---------------------------------------------------------------------------

  /**
   * A 45-pixel travel to the left swipes forward, a 30-pixel one does not; 41 pixels
   * to the right swipes back, 40 does not.
   */
  lemma SwipeExamples()
    ensures Classify(100, 55) == SwipeNext
    ensures Classify(100, 70) == Tap
    ensures Classify(100, 141) == SwipePrev && Classify(100, 140) == Tap
  {
  }

  /**
   * `pointerup` without a captured start does nothing. Otherwise the start is dropped,
   * a tap changes nothing else, and a swipe to the left or right navigates forward or
   * back as a user action.
   */
  lemma PointerUpEffect(c: Config, s: State, x: int)
    requires Consistent(c, s)
    ensures var t := OnPointerUp(c, s, x);
      && (s.pointerStart == None ==> t == s)
      && (s.pointerStart.Some? ==>
            && t.pointerStart == None
            && Consistent(c, t)
            && (Classify(s.pointerStart.value, x) == Tap ==> t == s.(pointerStart := None))
            && (Classify(s.pointerStart.value, x) == SwipeNext ==>
                  t.current == (if s.current < LastIndex(c.slideCount) then s.current + 1 else s.current))
            && (Classify(s.pointerStart.value, x) == SwipePrev ==>
                  t.current == (if s.current > 0 then s.current - 1 else s.current)))
  {
    if c.hasTrack && s.pointerStart.Some? {
      var released := s.(pointerStart := None);
      assert Consistent(c, released);
      match Classify(s.pointerStart.value, x)
      case SwipeNext =>
        GoNextConsistent(c, released, true);
        if s.current < LastIndex(c.slideCount) {
          GoNextInside(c, released, true);
        }
        GoToPreservesPointer(c, released, released.current + 1, true);
      case SwipePrev =>
        GoPrevConsistent(c, released, true);
        if s.current > 0 {
          GoPrevInside(c, released, true);
        }
        GoToPreservesPointer(c, released, released.current - 1, true);
      case Tap =>
    }
  }

  lemma GoToPreservesPointer(c: Config, s: State, index: int, userInitiated: bool)
    ensures GoTo(c, s, index, userInitiated).pointerStart == s.pointerStart
    ensures GoNext(c, s, userInitiated).pointerStart == s.pointerStart
    ensures GoPrev(c, s, userInitiated).pointerStart == s.pointerStart
  {
    GoToKeepsPointer(c, s, index, userInitiated);
    GoToKeepsPointer(c, s, s.current + 1, userInitiated);
    GoToKeepsPointer(c, s, s.current - 1, userInitiated);
  }

  lemma GoToKeepsPointer(c: Config, s: State, index: int, userInitiated: bool)
    ensures GoTo(c, s, index, userInitiated).pointerStart == s.pointerStart
  {
    if c.hasTrack {
      var target := Clamp(index, c.slideCount);
      if target == s.current && index != s.current {
        assert Pause(s).pointerStart == s.pointerStart;
      } else {
        var moved := s.(current := target, trackShift := Some(target * SLIDE_WIDTH));
        assert UpdateControls(c, UpdateAria(moved)).pointerStart == s.pointerStart;
      }
    }
  }

  // ---------------------------------------------------------------------------
  // Every event keeps the invariant
  // ---------------------------------------------------------------------------

  lemma StepConsistent(c: Config, s: State, e: Event)
    requires Consistent(c, s)
    ensures Consistent(c, Step(c, s, e))
  {
    match e
    case ClickDot(k) =>
      if k < |s.dots| {
        GoToConsistent(c, s, s.dots[k].target, true);
      }
    case ClickPrev => GoPrevConsistent(c, s, true);
    case ClickNext => GoNextConsistent(c, s, true);
    case MouseEnter => PauseEffect(c, s);
    case MouseLeave => RestartEffect(c, s);
    case VisibilityChange(hidden) =>
      PauseEffect(c, s);
      RestartEffect(c, s);
    case PointerDown(x) =>
    case PointerUp(x) => PointerUpEffect(c, s, x);
    case PointerCancel =>
    case IntervalTick => GoNextConsistent(c, s, false);
  }

  /**
   * Whatever the host delivers, in whatever order, the invariant holds afterwards; in
   * particular the index stays within `[0, max(slideCount-1, 0)]` and at most one
   * interval is ever live.
   */
  lemma {:induction false} RunConsistent(c: Config, s: State, events: seq<Event>)
    requires Consistent(c, s)
    ensures Consistent(c, Run(c, s, events))
    ensures Run(c, s, events).current <= LastIndex(c.slideCount)
    ensures |Run(c, s, events).intervals| <= 1
    decreases |events|
  {
    if events != [] {
      StepConsistent(c, s, events[0]);
      RunConsistent(c, Step(c, s, events[0]), events[1..]);
    } else {
      assert |TimerSet(s.timer)| <= 1;
    }
  }

  // ---------------------------------------------------------------------------
  // Autoplay runs to the end and stops
  // ---------------------------------------------------------------------------

  /** One firing before the last slide advances by one and keeps the interval. */
  lemma TickAdvances(c: Config, s: State)
    requires Consistent(c, s) && c.hasTrack && s.timer.Some?
    requires s.current < LastIndex(c.slideCount)
    ensures Step(c, s, IntervalTick).current == s.current + 1
    ensures Step(c, s, IntervalTick).timer == s.timer
    ensures Consistent(c, Step(c, s, IntervalTick))
  {
    GoNextInside(c, s, false);
    GoNextConsistent(c, s, false);
  }

  /** A firing at the last slide keeps the index and stops the timer. */
  lemma TickStopsAtLast(c: Config, s: State)
    requires Consistent(c, s) && s.timer.Some?
    requires s.current == LastIndex(c.slideCount)
    ensures Step(c, s, IntervalTick).current == s.current
    ensures Step(c, s, IntervalTick).timer == None
    ensures Step(c, s, IntervalTick).intervals == {}
  {
    GoNextAtLast(c, s, false);
  }

  /** `k` firings that stay within the track advance by exactly `k` and keep the interval. */
  lemma {:induction false} TicksAdvance(c: Config, s: State, k: nat)
    requires Consistent(c, s) && c.hasTrack && s.timer.Some?
    requires s.current + k <= LastIndex(c.slideCount)
    ensures Ticks(c, s, k).current == s.current + k
    ensures Ticks(c, s, k).timer == s.timer
    ensures Consistent(c, Ticks(c, s, k))
    decreases k
  {
    if k > 0 {
      TickAdvances(c, s);
      TicksAdvance(c, Step(c, s, IntervalTick), k - 1);
    }
  }

  /**
   * From a fresh carousel of `n >= 2` slides with autoplay, `n - 1` firings reach the
   * last slide with the timer still running, and the next keeps the index and stops it.
   */
  lemma AutoplayTerminates(c: Config, markup: seq<Slide>)
    requires c.slideCount >= 2 && |markup| == c.slideCount
    requires c.hasTrack && c.autoplay && !c.reducedMotion
    ensures Ticks(c, Init(c, markup), c.slideCount - 1).current == c.slideCount - 1
    ensures Ticks(c, Init(c, markup), c.slideCount - 1).timer.Some?
    ensures Step(c, Ticks(c, Init(c, markup), c.slideCount - 1), IntervalTick).current == c.slideCount - 1
    ensures Step(c, Ticks(c, Init(c, markup), c.slideCount - 1), IntervalTick).timer == None
  {
    InitEstablishes(c, markup);
    TicksAdvance(c, Init(c, markup), c.slideCount - 1);
    TickStopsAtLast(c, Ticks(c, Init(c, markup), c.slideCount - 1));
  }

  /**
   * From a fresh five-slide carousel with autoplay, four firings reach the last slide
   * with the timer still running, and the fifth keeps the index and stops it.
   */
  lemma FiveSlideAutoplay(c: Config, markup: seq<Slide>)
    requires c.slideCount == 5 && |markup| == 5
    requires c.hasTrack && c.autoplay && !c.reducedMotion
    ensures Ticks(c, Init(c, markup), 4).current == 4
    ensures Ticks(c, Init(c, markup), 4).timer.Some?
    ensures Step(c, Ticks(c, Init(c, markup), 4), IntervalTick).current == 4
    ensures Step(c, Ticks(c, Init(c, markup), 4), IntervalTick).timer == None
  {
    AutoplayTerminates(c, markup);
  }

  /** Without a track every firing is a no-op: `goTo` returns before touching anything. */
  lemma {:induction false} NoTrackTicksStill(c: Config, s: State, k: nat)
    requires Consistent(c, s) && !c.hasTrack && s.timer.Some?
    ensures Ticks(c, s, k) == s
    decreases k
  {
    if k > 0 {
      GoToWithoutTrack(c, s, s.current + 1, false);
      assert Step(c, s, IntervalTick) == s;
      NoTrackTicksStill(c, s, k - 1);
    }
  }

  /**
   * A carousel with autoplay and several slides but no track schedules an interval that
   * never ends: every firing leaves the index at 0, so the end-of-track stop is never
   * reached.
   */
  lemma NoTrackAutoplayNeverEnds(c: Config, markup: seq<Slide>, k: nat)
    requires c.slideCount >= 2 && |markup| == c.slideCount
    requires !c.hasTrack && c.autoplay && !c.reducedMotion
    ensures Ticks(c, Init(c, markup), k).timer.Some?
    ensures Ticks(c, Init(c, markup), k).current == 0
  {
    InitEstablishes(c, markup);
    NoTrackTicksStill(c, Init(c, markup), k);
  }

  /**
   * The end-of-track stop is not final: leaving the carousel with the mouse schedules a
   * new interval, and its first firing at the last slide stops it again.
   */
  lemma MouseLeaveRevivesAtEnd(c: Config, s: State)
    requires Consistent(c, s) && c.autoplay && !c.reducedMotion && c.slideCount > 1
    requires s.current == LastIndex(c.slideCount) && s.timer == None
    ensures Step(c, s, MouseLeave).timer.Some?
    ensures Step(c, Step(c, s, MouseLeave), IntervalTick).timer == None
    ensures Step(c, Step(c, s, MouseLeave), IntervalTick).current == s.current
  {
    RestartEffect(c, s);
    TickStopsAtLast(c, Step(c, s, MouseLeave));
  }

  /** An event that only a person's click or swipe produces. */
  predicate IsUserAction(e: Event) {
    e.ClickDot? || e.ClickPrev? || e.ClickNext? || e.PointerUp?
  }

  /**
   * Without autoplay, or under reduced motion, no interval ever runs and the index moves
   * only on a user action, however long the host runs.
   */
  lemma {:induction false} NoAutoplayStill(c: Config, s: State, events: seq<Event>)
    requires Consistent(c, s) && (!c.autoplay || c.reducedMotion)
    requires forall i :: 0 <= i < |events| ==> !IsUserAction(events[i])
    ensures Run(c, s, events).current == s.current
    ensures Run(c, s, events).timer == None
    decreases |events|
  {
    if events != [] {
      StepConsistent(c, s, events[0]);
      NoAutoplayStill(c, Step(c, s, events[0]), events[1..]);
    }
  }

  // ---------------------------------------------------------------------------
  // Construction
  // ---------------------------------------------------------------------------

  /**
   * After construction the invariant holds at slide 0 with no gesture; there is one dot
   * per slide iff there is a dot host; the initial `goTo(0, false)` starts no timer, so
   * a timer runs iff autoplay may run over more than one slide; and without a track the
   * slides keep their markup.
   */
  lemma InitEstablishes(c: Config, markup: seq<Slide>)
    requires |markup| == c.slideCount
    ensures var s := Init(c, markup);
      && Consistent(c, s)
      && s.current == 0
      && s.pointerStart == None
      && |s.dots| == (if c.hasDotHost then c.slideCount else 0)
      && (s.timer.Some? <==> c.autoplay && !c.reducedMotion && c.slideCount > 1)
      && (!c.hasTrack ==> s.slides == markup)
    ensures GoTo(c, CreateDots(c, Blank(markup)), 0, false).timer == None
  {
    InitialGoTo(c, markup);
    var shown := UpdateControls(c, GoTo(c, CreateDots(c, Blank(markup)), 0, false));
    assert Consistent(c, shown);
    if c.autoplay && !c.reducedMotion {
      RestartEffect(c, shown);
    }
  }

  /** What `createDots()` and `goTo(0, false)` leave behind, before the controls are refreshed. */
  lemma InitialGoTo(c: Config, markup: seq<Slide>)
    requires |markup| == c.slideCount
    ensures var w := GoTo(c, CreateDots(c, Blank(markup)), 0, false);
      && |w.slides| == c.slideCount
      && w.current == 0
      && DotsWired(c, w.dots)
      && w.timer == None && w.intervals == {} && w.nextHandle == 1
      && w.pointerStart == None
      && (c.hasTrack ==> TrackSynced(w))
      && (!c.hasTrack ==> w.slides == markup)
  {
    var dotted := CreateDots(c, Blank(markup));
    assert dotted.dots == (if c.hasDotHost then NewDots(c.slideCount) else []);
    assert DotsWired(c, dotted.dots);
    if c.hasTrack {
      assert !IsEdgeHit(0, 0, c.slideCount);
      var moved := dotted.(current := 0, trackShift := Some(0));
      assert GoTo(c, dotted, 0, false) == UpdateControls(c, UpdateAria(moved));
    }
  }

  /** With at most one slide both controls start disabled and no timer ever runs. */
  lemma SingleSlideDegenerate(c: Config, markup: seq<Slide>, events: seq<Event>)
    requires |markup| == c.slideCount <= 1
    ensures c.hasPrev ==> Init(c, markup).prevDisabled
    ensures c.hasNext ==> Init(c, markup).nextDisabled
    ensures Run(c, Init(c, markup), events).timer == None
  {
    InitEstablishes(c, markup);
    RunConsistent(c, Init(c, markup), events);
  }

  /** For five slides: at slide 0 only "next" is enabled, at slide 4 only "previous", between them both. */
  lemma FiveSlideControls(c: Config, s: State)
    requires Consistent(c, s) && c.slideCount == 5 && c.hasPrev && c.hasNext
    ensures s.current == 0 ==> s.prevDisabled && !s.nextDisabled
    ensures s.current == 4 ==> !s.prevDisabled && s.nextDisabled
    ensures 0 < s.current < 4 ==> !s.prevDisabled && !s.nextDisabled
  {
  }
}
