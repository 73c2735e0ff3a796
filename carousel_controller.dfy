/**
 * One carousel instance of js/main.js (`initCarousel`) as an object. The closure
 * variables `current`, `timer`, `pointerStartX` and `dots` are fields; the slides'
 * attributes live in an array the controller updates in place; each closure is a
 * method written as the source writes it and proved to do what the matching function
 * of `CarouselModel` does. The listeners the source registers are the public methods
 * at the end, each keeping `Valid()`.
 */
module CarouselController {
  import opened Wrappers
  import M = CarouselModel
  import P = CarouselProperties

  class Carousel {
    const slideCount: nat
    const hasTrack: bool
    const hasPrev: bool
    const hasNext: bool
    const hasDotHost: bool
    const autoplay: bool
    const reducedMotion: bool
    const interval: int
    /** `aria-hidden` and `tabIndex` of each slide element, in document order. */
    const slides: array<M.Slide>

    var current: nat
    var timer: Option<nat>
    /** The intervals the host still runs, and the handle its `setInterval` hands out next. */
    var intervals: set<nat>
    var nextHandle: nat
    var pointerStart: Option<int>
    /** `Some(p)` once the track's transform is `translateX(-p%)`. */
    var trackShift: Option<nat>
    var dots: seq<M.Dot>
    var prevDisabled: bool
    var nextDisabled: bool

    function Config(): M.Config {
      M.Config(slideCount, hasTrack, hasPrev, hasNext, hasDotHost, autoplay, reducedMotion, interval)
    }

    function State(): M.State
      reads this, slides
    {
      M.State(current, timer, intervals, nextHandle, pointerStart, trackShift, slides[..], dots,
              prevDisabled, nextDisabled)
    }

    ghost predicate Valid()
      reads this, slides
    {
      M.Consistent(Config(), State())
    }

    /**
     * `initCarousel`: the elements found in the container and the settings read from it
     * are the parameters (`parsedInterval` is `None` when `parseInt` gives NaN); then
     * `createDots()`, `goTo(0, false)`, `updateControls()` and, when autoplay may run,
     * `restartAutoplay()`.
     */
    constructor (markup: seq<M.Slide>, hasTrack: bool, hasPrev: bool, hasNext: bool,
                 hasDotHost: bool, autoplay: bool, reducedMotion: bool, parsedInterval: Option<int>)
      ensures Config() == M.Config(|markup|, hasTrack, hasPrev, hasNext, hasDotHost, autoplay,
                                   reducedMotion, M.IntervalOf(parsedInterval))
      ensures State() == M.Init(Config(), markup)
      ensures Valid() && fresh(slides)
    {
      this.slideCount := |markup|;
      this.hasTrack := hasTrack;
      this.hasPrev := hasPrev;
      this.hasNext := hasNext;
      this.hasDotHost := hasDotHost;
      this.autoplay := autoplay;
      this.reducedMotion := reducedMotion;
      this.interval := M.IntervalOf(parsedInterval);
      this.slides := new M.Slide[|markup|](i requires 0 <= i < |markup| => markup[i]);
      current := 0;
      timer := None;
      intervals := {};
      nextHandle := 1;
      pointerStart := None;
      trackShift := None;
      dots := [];
      prevDisabled := false;
      nextDisabled := false;
      new;
      assert State() == M.Blank(markup);
      CreateDots();
      GoTo(0, false);
      UpdateControls();
      if autoplay && !reducedMotion {
        RestartAutoplay();
      }
      P.InitEstablishes(Config(), markup);
    }

    /** `createDots`: with a dot host, one dot per slide is pushed onto `dots`, in slide order. */
    method CreateDots()
      modifies this`dots
      ensures State() == M.CreateDots(Config(), old(State()))
    {
      if !hasDotHost {
        return;
      }
      for index := 0 to slideCount
        invariant dots == old(dots) + M.NewDots(index)
      {
        dots := dots + [M.Dot(index, false)];
      }
    }

    /** `updateControls`. */
    method UpdateControls()
      modifies this`prevDisabled, this`nextDisabled
      ensures State() == M.UpdateControls(Config(), old(State()))
    {
      if !hasPrev && !hasNext {
        return;
      }
      var canPrev := current > 0;
      var canNext := current < slideCount - 1;
      if hasPrev {
        prevDisabled := !canPrev;
      }
      if hasNext {
        nextDisabled := !canNext;
      }
    }

    /** `updateAria`: each slide, then each dot, is rewritten from `current`. */
    method UpdateAria()
      modifies this`dots, slides
      ensures State() == M.UpdateAria(old(State()))
    {
      ghost var shown := M.UpdateAria(State());
      for index := 0 to slides.Length
        invariant forall k :: 0 <= k < index ==> slides[k] == M.SlideAt(k, current)
        invariant forall k :: index <= k < slides.Length ==> slides[k] == old(slides[k])
        modifies slides
      {
        var hidden := index != current;
        slides[index] := M.Slide(hidden, if hidden then -1 else 0);
      }
      for index := 0 to |dots|
        invariant |dots| == |old(dots)|
        invariant forall k :: 0 <= k < index ==> dots[k] == old(dots[k]).(active := k == current)
        invariant forall k :: index <= k < |dots| ==> dots[k] == old(dots[k])
        modifies this`dots
      {
        dots := dots[index := dots[index].(active := index == current)];
      }
      assert forall k :: 0 <= k < slides.Length ==> slides[..][k] == shown.slides[k];
      assert slides[..] == shown.slides && dots == shown.dots;
    }

    /** `pauseAutoplay`. */
    method PauseAutoplay()
      modifies this`timer, this`intervals
      ensures State() == M.Pause(old(State()))
    {
      if timer.Some? {
        intervals := intervals - {timer.value};
        timer := None;
      }
    }

    /**
     * `restartAutoplay`. The new interval's callback is `Tick`; its period `interval`
     * is not part of the model.
     */
    method RestartAutoplay()
      modifies this`timer, this`intervals, this`nextHandle
      ensures State() == M.Restart(Config(), old(State()))
    {
      if !autoplay || reducedMotion {
        return;
      }
      if timer.Some? {
        intervals := intervals - {timer.value};
      }
      if slideCount > 1 {
        timer := Some(nextHandle);
        intervals := intervals + {nextHandle};
        nextHandle := nextHandle + 1;
      }
    }

    /** `goTo(index, userInitiated)`. */
    method GoTo(index: int, userInitiated: bool)
      modifies this, slides
      ensures State() == M.GoTo(Config(), old(State()), index, userInitiated)
    {
      if !hasTrack {
        return;
      }
      var nextIndex := M.Clamp(index, slideCount);
      if nextIndex == current && index != current {
        if !userInitiated {
          PauseAutoplay();
        }
        UpdateControls();
        return;
      }
      current := nextIndex;
      trackShift := Some(current * M.SLIDE_WIDTH);
      UpdateAria();
      UpdateControls();
      if userInitiated {
        RestartAutoplay();
      }
    }

    /** `goNext(userInitiated)`. */
    method GoNext(userInitiated: bool)
      modifies this, slides
      ensures State() == M.GoNext(Config(), old(State()), userInitiated)
    {
      if current >= slideCount - 1 {
        if !userInitiated {
          PauseAutoplay();
        }
        return;
      }
      GoTo(current + 1, userInitiated);
    }

    /** `goPrev(userInitiated)`. */
    method GoPrev(userInitiated: bool)
      modifies this, slides
      ensures State() == M.GoPrev(Config(), old(State()), userInitiated)
    {
      if current <= 0 {
        return;
      }
      GoTo(current - 1, userInitiated);
    }

    // -------------------------------------------------------------------------
    // The listeners registered by `initCarousel`
    // -------------------------------------------------------------------------

    /** A click on dot `k`: `goTo(index, true)` for the slide the dot was made for. */
    method ClickDot(k: nat)
      requires Valid() && k < |dots|
      modifies this, slides
      ensures Valid()
      ensures State() == M.Step(Config(), old(State()), M.Event.ClickDot(k))
    {
      ghost var before := State();
      GoTo(dots[k].target, true);
      P.StepConsistent(Config(), before, M.Event.ClickDot(k));
    }

    /** A click on the "previous" control, when there is one: `goPrev(true)`. */
    method ClickPrev()
      requires Valid()
      modifies this, slides
      ensures Valid()
      ensures State() == M.Step(Config(), old(State()), M.Event.ClickPrev)
    {
      ghost var before := State();
      if hasPrev {
        GoPrev(true);
      }
      P.StepConsistent(Config(), before, M.Event.ClickPrev);
    }

    /** A click on the "next" control, when there is one: `goNext(true)`. */
    method ClickNext()
      requires Valid()
      modifies this, slides
      ensures Valid()
      ensures State() == M.Step(Config(), old(State()), M.Event.ClickNext)
    {
      ghost var before := State();
      if hasNext {
        GoNext(true);
      }
      P.StepConsistent(Config(), before, M.Event.ClickNext);
    }

    /** `mouseenter` on the container: `pauseAutoplay`. */
    method MouseEnter()
      requires Valid()
      modifies this`timer, this`intervals
      ensures Valid()
      ensures State() == M.Step(Config(), old(State()), M.Event.MouseEnter)
    {
      ghost var before := State();
      PauseAutoplay();
      P.StepConsistent(Config(), before, M.Event.MouseEnter);
    }

    /** `mouseleave` on the container: `restartAutoplay`, whether or not autoplay had stopped at the end. */
    method MouseLeave()
      requires Valid()
      modifies this`timer, this`intervals, this`nextHandle
      ensures Valid()
      ensures State() == M.Step(Config(), old(State()), M.Event.MouseLeave)
    {
      ghost var before := State();
      RestartAutoplay();
      P.StepConsistent(Config(), before, M.Event.MouseLeave);
    }

    /** `visibilitychange`, listened to only when autoplay may run: pause when hidden, restart when shown. */
    method VisibilityChange(hidden: bool)
      requires Valid()
      modifies this`timer, this`intervals, this`nextHandle
      ensures Valid()
      ensures State() == M.Step(Config(), old(State()), M.Event.VisibilityChange(hidden))
    {
      ghost var before := State();
      if autoplay && !reducedMotion {
        if hidden {
          PauseAutoplay();
        } else {
          RestartAutoplay();
        }
      }
      P.StepConsistent(Config(), before, M.Event.VisibilityChange(hidden));
    }

    /** `pointerdown` on the track: the pointer's horizontal coordinate is captured. */
    method PointerDown(x: int)
      requires Valid()
      modifies this`pointerStart
      ensures Valid()
      ensures State() == M.Step(Config(), old(State()), M.Event.PointerDown(x))
    {
      if hasTrack {
        pointerStart := Some(x);
      }
    }

    /** `pointerup` on the track: a travel of more than 40 pixels is a swipe. */
    method PointerUp(x: int)
      requires Valid()
      modifies this, slides
      ensures Valid()
      ensures State() == M.Step(Config(), old(State()), M.Event.PointerUp(x))
    {
      ghost var before := State();
      if hasTrack && pointerStart.Some? {
        var deltaX := x - pointerStart.value;
        pointerStart := None;
        if M.Abs(deltaX) > M.SWIPE_THRESHOLD {
          if deltaX < 0 {
            GoNext(true);
          } else {
            GoPrev(true);
          }
        }
      }
      P.StepConsistent(Config(), before, M.Event.PointerUp(x));
    }

    /** `pointercancel` on the track: the captured coordinate is dropped. */
    method PointerCancel()
      requires Valid()
      modifies this`pointerStart
      ensures Valid()
      ensures State() == M.Step(Config(), old(State()), M.Event.PointerCancel)
    {
      if hasTrack {
        pointerStart := None;
      }
    }

    /** The autoplay interval's callback, `goNext(false)`; the host runs it only while the interval is live. */
    method Tick()
      requires Valid() && timer.Some?
      modifies this, slides
      ensures Valid()
      ensures State() == M.Step(Config(), old(State()), M.Event.IntervalTick)
    {
      ghost var before := State();
      GoNext(false);
      P.StepConsistent(Config(), before, M.Event.IntervalTick);
    }
  }

  /**
   * A five-slide carousel with autoplay: four firings of the interval bring it to the
   * last slide with the interval still live, and the fifth leaves it there and stops
   * the interval.
   */
  method AutoplayScenario() returns (reached: nat, runningAtEnd: bool, after: nat, runningAfter: bool)
    ensures reached == 4 && runningAtEnd
    ensures after == 4 && !runningAfter
  {
    var markup := seq(5, _ => M.Slide(false, 0));
    var carousel := new Carousel(markup, true, true, true, true, true, false, None);
    P.InitEstablishes(carousel.Config(), markup);
    var ticks := 0;
    while ticks < 4
      invariant 0 <= ticks <= 4
      invariant fresh(carousel) && fresh(carousel.slides)
      invariant carousel.Valid() && carousel.Config() == M.Config(5, true, true, true, true, true, false, 7000)
      invariant carousel.current == ticks && carousel.timer.Some?
    {
      ghost var before := carousel.State();
      P.TickAdvances(carousel.Config(), before);
      carousel.Tick();
      ticks := ticks + 1;
    }
    reached, runningAtEnd := carousel.current, carousel.timer.Some?;
    P.TickStopsAtLast(carousel.Config(), carousel.State());
    carousel.Tick();
    after, runningAfter := carousel.current, carousel.timer.Some?;
  }
}
