# Carousel controller of a static marketing page, in Dafny

The page script `js/main.js` runs `initCarousel` once for every `[data-carousel]`
container it finds. Each instance keeps its state in closure variables:
- the slide index `current`;
- the autoplay interval handle `timer`;
- the swipe start coordinate `pointerStartX`;
- the indicator buttons `dots`.

The closures `goTo`, `goNext`, `goPrev`, `restartAutoplay`, `pauseAutoplay`,
`updateControls` and `updateAria` change that state and the DOM attributes the
carousel writes. The listeners that call them are the dot, previous and next clicks,
`mouseenter`/`mouseleave`, `visibilitychange`, the track's pointer events and the
interval callback.

This project models that controller twice and proves the two agree:

- `carousel_model.dfy` (module `CarouselModel`) is a pure state machine. `Config` holds
  what an instance fixes at set-up: the slide count, which optional elements exist,
  the autoplay flag, the reduced-motion preference and the interval. `State` holds
  everything the controller changes. The host's live intervals and its next interval
  handle are part of `State`, so that "never two intervals at once" can be stated.
  There is one function per closure. `Step` says what one DOM event does, `Run`
  handles a sequence of events, and `Init` is the construction sequence.
  `Consistent` is the invariant of every reachable state.
- `carousel_properties.dfy` (module `CarouselProperties`) proves the properties of the
  state machine as lemmas.
- `carousel_controller.dfy` (module `CarouselController`) is the carousel as an object.
  The closure variables are fields and the slides' attributes are an array updated in
  place. `createDots` and `updateAria` are loops, as in the source. Every method is
  proved to leave `State()` equal to the matching `CarouselModel` function of the old
  state. The listener methods keep `Valid()`.
- `page_text.dfy` (module `PageText`) holds two small string helpers from the same
  script. The first is the scroll-spy's href-to-id strip. The second is the copy
  buttons' whitespace normalisation, proved equal to "the input's words joined by
  one space".
- `wrappers.dfy` holds `Option`, which stands for JavaScript's `null`.

Inputs that come from the browser are parameters:
- which elements exist;
- the slides' markup attributes;
- `data-autoplay`;
- the reduced-motion preference;
- the result of `parseInt` on `data-interval` (`None` for NaN).

Time is a `Tick` event that the host delivers only while an interval is live.

Four behaviours of the code, which the model follows:
- Autoplay can come back after it stops at the last slide. `mouseleave` and
  `visibilitychange` call `restartAutoplay` unconditionally (js/main.js:260,
  js/main.js:293), so the end-of-track stop is not final. The next firing at the last
  slide stops it again; `MouseLeaveRevivesAtEnd` proves this.
- Autoplay never ends without a track. `restartAutoplay` schedules the interval whether
  or not `[data-carousel-track]` exists (js/main.js:228-231), but `goTo` returns at once
  without one (js/main.js:184-186). So every firing leaves the index at 0 and the
  end-of-track stop is never reached; `NoTrackAutoplayNeverEnds` proves this. The
  navigation lemmas that need a track require one, and their rows below say so.
- A negative interval is kept. `parseInt(...) || 7000` falls back only for NaN and 0.
- The "next" control is disabled iff `current >= slideCount - 1`, not only at
  `slideCount - 1`. So with zero or one slide both controls are disabled.

## Model

| member | source | states |
|---|---|---|
| CarouselModel.IntervalOf | js/main.js:127 | the period is never 0; it is 7000 when the parsed value is NaN or 0 and the parsed value otherwise, negative values included |
| CarouselModel.Clamp | js/main.js:187 | the clamped index lies in `[0, max(count-1, 0)]`, equals an in-range request, is 0 below the range and the last index above it |
| CarouselModel.NewDots | js/main.js:139-149 | `createDots` makes exactly one dot per slide, dot `i` targets slide `i`, none active |
| CarouselModel.UpdateAria | js/main.js:170-181 | after `updateAria` every slide and every dot shows `current` (slide hidden with tabIndex -1 iff not current, dot active iff current), lengths and dot targets kept, nothing else touched |
| CarouselModel.UpdateControls | js/main.js:152-168 | after `updateControls` each existing control is disabled iff it has nowhere to go; a missing control keeps its state; nothing else is touched |
| CarouselModel.Classify | js/main.js:272-280 | a gesture is a forward swipe iff the pointer travelled more than 40 px left, a backward swipe iff more than 40 px right, a tap otherwise |
| CarouselProperties.PauseEffect | js/main.js:235-240 | `pauseAutoplay` leaves no handle and no live interval, changes nothing else, keeps the invariant, and is idempotent |
| CarouselProperties.RestartEffect | js/main.js:221-233 | `restartAutoplay` is a no-op without autoplay or under reduced motion; otherwise afterwards exactly one fresh interval is live iff there are more than one slide, the old one cancelled; only the timer changes |
| CarouselProperties.GoToWithoutTrack | js/main.js:184-186 | with no track `goTo` changes nothing at all |
| CarouselProperties.EdgeHitIff | js/main.js:187-188 | an edge hit happens iff the carousel is at one end and the request points past that end |
| CarouselProperties.GoToEdgeHit | js/main.js:187-194 | with a track, on an edge hit index, track, slides, dots and controls are unchanged; the timer is stopped iff the call was not user-initiated |
| CarouselProperties.GoToLands | js/main.js:195-201 | with a track and no edge hit, `current` becomes the clamped index, the track offset is `current*100`, slide `i` hidden with tabIndex -1 iff `i != current`, dot `i` active iff `i == current`, controls refreshed, autoplay restarted iff user-initiated and untouched otherwise |
| CarouselProperties.GoToConsistent | js/main.js:183-202 | every `goTo`, whatever the index, keeps the invariant, so `0 <= current <= max(slideCount-1, 0)` |
| CarouselProperties.GoToCurrent | js/main.js:183-202 | with a track, a user `goTo` of the current index changes nothing but restarting the autoplay countdown |
| CarouselProperties.GoNextAtLast | js/main.js:204-210 | at the last index `goNext` leaves the state unchanged if user-initiated and otherwise only stops the timer |
| CarouselProperties.GoPrevAtFirst | js/main.js:214-217 | at index 0 `goPrev` changes nothing, the timer included |
| CarouselProperties.GoNextInside | js/main.js:204-212 | with a track and before the last index, `goNext` is `goTo(current+1)`, lands on `current+1` and, when timer-driven, keeps the timer |
| CarouselProperties.GoPrevInside | js/main.js:214-219 | with a track and after index 0, `goPrev` is `goTo(current-1)` and lands on `current-1` |
| CarouselProperties.SwipeExamples | js/main.js:272-280 | start 100 and end 55 is a forward swipe, end 70 a tap, end 141 a backward swipe, end 140 a tap |
| CarouselProperties.PointerUpEffect | js/main.js:268-281 | `pointerup` without a start does nothing; otherwise it clears the start, a tap changes nothing else, a left swipe advances by one unless at the end, a right swipe goes back by one unless at the start |
| CarouselProperties.StepConsistent | js/main.js:246-295 | every listener keeps the invariant |
| CarouselProperties.RunConsistent | js/main.js:246-295 | after any sequence of events the invariant holds, the index is in range and at most one interval is live |
| CarouselProperties.TickAdvances | js/main.js:229-231 | with a track, an interval firing before the last slide advances by one and keeps the interval |
| CarouselProperties.TickStopsAtLast | js/main.js:204-208 | an interval firing at the last slide keeps the index and leaves no timer and no live interval |
| CarouselProperties.TicksAdvance | js/main.js:229-231 | with a track, `k` firings that stay within the slides advance by exactly `k` and keep the interval |
| CarouselProperties.AutoplayTerminates | js/main.js:204-233 | from construction with a track, `n >= 2` slides and autoplay, `n-1` firings of the interval that `restartAutoplay` schedules reach index `n-1` with the timer live, and the next firing keeps that index and stops the timer (the end-of-track pause in `goNext`) |
| CarouselProperties.FiveSlideAutoplay | js/main.js:287-288 | from construction with a track, 5 slides and autoplay, 4 firings reach index 4 with the timer live, and the fifth keeps index 4 and stops the timer |
| CarouselProperties.NoTrackTicksStill | js/main.js:184-186 | without a track every interval firing leaves the whole state unchanged, however many there are |
| CarouselProperties.NoTrackAutoplayNeverEnds | js/main.js:221-233 | a carousel with autoplay and two or more slides but no track keeps its interval live for ever: after any number of firings the index is still 0 and the timer still held |
| CarouselProperties.MouseLeaveRevivesAtEnd | js/main.js:258-261 | after the end-of-track stop `mouseleave` schedules a new interval, whose first firing stops it again without moving |
| CarouselProperties.NoAutoplayStill | js/main.js:221-224 | without autoplay or under reduced motion no interval ever runs and the index never moves without a click or swipe |
| CarouselProperties.InitEstablishes | js/main.js:242-244 | after construction the invariant holds at index 0; there is one dot per slide iff there is a dot host; the initial `goTo(0, false)` starts no timer, so a timer runs iff autoplay may run over more than one slide; without a track the slides keep their markup |
| CarouselProperties.InitialGoTo | js/main.js:242-243 | `createDots()` then `goTo(0, false)` wire the dots, set index 0 and, with a track, show slide 0, with no timer |
| CarouselProperties.SingleSlideDegenerate | js/main.js:152-168 | with at most one slide both controls start disabled (`updateControls`) and no timer runs after any events (the `slides.length > 1` guard of `restartAutoplay` at js/main.js:228) |
| CarouselProperties.FiveSlideControls | js/main.js:156-166 | with 5 slides: at index 0 only "next" is enabled, at 4 only "previous", in between both |
| CarouselController.Carousel.constructor | js/main.js:120-297 | the new carousel's state is `Init` of its markup and settings, and it is valid |
| CarouselController.Carousel.CreateDots | js/main.js:134-150 | the loop pushes one dot per slide when there is a dot host, as `CreateDots` says |
| CarouselController.Carousel.UpdateControls | js/main.js:152-168 | sets the controls as `UpdateControls` says |
| CarouselController.Carousel.UpdateAria | js/main.js:170-181 | the two loops rewrite the slide array and the dots as `UpdateAria` says |
| CarouselController.Carousel.PauseAutoplay | js/main.js:235-240 | state as `Pause` says |
| CarouselController.Carousel.RestartAutoplay | js/main.js:221-233 | state as `Restart` says |
| CarouselController.Carousel.GoTo | js/main.js:183-202 | state as `GoTo` says |
| CarouselController.Carousel.GoNext | js/main.js:204-212 | state as `GoNext` says |
| CarouselController.Carousel.GoPrev | js/main.js:214-219 | state as `GoPrev` says |
| CarouselController.Carousel.ClickDot | js/main.js:144-146 | a dot click is `goTo(index, true)` and keeps the invariant |
| CarouselController.Carousel.ClickPrev | js/main.js:246-250 | a click on "previous" is `goPrev(true)` and keeps the invariant |
| CarouselController.Carousel.ClickNext | js/main.js:252-256 | a click on "next" is `goNext(true)` and keeps the invariant |
| CarouselController.Carousel.MouseEnter | js/main.js:259 | pauses autoplay and keeps the invariant |
| CarouselController.Carousel.MouseLeave | js/main.js:260 | restarts autoplay unconditionally and keeps the invariant |
| CarouselController.Carousel.VisibilityChange | js/main.js:289-295 | pauses when hidden and restarts when shown, only when autoplay may run, and keeps the invariant |
| CarouselController.Carousel.PointerDown | js/main.js:264-267 | with a track, captures the start coordinate |
| CarouselController.Carousel.PointerUp | js/main.js:268-281 | swipe handling as `OnPointerUp` says, and keeps the invariant |
| CarouselController.Carousel.PointerCancel | js/main.js:282-284 | with a track, drops the start coordinate without navigating |
| CarouselController.Carousel.Tick | js/main.js:229-231 | the interval callback `goNext(false)`, keeping the invariant |
| CarouselController.AutoplayScenario | js/main.js:287-288 | a five-slide carousel with autoplay reaches index 4 after four firings with the interval live; the fifth firing leaves it at 4 and stops the interval |
| PageText.LinkActiveIff | js/main.js:93-95 | a link is active for a section iff its href is `#id`, or is `id` itself and does not start with `#`; a missing href counts as empty |
| PageText.NormalizeIsJoinedWords | js/main.js:44 | the copy text is the input's whitespace-separated words joined by single spaces |
| PageText.NormalizeProperties | js/main.js:44 | the copy text has no whitespace at either end, no whitespace but plain spaces, never two in a row, the same words as the input, and normalising again changes nothing |
| PageText.CopyPayloadIff | js/main.js:40-44 | a copy happens iff `data-copy` is present and non-empty, and the copied text is the joined words |

## Left out

- Navigation toggle (js/main.js:8-34): it only flips DOM classes and `aria-expanded`, and has no state worth verifying.
- Clipboard copy (js/main.js:36-84): `navigator.clipboard`, the `execCommand` fallback with a temporary textarea, and the 1600 ms `is-copied` timeout are browser I/O. Only the text that is copied is modelled (`PageText.CopyPayload`).
- Scroll-spy observation (js/main.js:86-118): the IntersectionObserver callbacks and the bottom-of-page test on `innerHeight + pageYOffset` are host layout numbers. Only the link-to-section match is modelled (`PageText.LinkActive`).
- Contact form (js/main.js:306-405): network I/O to a remote endpoint.
- Timing: the interval's period (`interval`) is kept in `Config` but has no effect. Time passes only as `Tick` events, which the host delivers only while an interval is live.
- `setPointerCapture`, the `innerHTML = ''` reset of the dot host, the dots' `aria-label` text and the `translateX` string are not modelled. The track offset is the number `current*100`. The three redundant control signals (`disabled`, `is-hidden`, `aria-disabled`) are one boolean per control.
- The controls' markup state before construction is not modelled and starts enabled. Construction always runs `updateControls` (js/main.js:244), so this has no effect on any reachable state.
- `restartAutoplay` keeps a cleared handle when there is at most one slide (js/main.js:225-232). `CarouselModel.Restart` models this as written. The invariant proves the case is unreachable, because a timer is only ever set with more than one slide.
- CarouselController.Carousel.Tick: requires a live interval, because the host never runs a cleared interval's callback. The pure `Step` treats a firing without a held handle as a no-op.
- CarouselController.Carousel.ClickDot: requires that dot `k` exists, because only existing dots can be clicked.
- CarouselModel.Classify, CarouselModel.OnPointerDown, CarouselModel.OnPointerUp: pointer coordinates (`event.clientX`, js/main.js:265 and js/main.js:272) are modelled as integers, while browsers report them as doubles. So a fractional travel such as 40.5 pixels cannot be expressed. The 40-pixel rule reads the same on the reals.
- PageText: JavaScript strings are UTF-16 code-unit sequences, but the model's strings are sequences of Unicode scalar values. So a lone surrogate cannot be represented. No character of the `\s` set is a surrogate, so on every representable string the normalisation does what the source does.
- Teardown and independence of several instances: the source never removes a carousel. Each instance in the model is its own object with no shared state.
