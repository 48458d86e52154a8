# MTweb page script: scroll-driven behaviour

This project models the parts of the MTweb marketing page's script (`script.js`) that have behaviour worth stating. It is Dafny, and every contract below is proved.

- **Sticky timeline** (module `StickyTimeline`). Each animation frame reads the scroll offset and the geometry of the sticky services section. It computes the progress `(scrolled - top) / height`. When the progress lies in [0, 1], it picks the slide index `floor(progress * slides)`, clamped into `[0, slides - 1]`. If that index differs from the stored `currentStep`, the index is stored and the step elements' `active` flags are rewritten. The progress bar's width is set to `clamp(progress * 100, 0, 100)`. The pure function `Updated`, on a `Timeline` value, describes one frame. The class `TimelineController` holds the step flags in an `array<bool>`, `UpdateTimeline` is proved to have exactly `Updated`'s effect, `ActivateStep` to leave exactly the flags `ActivatedFlags` gives, and the constructor to start from step 0 with the markup's flags and an unwritten bar.
- **Navigation highlight** (module `NavHighlight`). The sections are scanned in document order. The id of the last section with `scrolled >= offsetTop - 100` becomes current, or `""` if there is none. Every navigation link's colour is reset, and the links whose href is `"#" + current` are coloured `#667eea`.
- **Scroll arrow** (module `ScrollArrow`). It is hidden (opacity `0`, pointer events `none`) iff the page has scrolled more than 100 pixels. Otherwise it is shown (opacity `1`, pointer events `auto`).
- **Frame throttle** (module `FrameThrottle`). Both throttled scroll listeners follow one pattern. On each scroll event, the listener cancels the frame request it remembers and makes a new request. The model keeps three things: the listener's variable, the requests the browser still holds for it, and the next handle. From these it proves two facts. At most one request is ever pending. Over any sequence of scroll events and frames, the handler runs exactly once per burst of scroll events.

Numbers are exact. The scroll offset is a `real`, because the browser's offset can be fractional. `offsetTop` and `offsetHeight` are integers, as the DOM reports them. No IEEE floating point is modelled.

Two details of the code shape what is proved:
- The stored step starts at 0, not at "none" (script.js:393). So the eager first update does nothing to the flags when the page opens at step 0 or outside the region. In that case the markup's own flags stay (`InitialUpdateKeepsMarkup`).
- The index is computed from the number of *slides* and applied to the *steps* (script.js:406, 428). When there are fewer steps than slides, the current step can name no step element, and then no step is active (`ConsistentActiveCount`).

## Model

| member | source | states |
|---|---|---|
| `StickyTimeline.StepIndex` | script.js:406-407 | for a progress in [0, 1] and at least one slide, the selected index is a valid slide index (`< slideCount`) |
| `StickyTimeline.BarWidth` | script.js:414-418 | the bar width always lies in [0, 100]; inside the region it is exactly progress × 100, so the clamp never bites there |
| `StickyTimeline.TargetStep` | script.js:402-407 | a frame either is ignored (None) or selects an index below the slide count |
| `StickyTimeline.ProgressInRangeIffInRegion` | script.js:402-404 | the progress is in [0, 1] iff `top <= scrolled <= top + height` (both directions) |
| `StickyTimeline.TargetStepIffInRegion` | script.js:397-404 | a frame is acted on iff its offset lies in the closed region |
| `StickyTimeline.StepIndexSlice` | script.js:406-407 | the index k satisfies `k <= p·n` and `p·n < k + 1`, except at p = 1, which goes to the last slide; below p = 1 the clamp is a no-op |
| `StickyTimeline.StepIndexAtEnd` | script.js:406-407 | at progress exactly 1 the index is `slideCount - 1`, not `slideCount` |
| `StickyTimeline.StepIndexMonotone` | script.js:406-407 | a larger progress never gives a smaller index |
| `StickyTimeline.ProgressMonotone` | script.js:402 | for fixed geometry, a larger offset never gives a smaller progress |
| `StickyTimeline.TargetStepMonotone` | script.js:397-407 | for fixed geometry, scrolling further down inside the region never selects an earlier step |
| `StickyTimeline.FiveSlideExample` | script.js:402-407 | five slides, region 0..1000: offsets 0, 500, 999 and 1000 select 0, 2, 4 and 4; offsets 1000.5 and -1 are ignored |
| `StickyTimeline.ActivatedCount` | script.js:423-431 | after activating step i, exactly one step is active if `i < steps`, otherwise none |
| `StickyTimeline.ActivatedOnly` | script.js:425-430 | after activating step i, step k is active iff k = i |
| `StickyTimeline.UpdatedOutsideRegion` | script.js:404-419 | outside the region a frame changes neither the stored step, nor the flags, nor the bar width |
| `StickyTimeline.UpdatedInsideRegion` | script.js:404-418 | inside the region the stored step becomes the selected index; the bar (if present) gets progress × 100, and if absent its state is unchanged; the step count is kept |
| `StickyTimeline.UpdatedSameStepKeepsFlags` | script.js:409-412 | when the selected step equals the stored one, neither the flags nor the stored step change |
| `StickyTimeline.UpdatedIdempotent` | script.js:396-420 | running the handler twice on the same frame equals running it once |
| `StickyTimeline.UpdatedChangedStep` | script.js:409-431 | a frame that changes the stored step leaves exactly the flags that activating it produces |
| `StickyTimeline.UpdatedPreservesInvariants` | script.js:404-419 | flags consistent with the stored step stay consistent, and a bar width in [0, 100] stays in [0, 100] |
| `StickyTimeline.ConsistentActiveCount` | script.js:423-431 | in a consistent state at most one step is active: the current one, if that step element exists |
| `StickyTimeline.InitialUpdateKeepsMarkup` | script.js:393-412 | with the stored step starting at 0, the eager first update (script.js:457) activates nothing when the page is at step 0 or outside the region |
| `StickyTimeline.TimelineController.constructor` | script.js:386-393 | setup past the presence check: the stored step is 0, the flags are the markup's, and the bar has not been written |
| `StickyTimeline.TimelineController.ActivateStep` | script.js:423-431 | the new flags are those of activating i, whatever the flags were before (the flags are rewritten even when already correct) |
| `StickyTimeline.TimelineController.UpdateTimeline` | script.js:396-420 | the new controller state is `Updated` applied to the old state and the frame's offset and geometry |
| `StickyTimeline.InitStickyTimeline` | script.js:385-458 | no controller iff there are no steps, no slides or no section; otherwise a fresh controller whose state is that of the eager first update |
| `NavHighlight.LastReached` | script.js:170-176 | the result is the index of a reached section with no reached section after it, or None exactly when no section is reached |
| `NavHighlight.CurrentSection` | script.js:170-176 | the loop's result is the id of the last reached section in document order, or `""` |
| `NavHighlight.LastReachedMonotone` | script.js:171-176 | scrolling further down never moves the current section back up the document |
| `NavHighlight.HighlightLinks` | script.js:178-183 | each link keeps its href; its colour is `#667eea` if its href is `"#" + current`, and `""` otherwise |
| `NavHighlight.UpdateNavigation` | script.js:169-183 | after a scroll, exactly the links pointing at the current section are coloured, and all others are reset |
| `NavHighlight.NoneReachedColoursBareHash` | script.js:170-183 | when no section is reached, the links compared against are those with href `"#"` |
| `ScrollArrow.ArrowStyleAt` | script.js:18-27 | the arrow is hidden iff the offset exceeds 100, and shown iff it does not |
| `ScrollArrow.HiddenStaysHidden` | script.js:20-26 | if the arrow is hidden at one offset, it is hidden at every larger offset |
| `FrameThrottle.OnScroll` | script.js:195-200 | a scroll event leaves exactly one request pending, under the browser's next handle, which is larger than the one the listener remembered and not among those still requested; the counter advances and the invariant is kept |
| `FrameThrottle.OnFrame` | script.js:199 | a frame runs and drops the pending request; the listener's variable keeps its now-stale handle |
| `FrameThrottle.RunsAreBursts` | script.js:195-200 | over any event sequence, the handler runs once for each frame that follows at least one scroll event since the previous frame |
| `FrameThrottle.BurstsBounded` | script.js:195-200 | the number of bursts is at most the number of frames, and at most the number of scrolls (plus one already waiting) |
| `FrameThrottle.RunsBounded` | script.js:449-454 | from the start, the handler runs no more often than frames are rendered, and no more often than scroll events arrive |
| `FrameThrottle.AtMostOnePending` | script.js:195-200 | after any event sequence, the browser holds at most one request for the listener |
| `FrameThrottle.ScrollThrottle.constructor` | script.js:149 | the listener's variable starts unset and nothing is requested |
| `FrameThrottle.ScrollThrottle.OnScrollEvent` | script.js:449-454 | the listener's effect is `OnScroll` on the state before |
| `FrameThrottle.ScrollThrottle.RenderFrame` | script.js:453 | it reports whether the handler runs in this frame; the effect is `OnFrame` on the state before |

One frame's behaviour is defined by the functions these contracts are about: `StickyTimeline.Progress` (script.js:402), `StickyTimeline.ActivatedFlags` (script.js:425-430), `StickyTimeline.Updated` (script.js:396-420) and `NavHighlight.CurrentId` (script.js:170-176).

## Left out

- Division by a zero section height: `height > 0` is a precondition. The JavaScript `Infinity`/`NaN` results are not modelled.
- IEEE floating point: progress, the product with the slide count, and the bar percentage are exact reals. Float rounding near slice boundaries is not modelled.
- The DOM itself: elements are values (flags, links) or presence booleans. `querySelectorAll`, `classList`, inline style strings and the `%` suffix of the bar width are abstracted.
- The eager timeline setup and the two rAF throttles are modelled separately. The wiring that makes a frame call `updateTimeline` or `handleScroll` is not one Dafny member.
- The browser's shared handle counter: each throttle keeps its own. What matters is that each new handle is the counter's current value, larger than every handle that throttle handed out before (`OnScroll`).
- Timeline step click handler and smooth-scroll anchors (script.js:2-13, 434-445): these only call `scrollIntoView` / `scrollTo`.
- Parallax transforms, hero opacity and the page scroll-progress indicator (script.js:158-167, 185-191): these are unclamped style strings. The indicator divides by a difference that can be 0.
- IntersectionObserver reveal, the `load` opacity fade and the localhost console messages (script.js:31-47, 352-354, 379-382): browser APIs and I/O.
- Particle burst and expanding ring (script.js:50-114): random numbers, trigonometry and Web Animations, all cosmetic.
- Contact-form submit simulation (script.js:117-146): timer-driven writes to an unseen form.
- Ripple, card tilt, hover and focus effects, and the injected CSS (script.js:203-304, 356-376): direct style writes with no logic.
- The disabled `typeWriter` (script.js:307-329): dead, timer-driven code.
