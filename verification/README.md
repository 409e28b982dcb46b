# Greeting card: navigation, envelope opening and photo cursor

A Dafny model of the logic inside a single-page animated greeting card. A
visitor clicks an envelope, the envelope opens into a letter, and the letter
leads to a two-photo gallery. The model covers the three pieces of state the
card keeps and the handlers that change them:

- `Gallery` (`gallery.dfy`): the gallery's selected-photo cursor, an optional
  index over the photo list. Thumbnails open a photo and the overlay closes it.
  The overlay's previous/next buttons move the cursor with wraparound. The
  cursor operations are stated for any photo count `n >= 1`; the card has two
  photos.
- `Envelope` (`envelope.dfy`): the envelope component's `clicked`, `hovered` and
  `showPaper` flags. The click handler is one-shot. The first click asks for
  two delayed callbacks: reveal the paper after 100 ms, and call the parent's
  `onClick` after 1400 ms if the parent supplied one.
- `Timers` (`timers.dfy`): the host's `setTimeout` queue. Pending callbacks are
  kept ordered by due time, and callbacks due at the same time keep the order
  they were scheduled in.
- `Home` (`home.dfy`): the page. It holds the current view (envelope, letter or
  gallery), the four view handlers, and which controls are rendered in each
  view. It composes the other three modules into one transition system over
  discrete milliseconds.
  - An event is one of: a click or hover on a rendered control, time passing
    with no timer due, or the earliest pending timer running.
  - A view change unmounts the old screen's component and mounts the new one
    fresh. `mount` counts the envelope's mounts.
  - `clickedAt` is a history variable that records when the current envelope
    mount accepted its click.

Main results:

- **Invariant.** `Home.Inv` holds on every reachable page. On every reachable
  page the gallery cursor is in range, so the overlay's unchecked
  `photos[selectedPhoto]` read is safe. The timer queue is empty except while
  the envelope is opening; during the opening it holds exactly the rest of the
  sequence paper (+100 ms), `onClick` (+1400 ms), letter (+2600 ms).
- **Envelope exit.** The envelope screen is left only when the letter timer
  runs, 2600 ms after the click, and always for the letter.
- **Gallery entry.** The gallery is entered only from the letter. This holds
  because the model unmounts a screen the moment the view changes; see the
  exit-animation line under "## Left out".
- **Paper timing.** The paper appears exactly 100 ms after the first click.
  Only the paper timer shows it. Once more than 100 ms have passed, the
  envelope, while still on screen, shows the paper.
- **Exactly once.** Each envelope mount calls `onClick` at most once in any run
  of events. Once more than 1400 ms have passed since the first click, it has
  called it exactly once, whatever the visitor did in between.
- **Cursor laws.** `prev` and `next` undo each other on in-range cursors, and
  `n` presses of `next` return to the starting photo.

## Model

| member | source | states |
|---|---|---|
| `Gallery.Open` | src/components/PhotoGallery.tsx:24-26 | opening selects exactly the given index, which is in range exactly when it names one of the photos |
| `Gallery.Close` | src/components/PhotoGallery.tsx:28-30 | closing clears the selection, which is always in range |
| `Gallery.Next` | src/components/PhotoGallery.tsx:32-36 | with no photo selected, next does nothing; otherwise the new index is in `[0, n)`, and the last photo wraps to the first |
| `Gallery.Prev` | src/components/PhotoGallery.tsx:38-42 | with no photo selected, previous does nothing; an in-range index stays in range; the first photo wraps to the last |
| `Gallery.NextBelowLast` | src/components/PhotoGallery.tsx:34 | away from the wrap point, next moves exactly one photo forward |
| `Gallery.PrevAfterNext` | src/components/PhotoGallery.tsx:32-42 | previous after next gives back every in-range selection (and no selection) |
| `Gallery.NextAfterPrev` | src/components/PhotoGallery.tsx:32-42 | next after previous gives back every in-range selection (and no selection) |
| `Gallery.Advance` | src/components/PhotoGallery.tsx:32-36 | pressing next `k` times never creates or clears a selection, and after at least one press the index is in range |
| `Gallery.AdvanceAdd` | src/components/PhotoGallery.tsx:32-36 | `a` presses of next followed by `b` presses equal `a + b` presses |
| `Gallery.AdvanceBelowLast` | src/components/PhotoGallery.tsx:32-36 | below the wrap point, `k` presses of next add `k` to the index |
| `Gallery.AdvanceFullCycle` | src/components/PhotoGallery.tsx:32-36 | pressing next once per photo returns every in-range selection to itself, for any photo count |
| `Gallery.TwoPhotosAlternate` | src/components/PhotoGallery.tsx:11-42 | with the two gallery photos, next from 0 gives 1 and from 1 gives 0, and next and previous coincide |
| `Gallery.Enabled` | src/components/PhotoGallery.tsx:81-172 | the grid has a clickable tile exactly for each index that opens in range; the overlay's controls exist exactly while a photo is selected |
| `Gallery.Step` | src/components/PhotoGallery.tsx:24-42 | a thumbnail selects its own index; the backdrop and the close button clear the selection; previous/next keep a selection present or absent; a click on a rendered control keeps an in-range cursor in range |
| `Gallery.Run` | src/components/PhotoGallery.tsx:81-214 | any sequence of clicks on the grid (one tile per photo) and on the overlay (rendered only while a photo is selected) keeps the cursor in range |
| `Gallery.Enlarged` | src/components/PhotoGallery.tsx:218-226 | the overlay's indexed read needs an in-range cursor; it yields a photo exactly when one is selected, and that photo is the list entry whose id is the index plus one |
| `Envelope.HandleClick` | src/components/AnimatedEnvelope.tsx:16-32 | the envelope ends up clicked; a repeat click changes nothing and requests nothing; the first click requests the paper reveal exactly once, and the `onClick` call exactly once and only when a callback was supplied; each request carries its fixed delay, paper strictly before `onClick` |
| `Envelope.HoverStart` | src/components/AnimatedEnvelope.tsx:46 | hover-start sets the highlight only while not yet clicked, and touches no other flag |
| `Envelope.HoverEnd` | src/components/AnimatedEnvelope.tsx:47 | hover-end always clears the highlight and touches no other flag |
| `Envelope.ShowPaper` | src/components/AnimatedEnvelope.tsx:22-24 | the delayed callback sets `showPaper` and touches no other flag |
| `Envelope.SecondClickIsIgnored` | src/components/AnimatedEnvelope.tsx:16-19 | clicking twice equals clicking once, and the second click requests no timer |
| `Envelope.HoverIgnoredAfterClick` | src/components/AnimatedEnvelope.tsx:46 | once clicked, hover-start changes nothing |
| `Timers.Schedule` | src/components/AnimatedEnvelope.tsx:22-31 | `setTimeout` adds exactly the new timer to the queue; the queue stays ordered by due time; earlier-or-equal timers stay ahead of it, in place; later timers move one place back |
| `Home.ContentBranches` | src/app/page.tsx:117-272 | the three guarded content branches render exactly one screen, the current view's |
| `Home.OnScreen` | src/app/page.tsx:117-272 | a screen's controls are on screen exactly when its guarded content branch renders, which is exactly when it is the current view; `Home.Enabled` offers the envelope, letter and gallery controls only then |
| `Home.Enabled` | src/app/page.tsx:76-272 | the envelope's controls exist only on the envelope screen, the back button everywhere else, both photos buttons only on the letter, the gallery's controls only on the gallery (and then as the gallery renders them); a timer can run only while one is pending |
| `Home.Step` | src/app/page.tsx:85-99 | the back button leads from the gallery to the letter and otherwise to the envelope; both photos buttons lead to the gallery; hovering touches only the envelope's highlight; a gallery control touches only the cursor; waiting only advances the clock; a timer runs at its due time |
| `Home.ClickHandler` | src/app/page.tsx:228 | a click on the envelope leaves it clicked and changes neither the clock, the screen, the mount nor the gallery; a repeat click changes nothing; a first click records the click time |
| `Home.FireNext` | src/components/AnimatedEnvelope.tsx:22-31 | running the head timer moves the clock to its due time and removes it; the paper timer shows the paper on its own mount; the call into the page leaves everything but the clock and queue alone and adds the letter switch 1200 ms on; the letter timer shows the letter |
| `Home.SetView` | src/app/page.tsx:117-272 | the view becomes the target; re-setting the current view changes nothing; a change remounts the target screen fresh (counting envelope mounts) and leaves time and pending timers alone |
| `Home.HandleEnvelopeClick` | src/app/page.tsx:12-17 | the page's envelope handler changes nothing but the timer queue, to which it adds one letter switch due 1200 ms later |
| `Home.HandleLetterClose` | src/app/page.tsx:19-21 | going back from the letter shows the envelope, mounted again unopened, with the clock and the queue unchanged |
| `Home.HandleShowGallery` | src/app/page.tsx:23-25 | showing the photos opens the gallery with no photo enlarged, with the clock, mount and queue unchanged |
| `Home.HandleBackToLetter` | src/app/page.tsx:27-29 | going back from the gallery shows the letter and drops the selection, with the clock, mount and queue unchanged |
| `Home.ViewHandlersIdempotent` | src/app/page.tsx:19-29 | calling any of the three view-assigning handlers twice has the effect of calling it once |
| `Home.InitialInv` | src/app/page.tsx:10 | the page starts on the envelope with all envelope flags false and satisfies the invariant |
| `Home.FirstClickSchedulesSequence` | src/components/AnimatedEnvelope.tsx:16-31 | the first click on a mount records the click time and leaves exactly the paper timer (+100) and the `onClick` timer (+1400) pending, in that order |
| `Home.FireTimerRunsEarliest` | src/components/AnimatedEnvelope.tsx:22-31 | the timer that runs is the earliest pending one, and the clock does not move backwards to reach it |
| `Home.StepKeepsInv` | src/app/page.tsx:12-29 | every event that can happen keeps the page invariant: cursor in range, unmounted state initial, queue holding exactly the rest of the opening sequence |
| `Home.TraceKeepsInv` | src/app/page.tsx:12-29 | the invariant holds after any run of events |
| `Home.BackButtonTargets` | src/app/page.tsx:85-94 | the back button leads from the gallery to the letter and from the letter to the envelope |
| `Home.GalleryEnteredOnlyFromLetter` | src/app/page.tsx:97-110 | the gallery is entered only from the letter, by one of its two photos buttons |
| `Home.GalleryNeverToEnvelope` | src/app/page.tsx:85-86 | no event leads from the gallery straight to the envelope |
| `Home.EnvelopeLeftOnlyByLetterTimer` | src/app/page.tsx:76-113 | with no navigation rendered on the envelope screen, it is left only by the letter timer, always for the letter, exactly 2600 ms after the click |
| `Home.RepeatClickIsIgnored` | src/components/AnimatedEnvelope.tsx:16-19 | on the page, a click on an already-clicked envelope changes nothing, including the timer queue |
| `Home.PaperRevealTiming` | src/components/AnimatedEnvelope.tsx:22-24 | when the paper timer is the next to run, it runs on the envelope screen exactly 100 ms after the click and turns `showPaper` on |
| `Home.PaperOnlyByTimer` | src/components/AnimatedEnvelope.tsx:16-47 | no step but the paper timer turns the paper on for the envelope on screen, and that step happens exactly 100 ms after the click; clicks and hovers never show it |
| `Home.PaperShownAfterDelay` | src/components/AnimatedEnvelope.tsx:16-24 | once more than 100 ms have passed since a mount's first click, that mount, if still on screen, shows the paper, whatever events came in between |
| `Home.OnClickTiming` | src/components/AnimatedEnvelope.tsx:27-31 | the `onClick` timer runs 1400 ms after the click, after the paper is shown, and leaves only the letter switch pending, 1200 ms later |
| `Home.EnvelopeFlagsPersist` | src/components/AnimatedEnvelope.tsx:12-24 | while the same envelope mount stays on screen, `clicked` and `showPaper` never revert to false |
| `Home.EnlargedPhoto` | src/components/PhotoGallery.tsx:172-226 | on every reachable page the overlay's indexed read is safe, and it shows a photo only on the gallery screen with a selection |
| `Home.OnClickAtMostOncePerMount` | src/components/AnimatedEnvelope.tsx:16-31 | in any run of events, each envelope mount calls `onClick` at most once |
| `Home.OnClickExactlyOnce` | src/components/AnimatedEnvelope.tsx:27-31 | once more than 1400 ms have passed since a mount's first click, that mount has called `onClick` exactly once |
| `Home.EnvelopeGoneAfterOpening` | src/app/page.tsx:12-17 | once more than 2600 ms have passed since the first click, the clicked envelope mount is no longer on screen |
| `Home.DoubleClickOpensLetterOnce` | src/components/AnimatedEnvelope.tsx:16-31 | two clicks in a row, followed by the timers running, call `onClick` once and reach the letter at 2600 ms with nothing pending |
| `Home.GalleryNextWraps` | src/components/PhotoGallery.tsx:32-36 | from the letter, opening the gallery and the first photo, next shows the second photo and then the first again |

## Left out

- Animation values, durations, easing, spring settings and `window.innerHeight` scaling: presentational floating-point values with no behavioural contract.
- `src/components/Envelope3D.tsx`, `src/components/Envelope.tsx` and the decorative background: a float render loop and hover styling, with no state the core reads.
- The letter's confetti timer in `src/components/LetterContent.tsx`: a call into a foreign library on a timer that is cleared on unmount. Only the letter's photos button (`LetterContent.tsx:170`) is modelled, as the `LetterPhotos` event.
- React rendering and reconciliation. Events are strictly sequential, with state committed between them. So the window where two clicks in one event tick both read a stale `isClicked == false` is not modelled.
- Exit animations. During its exit animation a leaving screen stays visible and clickable, with its handlers still wired. The model unmounts it the moment the view changes. This abstraction has four consequences:
  - After "Back to Envelope", the exiting nav bar (`page.tsx:77-113`) and letter (`page.tsx:247-256`) keep their photos buttons, wired to `handleShowGallery`. A click there during the exit sets the view to the gallery from the envelope screen. `Home.GalleryEnteredOnlyFromLetter`, the "Gallery entry" result and `Home.Enabled` exclude this.
  - After the overlay closes, the exiting overlay (`PhotoGallery.tsx:171-235`) keeps the previous/next closures of the render where a photo was selected. A click on next during its exit selects a photo again. `Gallery.Enabled` does not offer the overlay controls once the cursor is `None`.
  - The main content waits for the leaving screen's exit (`AnimatePresence mode="wait"`, `page.tsx:117`). The entering screen mounts only after it, so for that time the letter's photos button, the gallery's tiles and the envelope are not yet clickable. `Home.Enabled` offers them at once. This is a superset of the real behaviour, and every proved property covers it.
  - Every result proved over runs of events, including the invariant, holds only for runs in which no control on an exiting screen is clicked.
- Layout. The enlarged-photo overlay covers the thumbnail grid. The model still lets thumbnails be clicked while a photo is open (a superset of real behaviour), and every proved property covers that case too.
- Image loading and fallback glyphs. `Gallery.Enlarged` returns the photo record. Whether its image or its glyph is drawn is not modelled.
- Host timer lateness. A timer runs exactly at its due time, and time cannot pass over a due timer. Browser clamping and late delivery are not modelled.
- `Gallery.Next`, `Gallery.Prev`: require `n > 0`. The gallery's list always has two entries; with an empty list the source's `% 0` would produce NaN.

## Notes on the code

- The letter appears 2600 ms after the click. The envelope calls the page after 1400 ms (`AnimatedEnvelope.tsx:27-31`), and the page waits another 1200 ms (`page.tsx:14-16`).
- The one-shot click guard holds per mount of the envelope, not per visit to the site. Returning to the envelope screen mounts the component afresh (`page.tsx:118`), which resets `isClicked`. The model proves "at most once per mount".
- Previous and next are no-ops without a selection (`PhotoGallery.tsx:33`, `:39`).
- Neither timer chain is cancelled on unmount. The invariant shows this is harmless: the envelope is only ever left by the last timer of its own chain, so no timer is pending when it goes away.
