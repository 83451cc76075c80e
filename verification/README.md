# Slide/step navigation of the hydrogen presentation, in Dafny

This project models the core of a browser slide-show application: the
navigation state machine of `App.tsx` and the transition and layout selection
of `components/SlideRenderer.tsx`.

- **Deck** (`deck.dfy`, from `types.ts`): a deck is a sequence of slides, each with an
  id, a layout tag, a number of reveal steps (`clicks`) and optional media.
- **Navigation** (`navigation.dfy`, from `App.tsx`): the state is a position
  (slide index, click step) plus the direction of the last slide crossing.
  `GoNext` and `GoPrev` are pure transitions. Step-level moves come before
  slide-level moves. A crossing sets the direction to 1 or -1 and resets the
  step to 0. At either end a move does nothing. The module also holds the
  derived values the controls show: the two disabled predicates, the slide
  counter and the progress width. It also holds the key binding and runs of
  commands from the initial state.
- **Linear** (`linear.dfy`): an independent reference. It lays all positions of
  a deck on one line and proves that `GoNext` is "the next position". It also
  proves exactly when `GoPrev` is "the previous position": only when it hides a
  step, or crosses back onto a slide without reveal steps.
- **Renderer** (`renderer.dfy`, from `SlideRenderer.tsx`): the enter, centre and
  exit offsets chosen by direction, the animation keyed by slide id, and the
  dispatch from layout tag to arrangement.
- **Stage** (`stage.dfy`): the state `App.tsx` hands to the renderer. It proves
  when a transition plays and which way it sweeps.
- **Presentation** (`presentation.dfy`, from `data/presentation.tsx`): the
  shipped twenty-slide deck, abstracted to id, layout, clicks and media, plus
  worked scenarios.

A backward crossing lands on step 0 of the previous slide, not on its last
step (`App.tsx:33`). So "prev" undoes "next" only in some cases:
- it always undoes a step reveal;
- it undoes a slide crossing only when the slide left behind has no reveal steps.

A backward crossing therefore lands on step 0 of the previous slide even when
that slide has reveal steps; `StepDeckScenario` walks through a case. The progress value
`index / (length - 1) * 100` (`App.tsx:106`) is not clamped, and on a
one-slide deck it is 0 / 0; `ProgressWidth` states both.

## Model

| member | source | states |
|---|---|---|
| Navigation.GoNext | App.tsx:17-25 | goNext stays on the deck and moves at most one slide forward. A crossing sets direction 1 and step 0. Staying on the slide keeps the direction. It preserves the reachable-state invariant. |
| Navigation.GoPrev | App.tsx:27-35 | goPrev moves at most one slide back. A crossing sets direction -1 and step 0. Staying on the slide keeps the direction. |
| Navigation.GoPrevKeepsInv | App.tsx:27-35 | goPrev preserves the reachable-state invariant. |
| Navigation.NextRevealsStep | App.tsx:18-19 | While steps remain, goNext increments the step and keeps the index and direction. |
| Navigation.NextCrossesForward | App.tsx:20-23 | On the last step of a slide that is not last, goNext goes to step 0 of the next slide with direction 1. |
| Navigation.NextStopsAtEnd | App.tsx:18-25 | On the last step of the last slide, goNext changes nothing. |
| Navigation.PrevHidesStep | App.tsx:28-29 | With a step shown, goPrev decrements it and changes nothing else. |
| Navigation.PrevCrossesBackward | App.tsx:30-33 | On step 0 of a slide after the first, goPrev goes to step 0 of the previous slide with direction -1. |
| Navigation.PrevStopsAtStart | App.tsx:27-35 | At (0, 0), goPrev changes nothing. |
| Navigation.PrevUndoesReveal | App.tsx:17-35 | goPrev after a step-revealing goNext restores the exact prior state. |
| Navigation.PrevAfterForwardCrossing | App.tsx:20-33 | After a forward crossing, goPrev restores the prior position iff the slide left has no reveal steps. The direction becomes -1. |
| Navigation.NextUndoesHide | App.tsx:17-35 | goNext after a step-hiding goPrev restores the exact prior state. |
| Navigation.NextAfterBackwardCrossing | App.tsx:17-35 | After a backward crossing, goNext restores the prior position iff the previous slide has no reveal steps. |
| Navigation.Initial | App.tsx:10-12 | The session starts on step 0 of slide 0 with direction 0 (the three `useState` initial values). |
| Navigation.PrevDisabled | App.tsx:77 | The prev button's `disabled` expression: index 0 and step 0. Whenever it holds, goPrev is a no-op. |
| Navigation.NextDisabled | App.tsx:87 | The next button's `disabled` expression: last index and step equal to the slide's clicks. Whenever it holds, goNext is a no-op. |
| Navigation.KeyCommand | App.tsx:51-55 | The `handleKeyDown` dispatch: ArrowRight, Space and Enter give next, ArrowLeft gives prev, anything else nothing. |
| Navigation.HandleKey | App.tsx:50-56 | A key press applies the dispatched command and keeps the position on the deck. |
| Navigation.KeyCommandIntended | App.tsx:51-55 | The intended binding in full: next exactly for ArrowRight, " " (the space bar), Space and Enter; prev exactly for ArrowLeft; nothing for any other key. |
| Navigation.SpaceBarIgnored | App.tsx:51 | As written, the space bar's key name " " matches no compared string, so a space press changes nothing. |
| Navigation.SpaceBarAdvancesIntended | App.tsx:51 | With the intended binding a space press equals goNext, and " " is the only key whose command differs from the written one. |
| Navigation.NextDisabledIffNoOp | App.tsx:87 | On a deck position, the next button is disabled exactly when goNext is a no-op. |
| Navigation.PrevDisabledIffNoOp | App.tsx:77 | On a deck position, the prev button is disabled exactly when goPrev is a no-op. |
| Navigation.DisabledNeedsValidStep | App.tsx:77-87 | Off the invariant, the buttons and the moves disagree. A step past the last one on the last slide, or below 0 on the first slide, gives a no-op move whose button is enabled. |
| Navigation.ClickNext | App.tsx:85-88 | A click on the next button, which a disabled button ignores, equals goNext on every deck position. |
| Navigation.ClickPrev | App.tsx:75-78 | A click on the prev button, which a disabled button ignores, equals goPrev on every deck position. |
| Navigation.Counter | App.tsx:83 | The counter shows a number in [1, deck length] over the deck length. It reads 1 exactly on the first slide and the full length exactly on the last. |
| Navigation.ProgressWidth | App.tsx:106 | The width is undefined (0/0) exactly for a one-slide deck. Otherwise it lies in [0, 100], is 0 exactly on the first slide and 100 exactly on the last. |
| Navigation.ProgressMonotone | App.tsx:106 | The progress width never decreases as the slide index grows. |
| Navigation.KeyBindings | App.tsx:50-56 | ArrowRight, Space and Enter call goNext. ArrowLeft calls goPrev. Every other key leaves the state unchanged. |
| Navigation.Apply | App.tsx:51-55 | One command keeps the position on the deck and preserves the invariant. |
| Navigation.Run | App.tsx:10-35 | Any sequence of commands from an invariant state ends in an invariant state. |
| Navigation.Reachable | App.tsx:10-12 | Every state reachable from (0, 0, direction 0) has an index on the deck and a step within the slide's clicks. Its direction is -1, 0 or 1, and 0 only on the first slide. |
| Navigation.Advance | App.tsx:17-25 | Repeated goNext stays on the deck and never lowers the slide index. |
| Navigation.AdvanceWithinSlide | App.tsx:18-19 | k presses of next within a slide's remaining steps reveal exactly k more steps. They keep index and direction. |
| Navigation.AdvanceThroughSlide | App.tsx:17-25 | From step 0 of a slide that is not last, clicks + 1 presses land on step 0 of the next slide with direction 1. |
| Navigation.AdvanceOnLastSlide | App.tsx:17-25 | From step 0 of the last slide, clicks + 1 presses stop at its last step and keep the direction. |
| Linear.SlideStartGrows | types.ts:12 | Each slide holds clicks + 1 >= 1 positions, so later slides start strictly later on the line. |
| Linear.Ordinal | App.tsx:10-11 | A position's place lies within its slide's block of places and below the deck's total. |
| Linear.Locate | App.tsx:10-11 | The search returns a deck position whose place is the one asked for. |
| Linear.PositionAt | App.tsx:10-11 | Every place on the line is the place of some deck position. |
| Linear.OrdinalInjective | App.tsx:10-11 | Distinct deck positions have distinct places. |
| Linear.PositionAtOrdinal | App.tsx:10-11 | Place and position are inverse to each other. |
| Linear.NextIsSuccessor | App.tsx:17-25 | goNext moves to the next place on the line, and stays put on the last place. |
| Linear.PrevIsPredecessorIff | App.tsx:27-35 | goPrev always moves to an earlier place. It moves to the immediately previous place iff it hides a step or crosses onto a slide without reveal steps. |
| Renderer.EnterEdge | components/SlideRenderer.tsx:15-16 | The `enter` variant's x choice: the right edge for a positive direction, otherwise the left edge. |
| Renderer.ExitEdge | components/SlideRenderer.tsx:34-36 | The `exit` variant's x choice: the right edge for a negative direction, otherwise the left edge. |
| Renderer.SlideVariants | components/SlideRenderer.tsx:14-46 | The centre offset is 0. For a forward move both slides sweep left, and for a backward move both sweep right. With direction 0 the enter and exit offsets coincide at the left edge. |
| Renderer.EdgesOpposite | components/SlideRenderer.tsx:15-36 | The entering slide starts right iff direction > 0. The exiting slide leaves right iff direction < 0. For a nonzero direction the two edges are opposite; for 0 both are left. |
| Renderer.CenterIndependent | components/SlideRenderer.tsx:22-27 | The resting offset is 0 for every direction. |
| Renderer.Transition | components/SlideRenderer.tsx:48-66 | An enter/exit pair plays iff the slide id changes. For a nonzero direction its two edges are opposite. |
| Renderer.RenderLayout | components/SlideRenderer.tsx:71-157 | Every layout calls the content generator exactly once, with the given step. Only the two split layouts show a picture, and it is the slide's image. Only cover is full-bleed; it shows the slide's own background, and does so iff that is a non-empty string. `center` gives the padded, centred arrangement. |
| Renderer.SplitLayoutsMirror | components/SlideRenderer.tsx:91-132 | image-right puts content before image. image-left puts image before content, and is the mirror of image-right. |
| Renderer.UnmatchedTagsFallThrough | components/SlideRenderer.tsx:135-156 | two-cols, default and any tag not matched earlier give the same padded arrangement. |
| Renderer.LayoutIgnoresIdAndClicks | components/SlideRenderer.tsx:71-157 | The arrangement depends on the tag, media and step, not on the id or the step count. |
| Stage.StageTransition | components/SlideRenderer.tsx:48-66 | The transition the renderer plays when App.tsx passes a new state: `Transition` between the old and new current slides, with the new direction. |
| Stage.Shown | App.tsx:69 | The stage shows the current slide's arrangement, with the content generated for the current step. |
| Stage.AnimatesIffSlideChanges | components/SlideRenderer.tsx:49-55 | With distinct ids, a transition plays exactly when the slide index changes. |
| Stage.SharedIdHidesCrossing | components/SlideRenderer.tsx:50 | With two slides sharing an id, crossing between them plays no transition. |
| Stage.NextTransition | App.tsx:17-25 | A goNext plays a transition only if it crosses. The incoming slide then enters from the right and the outgoing one exits left. |
| Stage.PrevTransition | App.tsx:27-35 | A goPrev plays a transition only if it crosses. The incoming slide then enters from the left and the outgoing one exits right. |
| Stage.ReachableTransitionsHaveDirection | App.tsx:12 | Every transition played from an invariant state has a nonzero direction, so its two edges are opposite. |
| Presentation.Slides | data/presentation.tsx:161-924 | The shipped slides array, in order, abstracted to id, layout tag, clicks and the photo of its image or background. |
| Presentation.SlidesShape | data/presentation.tsx:161-924 | The shipped deck has 20 slides with ids 1..20 in order. None has reveal steps, the ids are distinct, and every tag is a declared layout. |
| Presentation.AdvanceOnFlatDeck | App.tsx:20-23 | On a deck without reveal steps, k presses of next from the start show slide k at step 0. |
| Presentation.FlatDeckPrevUndoesNext | App.tsx:20-33 | On a deck without reveal steps, prev undoes every next that moved. |
| Presentation.WalkShippedDeck | data/presentation.tsx:161-924 | Nineteen presses of next reach slide 20. There the next button is disabled, the counter reads 20/20 and the progress is 100. |
| Presentation.StepDeckScenario | App.tsx:17-35 | On slides with 0, 2 and 0 reveal steps, four nexts go (1,0), (1,1), (1,2), (2,0). A prev from (2,0) goes to (1,0) with direction -1. A next at (2,0) stays. |

## Left out

- Fullscreen toggling (`App.tsx:37-47`) drives the browser's fullscreen API and has no navigation logic.
- The AI assistant, its service and the animated background (`components/AiAssistant.tsx`, `services/geminiService.ts`, `components/Background.tsx`) are network, audio and purely visual code. None of them changes the navigation state itself. The `keydown` listener (`App.tsx:50-57`) does not look at the event's target, though, so ArrowLeft, ArrowRight and Enter typed into the assistant's chat input also move the slides; the model treats every key press as a navigation input.
- The slide markup and the cost calculator in `data/presentation.tsx` use floating-point arithmetic over UI state. Only the deck's id, layout, click count and media are modelled.
- Presentation.Slides: each image and background URL is shortened to its Unsplash photo identifier (such as `photo-1497435334941-8c899ee9e8e9`); the query parameters are dropped. Only whether a picture is present, and which one, matters to the arrangement.
- A slide's title and narration text are opaque to navigation and rendering dispatch.
- The content generator is opaque. An arrangement records only the step it is called with (`Content(step)`).
- Spring constants, opacity, scale, blur, z-index and CSS classes are rendering-library detail.
- `AnimatePresence`'s pop-layout mode and the cancelling of in-flight animations belong to the animation library.
- Registering and removing the `keydown` listener is event wiring. Only the key-to-command mapping is modelled.
- React applies the several state updates of one move together. The model treats each move as one atomic step.
- Navigation.ProgressWidth: computed with exact reals. It does not model double-precision rounding or the `%` string formatting.
- Deck.Slide: `clicks` is a natural number. The source's type allows any number, but the deck is fixed, validated data where every count is 0.
- Navigation.KeyCommand matches the literal key names the handler compares against. How a browser names a physical key is outside the model; the space-bar case is under Findings.

## Findings

| source | as written | input that shows it | evidently intended | confidence | as-written member | corrected member |
|---|---|---|---|---|---|---|
| App.tsx:51 | `e.key === 'Space'` is compared, but a browser reports the space bar's `key` as `" "` (`"Space"` is its `code`), so the keydown handler never advances on the space bar (a focused prev/next button still answers space through its `onClick`) | a keydown whose `key` is `" "` | the space bar advances like ArrowRight | medium, not executed (rests on the browser's key naming, which is outside the model) | Navigation.SpaceBarIgnored | Navigation.KeyCommandIntended |

`HandleKey` keeps the handler as written. The command-level model (`Apply`,
`Run`) does not depend on key names, and `SpaceBarAdvancesIntended` proves the
intended binding advances on a space press. Like the written handler, the
intended binding does not check the event's target, so it would also advance
on every space typed into the assistant's chat input.

