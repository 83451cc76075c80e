/** The deck the application ships (data/presentation.tsx), abstracted to
    each slide's id, layout tag, reveal steps and media (a picture is
    recorded by its photo identifier, not its full URL), together with the
    worked navigation scenarios run over it and over a small deck with
    reveal steps. */
module Presentation {
  import opened Wrappers
  import opened Deck
  import opened Navigation

  function Plain(id: int, layout: string): Slide {
    Slide(id, layout, 0, None, None)
  }

  function WithImage(id: int, layout: string, photo: string): Slide {
    Slide(id, layout, 0, Some(photo), None)
  }

  function WithBackground(id: int, photo: string): Slide {
    Slide(id, "cover", 0, None, Some(photo))
  }

  /** The twenty slides, in order. */
  function Slides(): Deck {
    [ WithBackground(1, "photo-1497435334941-8c899ee9e8e9"),
      Plain(2, "center"),
      Plain(3, "center"),
      Plain(4, "two-cols"),
      WithImage(5, "image-right", "photo-1581093458791-9f3c3900df4b"),
      Plain(6, "center"),
      Plain(7, "two-cols"),
      WithImage(8, "image-left", "photo-1532601224476-15c79f2f7a51"),
      WithBackground(9, "photo-1451187580459-43490279c0fa"),
      Plain(10, "two-cols"),
      WithImage(11, "image-left", "photo-1635070041078-e363dbe005cb"),
      Plain(12, "center"),
      Plain(13, "center"),
      WithImage(14, "image-right", "photo-1628126235206-526053308ac2"),
      WithBackground(15, "photo-1468581264429-2548ef9eb732"),
      Plain(16, "two-cols"),
      WithImage(17, "image-left", "photo-1509391366360-2e959784a276"),
      Plain(18, "center"),
      Plain(19, "center"),
      WithBackground(20, "photo-1451187580459-43490279c0fa") ]
  }

  /** No slide of the deck has reveal steps. */
  predicate NoRevealSteps(deck: Deck) {
    forall i :: 0 <= i < |deck| ==> deck[i].clicks == 0
  }

  /** The shipped deck: twenty slides numbered 1 to 20 in order, none with
      reveal steps, every tag one the type declares. */
  lemma SlidesShape()
    ensures |Slides()| == 20
    ensures forall i :: 0 <= i < |Slides()| ==> Slides()[i].id == i + 1
    ensures NoRevealSteps(Slides())
    ensures UniqueIds(Slides())
    ensures DeclaredLayouts(Slides())
  {}

  /** On a deck without reveal steps, k presses of "next" from the start
      show slide k. */
  lemma {:induction false} AdvanceOnFlatDeck(deck: Deck, k: nat)
    requires NoRevealSteps(deck) && k < |deck|
    ensures Advance(deck, Initial, k).pos == Position(k, 0)
  {
    if k > 0 {
      AdvanceOnFlatDeck(deck, k - 1);
    }
  }

  /** On a deck without reveal steps, "prev" undoes every "next" that moved. */
  lemma FlatDeckPrevUndoesNext(deck: Deck, s: State)
    requires NoRevealSteps(deck) && ValidPosition(deck, s.pos) && !NextDisabled(deck, s)
    ensures GoPrev(GoNext(deck, s)).pos == s.pos
  {}

  /** Nineteen presses of "next" walk the shipped deck to its last slide,
      where the next button is disabled, the counter reads 20 / 20 and the
      progress bar is full. */
  lemma WalkShippedDeck()
    ensures var s := Advance(Slides(), Initial, 19);
            && s.pos == Position(19, 0)
            && NextDisabled(Slides(), s)
            && Counter(Slides(), s) == (20, 20)
            && ProgressWidth(Slides(), s) == Some(100.0)
  {
    SlidesShape();
    AdvanceOnFlatDeck(Slides(), 19);
  }

  /** A three-slide deck whose middle slide has two reveal steps. */
  function StepDeck(): Deck {
    [Plain(1, "default"), Slide(2, "default", 2, None, None), Plain(3, "default")]
  }

  /** Four presses of "next" reveal both steps of the middle slide and
      reach the last slide; "prev" from there goes back to step 0 of the
      middle slide, not to its last step; "next" on the last step of the
      last slide changes nothing. */
  lemma StepDeckScenario()
    ensures Run(StepDeck(), Initial, [Next]) == State(Position(1, 0), 1)
    ensures Run(StepDeck(), Initial, [Next, Next]) == State(Position(1, 1), 1)
    ensures Run(StepDeck(), Initial, [Next, Next, Next]) == State(Position(1, 2), 1)
    ensures Run(StepDeck(), Initial, [Next, Next, Next, Next]) == State(Position(2, 0), 1)
    ensures Run(StepDeck(), Initial, [Next, Next, Next, Next, Prev]) == State(Position(1, 0), -1)
    ensures Run(StepDeck(), Initial, [Next, Next, Next, Next, Next]) == State(Position(2, 0), 1)
  {}
}
