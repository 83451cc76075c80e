/** The slide/step navigation state machine of App.tsx: where the
    presentation stands, the two guarded moves `goNext` and `goPrev`, the
    values the controls derive from the state, and the keyboard binding. */
module Navigation {
  import opened Wrappers
  import opened Deck

  /** Which slide is shown and how many of its reveal steps are visible. */
  datatype Position = Position(index: int, step: int)

  /** The three state cells App.tsx keeps: the position, and the direction
      of the last slide crossing (1 forward, -1 backward, 0 before any). */
  datatype State = State(pos: Position, direction: int)

  /** Every session starts on step 0 of the first slide, with no direction. */
  const Initial: State := State(Position(0, 0), 0)

  /** The current slide exists, so reading its fields is defined. */
  predicate OnDeck(deck: Deck, p: Position) {
    0 <= p.index < |deck|
  }

  /** A position of the deck: an existing slide and one of its steps. */
  predicate ValidPosition(deck: Deck, p: Position) {
    OnDeck(deck, p) && 0 <= p.step <= deck[p.index].clicks
  }

  /** What holds of every state reachable from Initial. */
  predicate Inv(deck: Deck, s: State) {
    && ValidPosition(deck, s.pos)
    && s.direction in {-1, 0, 1}
    && (s.direction == 0 ==> s.pos.index == 0)
  }

  /** `goNext`: reveal the next step of the current slide while one is left,
      otherwise cross forward to step 0 of the next slide; on the last step
      of the last slide, do nothing. */
  function GoNext(deck: Deck, s: State): (r: State)
    requires OnDeck(deck, s.pos)
    ensures OnDeck(deck, r.pos)
    ensures r.pos.index == s.pos.index || r.pos.index == s.pos.index + 1
    ensures r.pos.index == s.pos.index ==> r.direction == s.direction
    ensures r.pos.index != s.pos.index ==> r.pos.step == 0 && r.direction == 1
    ensures Inv(deck, s) ==> Inv(deck, r)
  {
    if s.pos.step < deck[s.pos.index].clicks then
      s.(pos := s.pos.(step := s.pos.step + 1))
    else if s.pos.index < |deck| - 1 then
      State(Position(s.pos.index + 1, 0), 1)
    else
      s
  }

  /** `goPrev`: hide the last revealed step while one is shown, otherwise
      cross back to step 0 (not the last step) of the previous slide; on
      step 0 of the first slide, do nothing. It never reads the deck. */
  function GoPrev(s: State): (r: State)
    ensures r.pos.index == s.pos.index || r.pos.index == s.pos.index - 1
    ensures r.pos.index == s.pos.index ==> r.direction == s.direction
    ensures r.pos.index != s.pos.index ==> r.pos.step == 0 && r.direction == -1
  {
    if s.pos.step > 0 then
      s.(pos := s.pos.(step := s.pos.step - 1))
    else if s.pos.index > 0 then
      State(Position(s.pos.index - 1, 0), -1)
    else
      s
  }

  lemma GoPrevKeepsInv(deck: Deck, s: State)
    ensures Inv(deck, s) ==> Inv(deck, GoPrev(s))
  {}

  // ---------------------------------------------------------------------
  // The cases of the two moves

  lemma NextRevealsStep(deck: Deck, s: State)
    requires OnDeck(deck, s.pos) && s.pos.step < deck[s.pos.index].clicks
    ensures GoNext(deck, s).pos == Position(s.pos.index, s.pos.step + 1)
    ensures GoNext(deck, s).direction == s.direction
  {}

  lemma NextCrossesForward(deck: Deck, s: State)
    requires ValidPosition(deck, s.pos)
    requires s.pos.step == deck[s.pos.index].clicks && s.pos.index < |deck| - 1
    ensures GoNext(deck, s) == State(Position(s.pos.index + 1, 0), 1)
  {}

  lemma NextStopsAtEnd(deck: Deck, s: State)
    requires ValidPosition(deck, s.pos)
    requires s.pos.step == deck[s.pos.index].clicks && s.pos.index == |deck| - 1
    ensures GoNext(deck, s) == s
  {}

  lemma PrevHidesStep(s: State)
    requires s.pos.step > 0
    ensures GoPrev(s) == State(Position(s.pos.index, s.pos.step - 1), s.direction)
  {}

  lemma PrevCrossesBackward(s: State)
    requires s.pos.step == 0 && s.pos.index > 0
    ensures GoPrev(s) == State(Position(s.pos.index - 1, 0), -1)
  {}

  lemma PrevStopsAtStart(s: State)
    requires s.pos == Position(0, 0)
    ensures GoPrev(s) == s
  {}

  // ---------------------------------------------------------------------
  // How far the two moves undo each other

  /** A step reveal is undone exactly, direction included. */
  lemma PrevUndoesReveal(deck: Deck, s: State)
    requires ValidPosition(deck, s.pos) && s.pos.step < deck[s.pos.index].clicks
    ensures GoPrev(GoNext(deck, s)) == s
  {}

  /** A forward crossing is undone, as far as the position goes, exactly
      when the slide left behind has no reveal steps: going back lands on
      its step 0, not on the step it was left at. */
  lemma PrevAfterForwardCrossing(deck: Deck, s: State)
    requires ValidPosition(deck, s.pos)
    requires s.pos.step == deck[s.pos.index].clicks && s.pos.index < |deck| - 1
    ensures GoPrev(GoNext(deck, s)).pos == s.pos <==> deck[s.pos.index].clicks == 0
    ensures GoPrev(GoNext(deck, s)).direction == -1
  {}

  /** Hiding a step is undone exactly by revealing it again. */
  lemma NextUndoesHide(deck: Deck, s: State)
    requires ValidPosition(deck, s.pos) && s.pos.step > 0
    ensures GoNext(deck, GoPrev(s)) == s
  {}

  /** A backward crossing lands on step 0 of the previous slide, so going
      forward again returns to the position left exactly when that slide
      has no reveal steps. */
  lemma NextAfterBackwardCrossing(deck: Deck, s: State)
    requires ValidPosition(deck, s.pos) && s.pos.step == 0 && s.pos.index > 0
    ensures GoNext(deck, GoPrev(s)).pos == s.pos <==> deck[s.pos.index - 1].clicks == 0
  {}

  // ---------------------------------------------------------------------
  // The controls

  /** The prev button's `disabled` expression. */
  predicate PrevDisabled(s: State)
    ensures PrevDisabled(s) ==> GoPrev(s) == s
  {
    s.pos.index == 0 && s.pos.step == 0
  }

  /** The next button's `disabled` expression. */
  predicate NextDisabled(deck: Deck, s: State)
    requires OnDeck(deck, s.pos)
    ensures NextDisabled(deck, s) ==> GoNext(deck, s) == s
  {
    s.pos.index == |deck| - 1 && s.pos.step == deck[s.pos.index].clicks
  }

  /** On a deck position the next button is disabled exactly when
      `goNext` would change nothing. */
  lemma NextDisabledIffNoOp(deck: Deck, s: State)
    requires ValidPosition(deck, s.pos)
    ensures NextDisabled(deck, s) <==> GoNext(deck, s) == s
  {}

  /** On a deck position the prev button is disabled exactly when
      `goPrev` would change nothing. */
  lemma PrevDisabledIffNoOp(deck: Deck, s: State)
    requires ValidPosition(deck, s.pos)
    ensures PrevDisabled(s) <==> GoPrev(s) == s
  {}

  /** The agreement needs the step to be in range: past the last step of
      the last slide `goNext` changes nothing, yet the button is enabled;
      below step 0 on the first slide the same holds of `goPrev`. */
  lemma DisabledNeedsValidStep(deck: Deck)
    requires |deck| > 0
    ensures var s := State(Position(|deck| - 1, deck[|deck| - 1].clicks + 1), 1);
            GoNext(deck, s) == s && !NextDisabled(deck, s)
    ensures var s := State(Position(0, -1), 0);
            GoPrev(s) == s && !PrevDisabled(s)
  {}

  /** A click on the next button: a disabled button ignores the click. */
  function ClickNext(deck: Deck, s: State): (r: State)
    requires OnDeck(deck, s.pos)
    ensures ValidPosition(deck, s.pos) ==> r == GoNext(deck, s)
  {
    if NextDisabled(deck, s) then s else GoNext(deck, s)
  }

  /** A click on the prev button: a disabled button ignores the click. */
  function ClickPrev(deck: Deck, s: State): (r: State)
    ensures ValidPosition(deck, s.pos) ==> r == GoPrev(s)
  {
    if PrevDisabled(s) then s else GoPrev(s)
  }

  /** The "n / total" counter: the 1-based slide number and the deck size. */
  function Counter(deck: Deck, s: State): (r: (int, int))
    requires OnDeck(deck, s.pos)
    ensures 1 <= r.0 <= r.1 == |deck|
    ensures r.0 == 1 <==> s.pos.index == 0
    ensures r.0 == r.1 <==> s.pos.index == |deck| - 1
  {
    (s.pos.index + 1, |deck|)
  }

  /** The progress bar width in percent, `index / (length - 1) * 100`,
      computed exactly; None where the division is 0 / 0 (a one-slide deck)
      and the width is not a number. */
  function ProgressWidth(deck: Deck, s: State): (r: Option<real>)
    requires OnDeck(deck, s.pos)
    ensures r.None? <==> |deck| == 1
    ensures r.Some? ==> 0.0 <= r.value <= 100.0
    ensures r.Some? ==> (r.value == 0.0 <==> s.pos.index == 0)
    ensures r.Some? ==> (r.value == 100.0 <==> s.pos.index == |deck| - 1)
  {
    if |deck| == 1 then None
    else
      var i, n := s.pos.index as real, (|deck| - 1) as real;
      assert i / n <= 1.0 by { assert i <= n; }
      Some(i / n * 100.0)
  }

  /** The bar never shrinks as the slide index grows. */
  lemma ProgressMonotone(deck: Deck, s: State, t: State)
    requires OnDeck(deck, s.pos) && OnDeck(deck, t.pos) && |deck| >= 2
    requires s.pos.index <= t.pos.index
    ensures ProgressWidth(deck, s).value <= ProgressWidth(deck, t).value
  {
    var n := (|deck| - 1) as real;
    var a, b := s.pos.index as real, t.pos.index as real;
    assert a / n <= b / n by {
      assert a / n * n == a && b / n * n == b;
    }
  }

  // ---------------------------------------------------------------------
  // Input

  /** What an input asks of the controller. */
  datatype Command = Next | Prev | Ignore

  /** The `keydown` handler's dispatch on the key name. */
  function KeyCommand(key: string): Command {
    if key == "ArrowRight" || key == "Space" || key == "Enter" then Next
    else if key == "ArrowLeft" then Prev
    else Ignore
  }

  /** The state after one command. */
  function Apply(deck: Deck, s: State, c: Command): (r: State)
    requires OnDeck(deck, s.pos)
    ensures OnDeck(deck, r.pos)
    ensures Inv(deck, s) ==> Inv(deck, r)
  {
    match c
    case Next => GoNext(deck, s)
    case Prev => GoPrevKeepsInv(deck, s); GoPrev(s)
    case Ignore => s
  }

  /** A key press. */
  function HandleKey(deck: Deck, s: State, key: string): (r: State)
    requires OnDeck(deck, s.pos)
    ensures OnDeck(deck, r.pos)
  {
    Apply(deck, s, KeyCommand(key))
  }

  /** The binding the handler evidently intends: the space bar, whose key
      name is " ", advances as well. Every other key is bound as before. */
  function KeyCommandIntended(key: string): (c: Command)
    ensures c == Next <==> key in {"ArrowRight", " ", "Space", "Enter"}
    ensures c == Prev <==> key == "ArrowLeft"
  {
    if key == " " then Next else KeyCommand(key)
  }

  /** As written, the space bar's key name matches none of the compared
      strings, so pressing it leaves the presentation where it is. */
  lemma SpaceBarIgnored(deck: Deck, s: State)
    requires OnDeck(deck, s.pos)
    ensures KeyCommand(" ") == Ignore
    ensures HandleKey(deck, s, " ") == s
  {}

  /** With the intended binding the space bar moves forward like
      ArrowRight, and that is the only key whose command changes. */
  lemma SpaceBarAdvancesIntended(deck: Deck, s: State, key: string)
    requires OnDeck(deck, s.pos)
    ensures Apply(deck, s, KeyCommandIntended(" ")) == GoNext(deck, s)
    ensures KeyCommandIntended(key) != KeyCommand(key) <==> key == " "
  {}

  /** Which keys move the presentation, and that all others leave it. */
  lemma KeyBindings(deck: Deck, s: State, key: string)
    requires OnDeck(deck, s.pos)
    ensures key in {"ArrowRight", "Space", "Enter"} ==> HandleKey(deck, s, key) == GoNext(deck, s)
    ensures key == "ArrowLeft" ==> HandleKey(deck, s, key) == GoPrev(s)
    ensures key !in {"ArrowRight", "Space", "Enter", "ArrowLeft"} ==> HandleKey(deck, s, key) == s
  {}

  /** The state after a whole sequence of commands. */
  function Run(deck: Deck, s: State, cs: seq<Command>): (r: State)
    requires Inv(deck, s)
    ensures Inv(deck, r)
    decreases |cs|
  {
    if |cs| == 0 then s else Run(deck, Apply(deck, s, cs[0]), cs[1..])
  }

  /** Every state a session can reach keeps the position on the deck, a
      direction of -1, 0 or 1, and direction 0 only on the first slide. */
  lemma Reachable(deck: Deck, cs: seq<Command>)
    requires |deck| > 0
    ensures var r := Run(deck, Initial, cs);
            && 0 <= r.pos.index < |deck|
            && 0 <= r.pos.step <= deck[r.pos.index].clicks
            && r.direction in {-1, 0, 1}
            && (r.direction == 0 ==> r.pos.index == 0)
  {}

  // ---------------------------------------------------------------------
  // Repeated advancing

  /** `goNext` applied n times. */
  function Advance(deck: Deck, s: State, n: nat): (r: State)
    requires OnDeck(deck, s.pos)
    ensures OnDeck(deck, r.pos)
    ensures s.pos.index <= r.pos.index
  {
    if n == 0 then s else GoNext(deck, Advance(deck, s, n - 1))
  }

  /** Within a slide each advance reveals one more step. */
  lemma {:induction false} AdvanceWithinSlide(deck: Deck, s: State, k: nat)
    requires ValidPosition(deck, s.pos) && s.pos.step + k <= deck[s.pos.index].clicks
    ensures Advance(deck, s, k) == State(Position(s.pos.index, s.pos.step + k), s.direction)
  {
    if k > 0 {
      AdvanceWithinSlide(deck, s, k - 1);
    }
  }

  /** From step 0 of a slide with c reveal steps that is not the last,
      c + 1 advances land on step 0 of the next slide, moving forward. */
  lemma AdvanceThroughSlide(deck: Deck, s: State)
    requires ValidPosition(deck, s.pos) && s.pos.step == 0 && s.pos.index < |deck| - 1
    ensures Advance(deck, s, deck[s.pos.index].clicks + 1) == State(Position(s.pos.index + 1, 0), 1)
  {
    AdvanceWithinSlide(deck, s, deck[s.pos.index].clicks);
  }

  /** On the last slide the same c + 1 advances stop at its last step. */
  lemma AdvanceOnLastSlide(deck: Deck, s: State)
    requires ValidPosition(deck, s.pos) && s.pos.step == 0 && s.pos.index == |deck| - 1
    ensures Advance(deck, s, deck[s.pos.index].clicks + 1)
         == State(Position(s.pos.index, deck[s.pos.index].clicks), s.direction)
  {
    AdvanceWithinSlide(deck, s, deck[s.pos.index].clicks);
  }
}
