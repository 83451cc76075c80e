/** How App.tsx feeds the navigation state to SlideRenderer.tsx: the
    current slide, its step and the direction. Together they decide when a
    transition plays and which way it sweeps. */
module Stage {
  import opened Wrappers
  import opened Deck
  import opened Navigation
  import opened Renderer

  /** The transition the stage plays when the state changes from s to r. */
  function StageTransition(deck: Deck, s: State, r: State): Option<(Edge, Edge)>
    requires OnDeck(deck, s.pos) && OnDeck(deck, r.pos)
  {
    Transition(deck[s.pos.index], deck[r.pos.index], r.direction)
  }

  /** What the stage shows for a state: the arrangement of the current slide
      with the current step. */
  function Shown(deck: Deck, s: State): (a: Arrangement)
    requires OnDeck(deck, s.pos)
    ensures ContentSteps(a) == [s.pos.step]
  {
    RenderLayout(deck[s.pos.index], s.pos.step)
  }

  /** With distinct ids, a transition plays exactly when the slide index
      changes. */
  lemma AnimatesIffSlideChanges(deck: Deck, s: State, r: State)
    requires UniqueIds(deck) && OnDeck(deck, s.pos) && OnDeck(deck, r.pos)
    ensures StageTransition(deck, s, r).Some? <==> s.pos.index != r.pos.index
  {}

  /** With a repeated id the keyed animation misses a crossing: moving
      between two slides that share an id plays no transition. */
  lemma SharedIdHidesCrossing()
    ensures var deck := [Slide(7, "default", 0, None, None), Slide(7, "center", 0, None, None)];
            var s := State(Position(0, 0), 0);
            GoNext(deck, s).pos.index == 1 && StageTransition(deck, s, GoNext(deck, s)).None?
  {}

  /** `goNext` plays a transition only when it crosses a slide, and then the
      new slide comes in from the right while the old one leaves to the
      left; revealing a step re-renders in place. */
  lemma NextTransition(deck: Deck, s: State)
    requires UniqueIds(deck) && ValidPosition(deck, s.pos)
    ensures var r := GoNext(deck, s);
            StageTransition(deck, s, r)
              == if r.pos.index != s.pos.index then Some((Right, Left)) else None
  {}

  /** `goPrev` plays a transition only when it crosses a slide, and then the
      new slide comes in from the left while the old one leaves to the
      right; hiding a step re-renders in place. */
  lemma PrevTransition(deck: Deck, s: State)
    requires UniqueIds(deck) && ValidPosition(deck, s.pos)
    ensures OnDeck(deck, GoPrev(s).pos)
    ensures var r := GoPrev(s);
            StageTransition(deck, s, r)
              == if r.pos.index != s.pos.index then Some((Left, Right)) else None
  {}

  /** A transition played between two reachable states never uses the
      direction-0 geometry, where both slides would share the left edge. */
  lemma ReachableTransitionsHaveDirection(deck: Deck, s: State, c: Command)
    requires Inv(deck, s)
    ensures var r := Apply(deck, s, c);
            StageTransition(deck, s, r).Some? ==>
              r.direction != 0
              && StageTransition(deck, s, r).value.0 == Opposite(StageTransition(deck, s, r).value.1)
  {}
}
