/** An independent reference for navigation: all positions of a deck laid
    out on one line, slide after slide, steps 0 .. clicks within each. The
    forward move of App.tsx is exactly "the next position on the line"; the
    backward move is "the previous position" only when it does not cross
    onto a slide that has reveal steps. */
module Linear {
  import opened Deck
  import opened Navigation

  /** How many positions the slides before slide i hold. */
  function SlideStart(deck: Deck, i: nat): nat
    requires i <= |deck|
  {
    if i == 0 then 0 else SlideStart(deck, i - 1) + deck[i - 1].clicks + 1
  }

  /** How many positions the whole deck holds. */
  function Total(deck: Deck): nat {
    SlideStart(deck, |deck|)
  }

  /** Every slide holds at least one position, so later slides start
      strictly later. */
  lemma {:induction false} SlideStartGrows(deck: Deck, i: nat, j: nat)
    requires i <= j <= |deck|
    ensures SlideStart(deck, i) + (j - i) <= SlideStart(deck, j)
    decreases j
  {
    if i < j {
      SlideStartGrows(deck, i, j - 1);
    }
  }

  /** A position's place on the line. */
  function Ordinal(deck: Deck, p: Position): (n: nat)
    requires ValidPosition(deck, p)
    ensures SlideStart(deck, p.index) <= n < SlideStart(deck, p.index + 1)
    ensures n < Total(deck)
  {
    SlideStartGrows(deck, p.index + 1, |deck|);
    SlideStart(deck, p.index) + p.step
  }

  /** Search the slides from i onwards for the one holding place n. */
  function Locate(deck: Deck, n: nat, i: nat): (p: Position)
    requires i < |deck| && SlideStart(deck, i) <= n < Total(deck)
    ensures ValidPosition(deck, p) && Ordinal(deck, p) == n
    decreases |deck| - i
  {
    if n < SlideStart(deck, i + 1) then Position(i, n - SlideStart(deck, i))
    else Locate(deck, n, i + 1)
  }

  /** The position at place n of the line. */
  function PositionAt(deck: Deck, n: nat): (p: Position)
    requires n < Total(deck)
    ensures ValidPosition(deck, p) && Ordinal(deck, p) == n
  {
    Locate(deck, n, 0)
  }

  /** Distinct positions have distinct places. */
  lemma OrdinalInjective(deck: Deck, p: Position, q: Position)
    requires ValidPosition(deck, p) && ValidPosition(deck, q)
    requires Ordinal(deck, p) == Ordinal(deck, q)
    ensures p == q
  {
    if p.index < q.index {
      SlideStartGrows(deck, p.index + 1, q.index);
    } else if q.index < p.index {
      SlideStartGrows(deck, q.index + 1, p.index);
    }
  }

  /** Place and position are inverse to each other. */
  lemma PositionAtOrdinal(deck: Deck, p: Position)
    requires ValidPosition(deck, p)
    ensures PositionAt(deck, Ordinal(deck, p)) == p
  {
    OrdinalInjective(deck, p, PositionAt(deck, Ordinal(deck, p)));
  }

  /** `goNext` moves to the next place on the line, and stays on the last. */
  lemma NextIsSuccessor(deck: Deck, s: State)
    requires ValidPosition(deck, s.pos)
    ensures ValidPosition(deck, GoNext(deck, s).pos)
    ensures var n := Ordinal(deck, s.pos);
            GoNext(deck, s).pos == if n + 1 < Total(deck) then PositionAt(deck, n + 1) else s.pos
  {
    var n := Ordinal(deck, s.pos);
    var r := GoNext(deck, s);
    if n + 1 < Total(deck) {
      if s.pos.step < deck[s.pos.index].clicks {
        assert Ordinal(deck, r.pos) == n + 1;
      } else {
        assert s.pos.index + 1 < |deck|;
        assert Ordinal(deck, r.pos) == n + 1;
      }
      OrdinalInjective(deck, r.pos, PositionAt(deck, n + 1));
    } else {
      SlideStartGrows(deck, s.pos.index + 1, |deck|);
    }
  }

  /** `goPrev` never moves forward on the line, and moves to the previous
      place exactly when it hides a step or crosses back onto a slide
      without reveal steps. */
  lemma PrevIsPredecessorIff(deck: Deck, s: State)
    requires ValidPosition(deck, s.pos) && !PrevDisabled(s)
    ensures ValidPosition(deck, GoPrev(s).pos)
    ensures Ordinal(deck, GoPrev(s).pos) < Ordinal(deck, s.pos)
    ensures GoPrev(s).pos == PositionAt(deck, Ordinal(deck, s.pos) - 1)
            <==> s.pos.step > 0 || deck[s.pos.index - 1].clicks == 0
  {
    var n := Ordinal(deck, s.pos);
    var r := GoPrev(s);
    if s.pos.step > 0 || deck[s.pos.index - 1].clicks == 0 {
      assert Ordinal(deck, r.pos) == n - 1;
      PositionAtOrdinal(deck, r.pos);
    } else {
      assert Ordinal(deck, r.pos) < n - 1;
    }
  }
}
