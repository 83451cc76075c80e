/** SlideRenderer.tsx: the slide-transition geometry chosen by direction,
    the animation keyed by slide id, and the dispatch from layout tag to
    arrangement. Spring constants, opacity, scale, blur and CSS classes are
    rendering-library detail and are not modelled. */
module Renderer {
  import opened Wrappers
  import opened Deck

  /** A horizontal edge of the stage. */
  datatype Edge = Left | Right

  function Opposite(e: Edge): Edge {
    match e
    case Left => Right
    case Right => Left
  }

  /** Horizontal offset of a slide parked at an edge, in percent of the
      stage width (`'-100%'` and `'100%'`). */
  function Offset(e: Edge): int {
    match e
    case Left => -100
    case Right => 100
  }

  /** Where the incoming slide starts (`enter`). */
  function EnterEdge(direction: int): Edge {
    if direction > 0 then Right else Left
  }

  /** Where the outgoing slide goes (`exit`). */
  function ExitEdge(direction: int): Edge {
    if direction < 0 then Right else Left
  }

  /** The horizontal offsets of the three animation variants. */
  datatype Variants = Variants(enter: int, center: int, exit: int)

  /** `slideVariants` with the direction passed as the custom argument:
      the resting (`center`) offset is 0 whatever the direction, and for a
      crossing both slides sweep the same way, leftwards for a forward move
      and rightwards for a backward one. */
  function SlideVariants(direction: int): (v: Variants)
    ensures v.center == 0
    ensures direction > 0 ==> v.enter > v.center > v.exit
    ensures direction < 0 ==> v.enter < v.center < v.exit
    ensures direction == 0 ==> v.enter == v.exit < v.center
  {
    Variants(Offset(EnterEdge(direction)), 0, Offset(ExitEdge(direction)))
  }

  /** For a crossing the two edges are opposite; with direction 0 both are
      the left edge. */
  lemma EdgesOpposite(direction: int)
    ensures direction != 0 ==> EnterEdge(direction) == Opposite(ExitEdge(direction))
    ensures direction == 0 ==> EnterEdge(direction) == Left && ExitEdge(direction) == Left
    ensures EnterEdge(direction) == Right <==> direction > 0
    ensures ExitEdge(direction) == Right <==> direction < 0
  {}

  /** The resting variant does not depend on direction. */
  lemma CenterIndependent(d1: int, d2: int)
    ensures SlideVariants(d1).center == SlideVariants(d2).center == 0
  {}

  /** What the stage does when the shown slide changes from `before` to
      `after`: the animated element is keyed by slide id, so a new id plays
      an enter/exit pair (the incoming slide's start edge and the outgoing
      slide's end edge, both chosen by the new direction) and the same id
      re-renders in place. */
  function Transition(before: Slide, after: Slide, direction: int): (t: Option<(Edge, Edge)>)
    ensures t.Some? <==> before.id != after.id
    ensures t.Some? && direction != 0 ==> t.value.0 == Opposite(t.value.1)
  {
    if before.id == after.id then None
    else Some((EnterEdge(direction), ExitEdge(direction)))
  }

  // ---------------------------------------------------------------------
  // Layout dispatch

  /** A pane of an arrangement: the slide's content generated for a step,
      or a picture with its (possibly undefined) source. */
  datatype Pane = Content(step: int) | Picture(src: Option<string>)

  /** The arrangements `renderLayout` produces. */
  datatype Arrangement =
    | FullBleed(backdrop: Option<string>, body: Pane)  // cover: optional background, centred body
    | Row(first: Pane, second: Pane)                    // two halves, left to right
    | Padded(body: Pane)                                // padded column
    | PaddedCentered(body: Pane)                        // padded and centred

  /** JavaScript truthiness of an optional string: defined and non-empty. */
  predicate Truthy(o: Option<string>) {
    o.Some? && o.value != ""
  }

  /** The steps the content generator is called with, in document order. */
  function PaneSteps(p: Pane): seq<int> {
    match p
    case Content(k) => [k]
    case Picture(_) => []
  }

  function ContentSteps(a: Arrangement): seq<int> {
    match a
    case FullBleed(_, b) => PaneSteps(b)
    case Row(x, y) => PaneSteps(x) + PaneSteps(y)
    case Padded(b) => PaneSteps(b)
    case PaddedCentered(b) => PaneSteps(b)
  }

  /** Whether a picture appears, and which source it shows. */
  function Pictures(a: Arrangement): seq<Option<string>> {
    match a
    case Row(x, y) => (if x.Picture? then [x.src] else []) + (if y.Picture? then [y.src] else [])
    case _ => []
  }

  /** `renderLayout`: the arrangement for a slide's layout tag. Every branch
      calls the content generator exactly once, with the step it was given;
      the split layouts show the slide's image and only they do; a cover
      shows its own background, and only when it is a non-empty string;
      `center` is the one padded and centred arrangement. */
  function RenderLayout(slide: Slide, step: int): (a: Arrangement)
    ensures ContentSteps(a) == [step]
    ensures Pictures(a) == if slide.layout in {"image-right", "image-left"} then [slide.image] else []
    ensures a.FullBleed? <==> slide.layout == "cover"
    ensures a.FullBleed? ==> (a.backdrop.Some? <==> Truthy(slide.backgroundImage))
    ensures a.FullBleed? && a.backdrop.Some? ==> a.backdrop == slide.backgroundImage
    ensures slide.layout == "center" ==> a == PaddedCentered(Content(step))
  {
    if slide.layout == "cover" then
      FullBleed(if Truthy(slide.backgroundImage) then slide.backgroundImage else None, Content(step))
    else if slide.layout == "image-right" then
      Row(Content(step), Picture(slide.image))
    else if slide.layout == "image-left" then
      Row(Picture(slide.image), Content(step))
    else if slide.layout == "two-cols" then
      Padded(Content(step))
    else if slide.layout == "center" then
      PaddedCentered(Content(step))
    else
      Padded(Content(step))
  }

  /** The two halves swapped. */
  function Mirror(a: Arrangement): Arrangement {
    match a
    case Row(x, y) => Row(y, x)
    case _ => a
  }

  /** `image-right` puts the content before the image, `image-left` the
      image before the content, and each is the mirror of the other. */
  lemma SplitLayoutsMirror(slide: Slide, step: int)
    ensures RenderLayout(slide.(layout := "image-right"), step) == Row(Content(step), Picture(slide.image))
    ensures RenderLayout(slide.(layout := "image-left"), step) == Row(Picture(slide.image), Content(step))
    ensures RenderLayout(slide.(layout := "image-left"), step)
         == Mirror(RenderLayout(slide.(layout := "image-right"), step))
  {}

  /** A tag not matched earlier falls through to the `default`
      arrangement, and `two-cols` renders exactly as `default` does. */
  lemma UnmatchedTagsFallThrough(slide: Slide, step: int)
    requires slide.layout !in {"cover", "image-right", "image-left", "center"}
    ensures RenderLayout(slide, step) == RenderLayout(slide.(layout := "default"), step)
    ensures RenderLayout(slide, step) == Padded(Content(step))
  {}

  /** The arrangement depends only on the tag, the media and the step. */
  lemma LayoutIgnoresIdAndClicks(slide: Slide, id: int, clicks: nat, step: int)
    ensures RenderLayout(slide.(id := id, clicks := clicks), step) == RenderLayout(slide, step)
  {}
}
