/** The deck a presentation runs over (types.ts): an ordered sequence of
    slides, each with an identity, a layout tag and a number of reveal steps.
    The content generator, the narration text and the title are opaque to
    navigation and are abstracted away. */
module Deck {
  import opened Wrappers

  /** One slide. `layout` is the raw tag the renderer compares against;
      `clicks` is the number of reveal steps beyond the initial one, so the
      slide has `clicks + 1` positions (steps 0 .. clicks). */
  datatype Slide = Slide(
    id: int,
    layout: string,
    clicks: nat,
    image: Option<string>,
    backgroundImage: Option<string>)

  type Deck = seq<Slide>

  /** The layout tags the type declares. */
  const LayoutTags: set<string> :=
    {"cover", "default", "image-right", "image-left", "two-cols", "center"}

  /** No two slides share an id: the renderer keys its animation by id. */
  predicate UniqueIds(deck: Deck) {
    forall i, j :: 0 <= i < j < |deck| ==> deck[i].id != deck[j].id
  }

  /** Every slide declares one of the layout tags the type allows. */
  predicate DeclaredLayouts(deck: Deck) {
    forall i :: 0 <= i < |deck| ==> deck[i].layout in LayoutTags
  }
}
