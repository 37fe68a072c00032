/**
 Filtering the project cards by tag. js/projects.js and the block at the top of
 js/main.js contain the same handler, so one model serves both: clicking a
 filter button makes it the only active button and shows exactly the cards
 whose `data-tags` contain the button's `data-filter` as a substring, or every
 card when the filter is `all`.
 */
module ProjectFilter {
  import opened Wrappers
  import opened Strings

  const ShowAll: string := "all"

  /** A `.filter-btn`: its `data-filter` value and whether it has the `is-active` class. */
  datatype Button = Button(filter: string, active: bool)

  /** A project card: its `data-tags` attribute (None when missing) and whether it is displayed. */
  datatype Card = Card(tags: Option<string>, visible: bool)

  /** The filter buttons and the cards of `#projects-list`, in document order. */
  datatype Gallery = Gallery(buttons: seq<Button>, cards: seq<Card>)

  /** The visibility a card gets under a filter. A missing attribute counts as
      the empty tag string. Matching is by substring, not by whole tag. */
  function Shows(filter: string, tags: Option<string>): (show: bool)
    ensures filter == ShowAll ==> show
    ensures filter != ShowAll ==> (show <==> exists i :: OccursAt(tags.GetOr([]), filter, i))
  {
    filter == ShowAll || Includes(tags.GetOr([]), filter)
  }

  /** Only the clicked button keeps (or gains) `is-active`. */
  function ActivateOnly(buttons: seq<Button>, clicked: nat): (r: seq<Button>)
    requires clicked < |buttons|
    ensures |r| == |buttons|
    ensures forall j :: 0 <= j < |r| ==> r[j].filter == buttons[j].filter
    ensures forall j :: 0 <= j < |r| ==> (r[j].active <==> j == clicked)
  {
    seq(|buttons|, j requires 0 <= j < |buttons| => buttons[j].(active := j == clicked))
  }

  /** Every card's display under the filter; the tags are never touched. */
  function ShowMatching(cards: seq<Card>, filter: string): (r: seq<Card>)
    ensures |r| == |cards|
    ensures forall c :: 0 <= c < |r| ==> r[c].tags == cards[c].tags
    ensures forall c :: 0 <= c < |r| ==> (r[c].visible <==> Shows(filter, cards[c].tags))
  {
    seq(|cards|, c requires 0 <= c < |cards| => cards[c].(visible := Shows(filter, cards[c].tags)))
  }

  /** A click on button `clicked`. The handlers are attached only when there is at
      least one button and at least one card, so with no cards nothing happens. */
  function Click(g: Gallery, clicked: nat): (after: Gallery)
    requires clicked < |g.buttons|
    ensures |g.cards| == 0 ==> after == g
    ensures |after.buttons| == |g.buttons| && |after.cards| == |g.cards|
    ensures |g.cards| > 0 ==> forall j :: 0 <= j < |g.buttons| ==>
      after.buttons[j].filter == g.buttons[j].filter && (after.buttons[j].active <==> j == clicked)
    ensures |g.cards| > 0 ==> forall c :: 0 <= c < |g.cards| ==>
      after.cards[c].tags == g.cards[c].tags &&
      (after.cards[c].visible <==> Shows(g.buttons[clicked].filter, g.cards[c].tags))
  {
    if |g.cards| == 0 then g
    else Gallery(ActivateOnly(g.buttons, clicked), ShowMatching(g.cards, g.buttons[clicked].filter))
  }

  /** With the filter `all` every card is shown after the click. */
  lemma ClickAllShowsEverything(g: Gallery, clicked: nat)
    requires clicked < |g.buttons| && g.buttons[clicked].filter == ShowAll
    requires |g.cards| > 0
    ensures forall c :: 0 <= c < |g.cards| ==> Click(g, clicked).cards[c].visible
  {
  }

  /** A card without `data-tags` is hidden by every non-empty filter other than `all`;
      an empty filter shows every card, because every string includes "". */
  lemma MissingTagsAndEmptyFilter(filter: string, tags: Option<string>)
    ensures filter != [] && filter != ShowAll ==> !Shows(filter, None)
    ensures Shows([], tags)
  {
    assert OccursAt(tags.GetOr([]), [], 0);
  }

  /** Two galleries whose buttons carry the same filters and whose cards carry the
      same tags look the same after the same click: the outcome does not depend on
      which button was active or which cards were shown before. */
  lemma ClickIgnoresPriorState(g1: Gallery, g2: Gallery, clicked: nat)
    requires clicked < |g1.buttons|
    requires |g1.buttons| == |g2.buttons| && |g1.cards| == |g2.cards| && |g1.cards| > 0
    requires forall j :: 0 <= j < |g1.buttons| ==> g1.buttons[j].filter == g2.buttons[j].filter
    requires forall c :: 0 <= c < |g1.cards| ==> g1.cards[c].tags == g2.cards[c].tags
    ensures Click(g1, clicked) == Click(g2, clicked)
  {
    var a1 := Click(g1, clicked);
    var a2 := Click(g2, clicked);
    assert a1.buttons == a2.buttons by {
      forall j | 0 <= j < |a1.buttons| ensures a1.buttons[j] == a2.buttons[j] {
      }
    }
    assert a1.cards == a2.cards by {
      forall c | 0 <= c < |a1.cards| ensures a1.cards[c] == a2.cards[c] {
      }
    }
  }

  /** Clicking the same button twice leaves the page as one click did. */
  lemma ClickIdempotent(g: Gallery, clicked: nat)
    requires clicked < |g.buttons|
    ensures Click(Click(g, clicked), clicked) == Click(g, clicked)
  {
    if |g.cards| > 0 {
      var once := Click(g, clicked);
      ClickIgnoresPriorState(once, g, clicked);
    }
  }
}
