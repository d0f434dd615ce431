/**
 * The dog-profile filter: clicking a filter button makes it the only active
 * button and shows each dog card whose category the filter selects.
 * Attributes read from markup (`data-filter`, `data-category`) may be absent,
 * which is None; comparison is strict equality, so an absent filter selects
 * exactly the cards without a category.
 */
module DogFilter {
  import opened Wrappers
  import opened Selection

  /** A card's inline `style.display`: unset (the stylesheet decides), 'block' or 'none'. */
  datatype Display = Unset | Block | NoDisplay

  datatype DogCard = DogCard(category: Option<string>, display: Display, animation: string)

  const AllFilter: string := "all"
  const FadeInUp: string := "fadeInUp 0.5s ease forwards"

  /** A filter selects a card when it is 'all' or equals the card's category. */
  predicate Selects(filter: Option<string>, category: Option<string>)
  {
    filter == Some(AllFilter) || category == filter
  }

  /** One card after a click: shown with the fade-in animation, or hidden with its animation left as it was. */
  function FilterCard(card: DogCard, filter: Option<string>): (r: DogCard)
    ensures r.category == card.category
    ensures r.display == Block <==> Selects(filter, card.category)
    ensures r.display == Block ==> r.animation == FadeInUp
    ensures r.display != Block ==> r.display == NoDisplay && r.animation == card.animation
  {
    if Selects(filter, card.category) then card.(display := Block, animation := FadeInUp)
    else card.(display := NoDisplay)
  }

  /** All cards after a click, processed in document order. */
  function FilterCards(cards: seq<DogCard>, filter: Option<string>): (r: seq<DogCard>)
    ensures |r| == |cards|
    decreases |cards|
  {
    if cards == [] then []
    else FilterCards(cards[..|cards| - 1], filter) + [FilterCard(cards[|cards| - 1], filter)]
  }

  /** The click handler treats each card on its own. */
  lemma {:induction false} FilterCardsAt(cards: seq<DogCard>, filter: Option<string>, k: nat)
    requires k < |cards|
    ensures FilterCards(cards, filter)[k] == FilterCard(cards[k], filter)
    decreases |cards|
  {
    if k < |cards| - 1 {
      FilterCardsAt(cards[..|cards| - 1], filter, k);
    }
  }

  /**
   * After a click each card is shown exactly when the filter is 'all' or the
   * card's category equals the filter, and hidden otherwise; categories never change.
   */
  lemma ShownExactlyWhenSelected(cards: seq<DogCard>, filter: Option<string>, k: nat)
    requires k < |cards|
    ensures FilterCards(cards, filter)[k].category == cards[k].category
    ensures FilterCards(cards, filter)[k].display == Block <==>
              filter == Some(AllFilter) || cards[k].category == filter
    ensures FilterCards(cards, filter)[k].display == NoDisplay <==>
              filter != Some(AllFilter) && cards[k].category != filter
  {
    FilterCardsAt(cards, filter, k);
  }

  /** The 'all' filter shows every card. */
  lemma AllShowsEveryCard(cards: seq<DogCard>, k: nat)
    requires k < |cards|
    ensures FilterCards(cards, Some(AllFilter))[k].display == Block
  {
    FilterCardsAt(cards, Some(AllFilter), k);
  }

  /** Which cards are shown depends only on the last click, not on earlier ones. */
  lemma {:induction false} LastClickDecides(cards: seq<DogCard>, f: Option<string>, g: Option<string>, k: nat)
    requires k < |cards|
    ensures FilterCards(FilterCards(cards, f), g)[k].display == FilterCards(cards, g)[k].display
  {
    FilterCardsAt(cards, f, k);
    FilterCardsAt(FilterCards(cards, f), g, k);
    FilterCardsAt(cards, g, k);
  }

  /** Clicking the same filter button twice leaves the cards as one click did. */
  lemma {:induction false} RepeatClickIdempotent(cards: seq<DogCard>, f: Option<string>)
    ensures FilterCards(FilterCards(cards, f), f) == FilterCards(cards, f)
  {
    var once := FilterCards(cards, f);
    forall k | 0 <= k < |cards|
      ensures FilterCards(once, f)[k] == once[k]
    {
      FilterCardsAt(cards, f, k);
      FilterCardsAt(once, f, k);
    }
  }

  /**
   * Click on the filter button `clicked`: it becomes the only active filter
   * button, then every card is shown or hidden by that button's filter.
   */
  method OnFilterClick(active: array<bool>, filters: seq<Option<string>>, clicked: nat, cards: array<DogCard>)
    requires active.Length == |filters| && clicked < active.Length
    modifies active, cards
    ensures OnlyActive(active[..], clicked)
    ensures cards[..] == FilterCards(old(cards[..]), filters[clicked])
  {
    SelectOnly(active, clicked);
    var filter := filters[clicked];
    ghost var before := cards[..];
    var i := 0;
    while i < cards.Length
      modifies cards
      invariant 0 <= i <= cards.Length
      invariant cards[..i] == FilterCards(before[..i], filter)
      invariant forall m :: i <= m < cards.Length ==> cards[m] == before[m]
    {
      assert before[..i + 1][..i] == before[..i];
      var card := cards[i];
      if filter == Some(AllFilter) || card.category == filter {
        cards[i] := card.(display := Block, animation := FadeInUp);
      } else {
        cards[i] := card.(display := NoDisplay);
      }
      assert cards[..i + 1] == cards[..i] + [cards[i]];
      i := i + 1;
    }
    assert before[..cards.Length] == before;
  }
}
