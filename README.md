# Shelter-dog page interactivity, modelled in Dafny

The page script (`script.js`) draws a decorative WebGL background and drives a small amount
of page state. This project models that state and proves properties about it. The state is:

- **Image carousel** (`ImageCarousel.Carousel`). It holds a current slide index, the 'active'
  class on each slide and on each indicator dot (two `array<bool>`), and the autoplay interval
  handle. `GoToSlide` moves both flags. `Next` advances modulo the slide count.
  `StartAutoplay` and `StopAutoplay` keep the handle bookkeeping. The bookkeeping is specified
  by pure functions in `Autoplay`: timers are abstract handle IDs, and `live` is the set of
  intervals still firing.
- **Dog filter** (`DogFilter.OnFilterClick`). A click makes the clicked button the only active
  one. It then shows or hides each dog card by its category.
- **Donation cards** (`Selection.SelectOnly`). A click leaves exactly the clicked card selected.
  The dog filter reuses the same method for its buttons.
- **Navigation** (`Navigation.NavigationController`). It holds the navbar 'scrolled' flag, which
  is a threshold on `scrollY`, and the mobile-menu button and link-list flags, which toggle
  together and close together.
- **Fade-in observer** (`ScrollAnimations.FadeInObserver`). It holds the set of observed
  elements and the set made visible. An intersecting entry moves its element from the first
  set to the second.

Each class method is specified against a function of the old state (`Move`, `NextIndex`,
`Autoplay.Start`/`Stop`, `FilterCards`, `Navigation.Step`, `Hits`). The lemmas prove what the
page promises about those functions.

`startAutoplay` overwrites the stored handle without clearing a running interval, so a
restart while running leaves two intervals live. `Autoplay.RestartLeaksTimer` shows this, and
`Autoplay.AlternationKeepsOneTimer` proves that strict enter/leave alternation keeps at most
one interval live.

## Model

| member | source | states |
|---|---|---|
| `Selection.Move` | script.js:491-499 | the new flags have the same length; the target is active; the old index is inactive unless it is the target; every other flag is unchanged |
| `Selection.MoveKeepsOnlyActive` | script.js:491-499 | if only `from` was active, then after the move only `to` is active |
| `Selection.SelectOnly` | script.js:446-450 | after a donation-card click (also a filter-button click, lines 423-424), exactly the clicked element is flagged and every other is not |
| `Autoplay.Initial` | script.js:462 | before the first start, no handle is stored, no interval is live and the bookkeeping is well formed |
| `Autoplay.Start` | script.js:506-508 | startAutoplay stores a handle and adds it to the live intervals, keeping every interval already live; the handle is fresh and the bookkeeping stays well formed |
| `Autoplay.Stop` | script.js:510-512 | stopAutoplay removes the stored handle from the live set and keeps the field and the handle counter; with no stored handle nothing changes |
| `Autoplay.Hover` | script.js:472-473 | mouseenter never adds a live interval and keeps the stored handle; mouseleave leaves the stored handle live and removes no interval |
| `Autoplay.StartFromIdle` | script.js:506-508 | starting from no live interval leaves exactly one live interval, the stored one |
| `Autoplay.StopCancelsLatestStart` | script.js:506-512 | stop after start cancels exactly the handle that start stored, and leaves the other live intervals as they were |
| `Autoplay.RestartLeaksTimer` | script.js:506-508 | starting while running leaves two live intervals; a later stop cancels only the new one, so one interval stays live |
| `Autoplay.AlternationKeepsOneTimer` | script.js:467-474 | under strict mouseenter/mouseleave alternation, the carousel is always either running its stored interval or idle, so at most one interval is live |
| `ImageCarousel.NextIndex` | script.js:502 | the next index is in `[0, n)`; from a valid index it is the following slide, or slide 0 after the last one |
| `ImageCarousel.AdvanceIsModulo` | script.js:501-504 | k calls of `next` from index i land on `(i + k) mod n` |
| `ImageCarousel.AdvanceFullRound` | script.js:501-504 | n calls of `next` return to the starting slide |
| `ImageCarousel.Carousel.constructor` | script.js:458-489 | the slides keep the markup's flags; n dots are created with only dot 0 active; currentIndex is 0; exactly one interval runs; if the markup marks only slide 0 active, then exactly one slide and one dot are active |
| `ImageCarousel.Carousel.GoToSlide` | script.js:491-499 | the slide and dot flags move from the old index to the new one (nothing else changes); currentIndex becomes the new index; "exactly the slide and dot at currentIndex are active" is preserved |
| `ImageCarousel.Carousel.Next` | script.js:501-504 | with slides, it moves to `NextIndex` as `GoToSlide` would and preserves "exactly one active"; with no slides, the script throws and nothing changes |
| `ImageCarousel.Carousel.StartAutoplay` | script.js:506-508 | stores a fresh handle and adds it to the live intervals, without clearing the old one |
| `ImageCarousel.Carousel.StopAutoplay` | script.js:510-512 | clears the stored handle's interval and keeps the stored field |
| `DogFilter.FilterCard` | script.js:429-434 | a clicked filter keeps the card's category; the card becomes 'block' with the fade-in animation exactly when the filter selects it, otherwise 'none' with its animation untouched |
| `DogFilter.FilterCards` | script.js:428-435 | the forEach over the cards yields one card per card, in document order |
| `DogFilter.FilterCardsAt` | script.js:428-435 | filtering all cards treats each card on its own, by that card's category and the clicked filter |
| `DogFilter.ShownExactlyWhenSelected` | script.js:426-435 | a card is shown exactly when the filter is 'all' or equals the card's category, and hidden exactly otherwise; categories never change |
| `DogFilter.AllShowsEveryCard` | script.js:429-430 | the 'all' filter shows every card |
| `DogFilter.LastClickDecides` | script.js:428-435 | which cards are displayed depends only on the latest filter click |
| `DogFilter.RepeatClickIdempotent` | script.js:428-435 | clicking the same filter twice leaves the cards as one click did |
| `DogFilter.OnFilterClick` | script.js:420-437 | afterwards the clicked button is the only active filter button, and every card is shown or hidden by that button's filter |
| `Navigation.Step` | script.js:296-316 | a scroll sets 'scrolled' to `scrollY > 50` and leaves the menu flags; a menu click flips both menu flags; a link click clears both; only scrolls change 'scrolled'; equal menu flags stay equal |
| `Navigation.LastScroll` | script.js:296-302 | there is a latest scroll position exactly when some event was a scroll |
| `Navigation.ScrolledFollowsLastScroll` | script.js:296-302 | after any events, 'scrolled' holds exactly when the latest scroll position is above 50; with no scroll event, the flag keeps its markup value |
| `Navigation.MenuFlagsStayEqual` | script.js:305-318 | once the menu button and link-list flags are equal, they stay equal through any events |
| `Navigation.ToggleTwiceRestores` | script.js:306-309 | two menu-button clicks restore all flags |
| `Navigation.LinkClickCloses` | script.js:312-317 | a nav-link click closes both menu flags, whatever came before |
| `Navigation.NavigationController.constructor` | script.js:290-294 | initialisation installs handlers only, so the flags are those of the markup |
| `Navigation.NavigationController.OnScroll` | script.js:296-302 | 'scrolled' becomes `scrollY > 50`; the menu flags are unchanged |
| `Navigation.NavigationController.OnMenuButtonClick` | script.js:306-309 | both menu flags flip; 'scrolled' is unchanged |
| `Navigation.NavigationController.OnNavLinkClick` | script.js:313-316 | both menu flags become false; 'scrolled' is unchanged |
| `ScrollAnimations.Hits` | script.js:334-339 | the elements made visible by a batch are exactly the targets of its intersecting entries |
| `ScrollAnimations.Targets` | script.js:333-342 | the elements a batch reports on include every element it makes visible |
| `ScrollAnimations.FiresAtMostOnce` | script.js:333-342 | when the host delivers entries only for observed elements, no element is made visible by two different batches |
| `ScrollAnimations.FadeInObserver.constructor` | script.js:325-342 | every fade-in element is observed and none is visible yet |
| `ScrollAnimations.FadeInObserver.OnEntries` | script.js:333-340 | the batch's intersecting targets become visible and are unobserved; every element stays either observed or visible, never both |

## Left out

- Three.js background (script.js:17-285). Shaders, the renderer, random placement, floating-point motion, camera easing and resize handling are floating-point numerics over a foreign rendering library.
- Theme palette lookup (script.js:86-102). It only feeds a foreign colour call.
- Counter animation and its observer (script.js:344-389). These are float easing with `Math.pow`, frame timing, `parseInt` and locale-dependent `toLocaleString`.
- Smooth scroll (script.js:394-411). It is host layout and scrolling calls around a single subtraction.
- Host plumbing. Event-listener registration, the timing of IntersectionObserver deliveries and real `setInterval` timing are not modelled. Interval handles are abstract numbers, each carousel counts its own, and each live handle stands for one `next` per 5000 ms period. Ticks are not modelled as events.
- `initNavigation` without the menu button or link list installs no click handlers. Its scroll handler throws if the navbar is missing. The model assumes all three elements exist.
- The card's `style.animation` is kept as the string the handler writes. The CSS animation itself is not modelled.
- `initDogFilter`, `initDonationCards` and `Carousel` are modelled as their handlers would behave if installed. The load handler (script.js:7-12) never calls the first two.
- ScrollAnimations.FadeInObserver.OnEntries: requires every entry of a batch to target an element that is observed when the batch arrives. This is the delivery guarantee of IntersectionObserver, not a check made by the script.
