/**
 * The image carousel: a current slide index into n slides, the 'active'
 * class on each slide and on each indicator dot, and the autoplay interval.
 */
module ImageCarousel {
  import opened Wrappers
  import opened Selection
  import Autoplay

  /** The index `next` moves to: one step forward, wrapping from the last slide to the first. */
  function NextIndex(i: nat, n: nat): (r: nat)
    requires n > 0
    ensures r < n
    ensures i < n ==> r == (if i == n - 1 then 0 else i + 1)
  {
    (i + 1) % n
  }

  /** The index reached from i by k successive calls of `next`. */
  function Advance(i: nat, n: nat, k: nat): (r: nat)
    requires n > 0
    decreases k
  {
    if k == 0 then i else NextIndex(Advance(i, n, k - 1), n)
  }

  /** A positive multiple of n is at least n. */
  lemma MulAtLeast(d: int, n: int)
    requires d >= 1 && n > 0
    ensures d * n >= n
  {
    assert d * n == (d - 1) * n + n;
  }

  /** Euclidean division is unique: a quotient and remainder in range are x / n and x % n. */
  lemma DivModUnique(x: int, n: int, q: int, r: int)
    requires n > 0 && 0 <= r < n && x == q * n + r
    ensures x / n == q && x % n == r
  {
    var q', r' := x / n, x % n;
    assert x == q' * n + r';
    assert q' * n - q * n == (q' - q) * n;
    if q' > q {
      MulAtLeast(q' - q, n);
    } else if q' < q {
      MulAtLeast(q - q', n);
    }
  }

  /** Stepping after reducing modulo n is stepping and then reducing. */
  lemma ModSucc(x: nat, n: nat)
    requires n > 0
    ensures (x % n + 1) % n == (x + 1) % n
  {
    var q, r := x / n, x % n;
    if r + 1 < n {
      DivModUnique(x + 1, n, q, r + 1);
      DivModUnique(r + 1, n, 0, r + 1);
    } else {
      DivModUnique(x + 1, n, q + 1, 0);
      DivModUnique(r + 1, n, 1, 0);
    }
  }

  /** k calls of `next` from a valid index i land on (i + k) mod n. */
  lemma {:induction false} AdvanceIsModulo(i: nat, n: nat, k: nat)
    requires n > 0 && i < n
    ensures Advance(i, n, k) == (i + k) % n
    decreases k
  {
    if k > 0 {
      AdvanceIsModulo(i, n, k - 1);
      ModSucc(i + k - 1, n);
    }
  }

  /** A full round of n calls of `next` comes back to the starting slide. */
  lemma AdvanceFullRound(i: nat, n: nat)
    requires n > 0 && i < n
    ensures Advance(i, n, n) == i
  {
    AdvanceIsModulo(i, n, n);
    DivModUnique(i + n, n, 1, i);
  }

  class Carousel {
    var slides: array<bool>     // 'active' class on each .carousel-slide
    var dots: array<bool>       // 'active' class on each .carousel-dot
    var currentIndex: nat
    var autoplayInterval: Option<nat>
    var liveTimers: set<nat>    // intervals of this carousel still firing
    var nextHandle: nat         // first handle setInterval has not handed out

    ghost function Timers(): Autoplay.Timers
      reads this
    {
      Autoplay.Timers(liveTimers, nextHandle, autoplayInterval)
    }

    ghost predicate Valid()
      reads this
    {
      slides != dots && slides.Length == dots.Length &&
      (if slides.Length == 0 then currentIndex == 0 else currentIndex < slides.Length) &&
      Autoplay.WellFormed(Timers())
    }

    /** Exactly the slide and the dot at currentIndex are active. */
    ghost predicate ExactlyOneActive()
      reads this, slides, dots
    {
      OnlyActive(slides[..], currentIndex) && OnlyActive(dots[..], currentIndex)
    }

    /**
     * new Carousel(container): slides keep the 'active' flags of the markup,
     * one dot per slide is created with only dot 0 active, currentIndex is 0
     * and autoplay is started.
     */
    constructor (markup: seq<bool>)
      ensures Valid() && fresh(slides) && fresh(dots)
      ensures slides[..] == markup
      ensures OnlyActive(dots[..], 0) && dots.Length == |markup|
      ensures currentIndex == 0
      ensures Timers() == Autoplay.Start(Autoplay.Initial())
      ensures Autoplay.Running(Timers())
      ensures OnlyActive(markup, 0) ==> ExactlyOneActive()
    {
      slides := new bool[|markup|](k requires 0 <= k < |markup| => markup[k]);
      dots := new bool[|markup|](k => k == 0);
      currentIndex := 0;
      autoplayInterval := None;
      liveTimers := {};
      nextHandle := 0;
      new;
      StartAutoplay();
    }

    /** goToSlide(index): move the 'active' flags of slide and dot from currentIndex to index. */
    method GoToSlide(index: nat)
      requires Valid() && index < slides.Length
      modifies this`currentIndex, slides, dots
      ensures Valid()
      ensures currentIndex == index
      ensures slides[..] == Move(old(slides[..]), old(currentIndex), index)
      ensures dots[..] == Move(old(dots[..]), old(currentIndex), index)
      ensures old(ExactlyOneActive()) ==> ExactlyOneActive()
    {
      ghost var s0, d0 := slides[..], dots[..];
      slides[currentIndex] := false;
      dots[currentIndex] := false;
      currentIndex := index;
      slides[currentIndex] := true;
      dots[currentIndex] := true;
      assert slides[..] == Move(s0, old(currentIndex), index);
      assert dots[..] == Move(d0, old(currentIndex), index);
      if OnlyActive(s0, old(currentIndex)) && OnlyActive(d0, old(currentIndex)) {
        MoveKeepsOnlyActive(s0, old(currentIndex), index);
        MoveKeepsOnlyActive(d0, old(currentIndex), index);
      }
    }

    /**
     * next(): go to the following slide, wrapping around. With no slides the
     * script's index is NaN and goToSlide throws before changing anything;
     * that is `ok == false` with the state unchanged.
     */
    method Next() returns (ok: bool)
      requires Valid()
      modifies this`currentIndex, slides, dots
      ensures Valid()
      ensures ok == (slides.Length > 0)
      ensures ok ==> currentIndex == NextIndex(old(currentIndex), slides.Length)
      ensures ok ==> slides[..] == Move(old(slides[..]), old(currentIndex), currentIndex)
      ensures ok ==> dots[..] == Move(old(dots[..]), old(currentIndex), currentIndex)
      ensures !ok ==> currentIndex == old(currentIndex) && slides[..] == old(slides[..]) && dots[..] == old(dots[..])
      ensures old(ExactlyOneActive()) ==> ExactlyOneActive()
    {
      if slides.Length == 0 {
        return false;
      }
      GoToSlide(NextIndex(currentIndex, slides.Length));
      ok := true;
    }

    /** startAutoplay(): store a fresh interval handle; an earlier one is not cleared. */
    method StartAutoplay()
      requires Autoplay.WellFormed(Timers())
      modifies this`autoplayInterval, this`liveTimers, this`nextHandle
      ensures Timers() == Autoplay.Start(old(Timers()))
      ensures Autoplay.WellFormed(Timers())
    {
      autoplayInterval := Some(nextHandle);
      liveTimers := liveTimers + {nextHandle};
      nextHandle := nextHandle + 1;
    }

    /** stopAutoplay(): clear the stored interval handle (the field itself keeps it). */
    method StopAutoplay()
      requires Autoplay.WellFormed(Timers())
      modifies this`liveTimers
      ensures Timers() == Autoplay.Stop(old(Timers()))
      ensures Autoplay.WellFormed(Timers())
    {
      if autoplayInterval.Some? {
        liveTimers := liveTimers - {autoplayInterval.value};
      }
    }
  }
}
