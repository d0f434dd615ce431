/**
 * Autoplay timer bookkeeping of one carousel. Interval timers are abstract
 * handle IDs: `live` holds the handles whose interval is still firing,
 * `nextId` is a handle the host has not handed out yet, and `stored` is the
 * carousel's `autoplayInterval` field (None while it is still null).
 * Each live handle advances the carousel once per period, so the number of
 * live handles is how many slides one period advances.
 */
module Autoplay {
  import opened Wrappers

  datatype Timers = Timers(live: set<nat>, nextId: nat, stored: Option<nat>)

  /** Handles already handed out are below nextId. */
  ghost predicate WellFormed(t: Timers)
  {
    (forall h :: h in t.live ==> h < t.nextId) &&
    (t.stored.Some? ==> t.stored.value < t.nextId)
  }

  /** No interval of this carousel is firing. */
  ghost predicate Idle(t: Timers)
  {
    t.live == {}
  }

  /** Exactly one interval fires, and it is the one the carousel stored. */
  ghost predicate Running(t: Timers)
  {
    t.stored.Some? && t.live == {t.stored.value}
  }

  /** The state before the constructor's first startAutoplay. */
  function Initial(): (t: Timers)
    ensures WellFormed(t) && Idle(t) && t.stored.None?
  {
    Timers({}, 0, None)
  }

  /** startAutoplay: setInterval hands out a fresh handle, which overwrites the stored one. */
  function Start(t: Timers): (r: Timers)
    ensures r.stored.Some? && r.live == t.live + {r.stored.value}
    ensures WellFormed(t) ==> WellFormed(r) && r.stored.value !in t.live
  {
    Timers(t.live + {t.nextId}, t.nextId + 1, Some(t.nextId))
  }

  /** stopAutoplay: clearInterval on the stored handle; clearing null or a dead handle does nothing. */
  function Stop(t: Timers): (r: Timers)
    ensures r.stored == t.stored && r.nextId == t.nextId
    ensures r.live == if t.stored.Some? then t.live - {t.stored.value} else t.live
    ensures WellFormed(t) ==> WellFormed(r)
  {
    match t.stored
    case None => t
    case Some(h) => t.(live := t.live - {h})
  }

  /** startAutoplay from a quiet carousel leaves exactly one firing interval, the stored one. */
  lemma StartFromIdle(t: Timers)
    requires Idle(t)
    ensures Running(Start(t)) && |Start(t).live| == 1
  {
  }

  /** stopAutoplay cancels exactly the handle stored by the latest startAutoplay. */
  lemma StopCancelsLatestStart(t: Timers)
    requires WellFormed(t)
    ensures Stop(Start(t)).live == t.live
    ensures t.nextId !in Stop(Start(t)).live
  {
  }

  /**
   * startAutoplay while an interval is firing does not clear it: two intervals
   * fire, and a later stopAutoplay can only cancel the new one, so the earlier
   * handle stays live for good.
   */
  lemma RestartLeaksTimer(t: Timers)
    requires WellFormed(t) && Running(t)
    ensures |Start(t).live| == 2
    ensures Stop(Start(t)).live == t.live && |Stop(Start(t)).live| == 1
  {
    var h := t.stored.value;
    assert h != t.nextId;
    assert Start(t).live == {h, t.nextId};
  }

  /** Pointer events on the carousel container. */
  datatype HoverEvent = Enter | Leave

  /** mouseenter stops autoplay, mouseleave starts it. */
  function Hover(t: Timers, e: HoverEvent): (r: Timers)
    ensures e == Enter ==> r.live <= t.live && r.stored == t.stored
    ensures e == Leave ==> r.stored.Some? && r.stored.value in r.live && t.live <= r.live
  {
    match e
    case Enter => Stop(t)
    case Leave => Start(t)
  }

  /** The timer state after a sequence of pointer events, in order. */
  function HoverAll(t: Timers, es: seq<HoverEvent>): (r: Timers)
    decreases |es|
  {
    if es == [] then t else HoverAll(Hover(t, es[0]), es[1..])
  }

  /**
   * Strict alternation: while running the next event is an Enter, while idle
   * a Leave (the browser's enter/leave pairs after the constructor's start).
   */
  ghost predicate Alternating(es: seq<HoverEvent>, running: bool)
    decreases |es|
  {
    es == [] ||
    (es[0] == (if running then Enter else Leave) && Alternating(es[1..], !running))
  }

  /**
   * Under strict start/stop alternation at most one interval is ever live:
   * the carousel is either running its stored interval or idle.
   */
  lemma {:induction false} AlternationKeepsOneTimer(t: Timers, es: seq<HoverEvent>, running: bool)
    requires if running then Running(t) else Idle(t)
    requires Alternating(es, running)
    ensures Running(HoverAll(t, es)) || Idle(HoverAll(t, es))
    ensures |HoverAll(t, es).live| <= 1
    decreases |es|
  {
    if es == [] {
      assert HoverAll(t, es) == t;
      if running { assert |t.live| == 1; }
    } else {
      var t' := Hover(t, es[0]);
      if running {
        assert t' == Stop(t) && Idle(t');
      } else {
        StartFromIdle(t);
      }
      AlternationKeepsOneTimer(t', es[1..], !running);
    }
  }
}
