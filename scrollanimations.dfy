/**
 * The fade-in observer: every '.fade-in' element is observed; when an entry
 * reports it intersecting, it gets the 'visible' class and is unobserved, so
 * it is made visible at most once. Elements are identified by number.
 */
module ScrollAnimations {

  /** An intersection entry delivered to the observer callback. */
  datatype Entry = Entry(target: nat, isIntersecting: bool)

  /** The targets of the intersecting entries of one batch. */
  function Hits(entries: seq<Entry>): (r: set<nat>)
    ensures forall e :: e in entries && e.isIntersecting ==> e.target in r
    ensures forall t :: t in r ==> exists e :: e in entries && e.isIntersecting && e.target == t
    decreases |entries|
  {
    if entries == [] then {}
    else
      var last := entries[|entries| - 1];
      assert entries == entries[..|entries| - 1] + [last];
      Hits(entries[..|entries| - 1]) + (if last.isIntersecting then {last.target} else {})
  }

  /** The targets of all entries of one batch. */
  function Targets(entries: seq<Entry>): (r: set<nat>)
    ensures Hits(entries) <= r
  {
    set e | e in entries :: e.target
  }

  /**
   * The host delivers a batch only for elements observed when it is delivered:
   * each batch's targets are still observed after the batches before it.
   */
  ghost predicate Delivered(observed: set<nat>, batches: seq<seq<Entry>>)
    decreases |batches|
  {
    batches == [] ||
    (Targets(batches[0]) <= observed && Delivered(observed - Hits(batches[0]), batches[1..]))
  }

  lemma {:induction false} DeliveredWithin(observed: set<nat>, batches: seq<seq<Entry>>, j: nat)
    requires Delivered(observed, batches) && j < |batches|
    ensures Hits(batches[j]) <= observed
    decreases j
  {
    if j > 0 {
      DeliveredWithin(observed - Hits(batches[0]), batches[1..], j - 1);
    }
  }

  /** No element is made visible by two different batches: the callback fires at most once per element. */
  lemma {:induction false} FiresAtMostOnce(observed: set<nat>, batches: seq<seq<Entry>>, i: nat, j: nat)
    requires Delivered(observed, batches)
    requires i < j < |batches|
    ensures Hits(batches[i]) !! Hits(batches[j])
    decreases i
  {
    if i == 0 {
      DeliveredWithin(observed - Hits(batches[0]), batches[1..], j - 1);
    } else {
      FiresAtMostOnce(observed - Hits(batches[0]), batches[1..], i - 1, j - 1);
    }
  }

  class FadeInObserver {
    var observed: set<nat>   // elements the IntersectionObserver still observes
    var visible: set<nat>    // elements given the 'visible' class by the observer
    ghost var elements: set<nat>

    /** Every element is either still observed or already visible, never both. */
    ghost predicate Valid()
      reads this
    {
      observed !! visible && observed + visible == elements
    }

    /** initScrollAnimations: observe every '.fade-in' element. */
    constructor (fadeElements: set<nat>)
      ensures Valid() && elements == fadeElements
      ensures observed == fadeElements && visible == {}
    {
      observed := fadeElements;
      visible := {};
      elements := fadeElements;
    }

    /** The observer callback on one batch of entries, handled in order. */
    method OnEntries(entries: seq<Entry>)
      requires Valid()
      requires Targets(entries) <= observed
      modifies this`observed, this`visible
      ensures Valid()
      ensures visible == old(visible) + Hits(entries)
      ensures observed == old(observed) - Hits(entries)
    {
      var i := 0;
      while i < |entries|
        invariant 0 <= i <= |entries|
        invariant visible == old(visible) + Hits(entries[..i])
        invariant observed == old(observed) - Hits(entries[..i])
        invariant Hits(entries[..i]) <= old(observed)
        invariant Valid()
      {
        assert entries[..i + 1][..i] == entries[..i];
        var entry := entries[i];
        assert entry in entries;
        if entry.isIntersecting {
          visible := visible + {entry.target};
          observed := observed - {entry.target};
        }
        i := i + 1;
      }
      assert entries[..|entries|] == entries;
    }
  }
}
