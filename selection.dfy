/**
 * Exclusive "active"/"selected" class flags over a collection of elements.
 * An element collection's class flag is an array<bool>; index k is the k-th
 * element in document order.
 */
module Selection {

  /** Exactly the element at index j carries the flag (none does when j is out of range). */
  ghost predicate OnlyActive(flags: seq<bool>, j: int)
  {
    forall k :: 0 <= k < |flags| ==> flags[k] == (k == j)
  }

  /** Remove the flag at `from`, then add it at `to` (the order matters when from == to). */
  function Move(flags: seq<bool>, from: nat, to: nat): (r: seq<bool>)
    requires from < |flags| && to < |flags|
    ensures |r| == |flags|
    ensures r[to]
    ensures from != to ==> !r[from]
    ensures forall k :: 0 <= k < |flags| && k != from && k != to ==> r[k] == flags[k]
  {
    flags[from := false][to := true]
  }

  /** Moving the flag from the only active element to `to` leaves `to` as the only active one. */
  lemma MoveKeepsOnlyActive(flags: seq<bool>, from: nat, to: nat)
    requires from < |flags| && to < |flags|
    requires OnlyActive(flags, from)
    ensures OnlyActive(Move(flags, from, to), to)
  {
  }

  /**
   * Radio-style click: clear the flag on every element, then set it on the
   * clicked one. Afterwards the clicked element is the only one flagged.
   */
  method SelectOnly(flags: array<bool>, clicked: nat)
    requires clicked < flags.Length
    modifies flags
    ensures OnlyActive(flags[..], clicked)
  {
    var k := 0;
    while k < flags.Length
      invariant 0 <= k <= flags.Length
      invariant forall m :: 0 <= m < k ==> !flags[m]
    {
      flags[k] := false;
      k := k + 1;
    }
    flags[clicked] := true;
  }
}
