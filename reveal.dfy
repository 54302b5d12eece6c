/**
 * Reveal on scroll: the first time a `.reveal` element intersects, it gets
 * the class `is-visible` and the observer stops watching it.
 */
module Reveal {

  /** A page element, by identity. */
  type Element = nat

  /** One `IntersectionObserverEntry`: its target and whether it intersects. */
  datatype Sighting = Sighting(target: Element, isIntersecting: bool)

  /** The targets of the intersecting entries of a batch. */
  function Hits(entries: seq<Sighting>): (h: set<Element>)
    ensures forall k | 0 <= k < |entries| && entries[k].isIntersecting :: entries[k].target in h
    ensures forall x | x in h :: exists k | 0 <= k < |entries| :: entries[k].isIntersecting && entries[k].target == x
  {
    set k | 0 <= k < |entries| && entries[k].isIntersecting :: entries[k].target
  }

  /** The targets the observer may report: the ones it still observes. */
  predicate Reportable(observed: set<Element>, entries: seq<Sighting>) {
    forall k | 0 <= k < |entries| :: entries[k].target in observed
  }

  /** The observer and the elements it has revealed so far. */
  class RevealObserver {
    /** Elements still observed. */
    var observed: set<Element>
    /** Elements that carry `is-visible`. */
    var visible: set<Element>

    /** Revealed elements are no longer observed. */
    ghost predicate Valid()
      reads this
    {
      observed !! visible
    }

    /** `revealEls.forEach(el => io.observe(el))`. */
    constructor (elements: set<Element>)
      ensures Valid() && observed == elements && visible == {}
    {
      observed, visible := elements, {};
    }

    /**
     * The observer's callback: every intersecting target is revealed and
     * unobserved; the others stay as they were.
     */
    method OnEntries(entries: seq<Sighting>)
      requires Valid()
      modifies this
      ensures Valid()
      ensures visible == old(visible) + Hits(entries)
      ensures observed == old(observed) - Hits(entries)
    {
      var k := 0;
      while k < |entries|
        invariant 0 <= k <= |entries|
        invariant observed !! visible
        invariant visible == old(visible) + Hits(entries[..k])
        invariant observed == old(observed) - Hits(entries[..k])
      {
        assert entries[..k + 1] == entries[..k] + [entries[k]];
        if entries[k].isIntersecting {
          visible := visible + {entries[k].target};
          observed := observed - {entries[k].target};
        }
        assert Hits(entries[..k + 1]) == Hits(entries[..k]) + (if entries[k].isIntersecting then {entries[k].target} else {});
        k := k + 1;
      }
      assert entries[..k] == entries;
    }
  }

  /**
   * The batches `batches` can be delivered one after another to an observer
   * that starts out observing `observed`: each batch reports only elements
   * still observed after the batches before it, as `OnEntries` leaves them.
   */
  predicate Delivered(observed: set<Element>, batches: seq<seq<Sighting>>)
    decreases |batches|
  {
    batches == [] ||
    (Reportable(observed, batches[0]) && Delivered(observed - Hits(batches[0]), batches[1..]))
  }

  /** Every batch of a delivery reveals only elements observed at its start. */
  lemma {:induction false} HitsWithin(observed: set<Element>, batches: seq<seq<Sighting>>)
    requires Delivered(observed, batches)
    ensures forall b | 0 <= b < |batches| :: Hits(batches[b]) <= observed
    decreases |batches|
  {
    if batches != [] {
      HitsWithin(observed - Hits(batches[0]), batches[1..]);
      forall b | 0 <= b < |batches|
        ensures Hits(batches[b]) <= observed
      {
        if b > 0 {
          assert batches[b] == batches[1..][b - 1];
        }
      }
    }
  }

  /**
   * The transition is one-shot: no two batches of a delivery reveal the same
   * element, so an element that re-enters the viewport after being revealed
   * never triggers the callback again.
   */
  lemma {:induction false} OneShot(observed: set<Element>, batches: seq<seq<Sighting>>)
    requires Delivered(observed, batches)
    ensures forall a, b | 0 <= a < b < |batches| :: Hits(batches[a]) !! Hits(batches[b])
    decreases |batches|
  {
    if batches != [] {
      var rest := batches[1..];
      HitsWithin(observed - Hits(batches[0]), rest);
      OneShot(observed - Hits(batches[0]), rest);
      forall a, b | 0 <= a < b < |batches|
        ensures Hits(batches[a]) !! Hits(batches[b])
      {
        assert batches[b] == rest[b - 1];
        if a > 0 {
          assert batches[a] == rest[a - 1];
        }
      }
    }
  }
}
