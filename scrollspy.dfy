/**
 * Scrollspy: the intersection callback that picks the most visible section
 * and `setActive`, which restyles the in-page navigation links.
 */
module Scrollspy {
  import opened Wrappers

  /** One `IntersectionObserverEntry`: its target's `id`, whether it intersects, its ratio. */
  datatype Entry = Entry(id: string, isIntersecting: bool, ratio: real)

  /**
   * `entries.filter(e => e.isIntersecting).sort((a, b) => b.intersectionRatio - a.intersectionRatio)[0]`,
   * as an index into `entries`.  Sorting is stable, so among the entries of
   * highest ratio the earliest one comes first.
   */
  function Pick(entries: seq<Entry>): (r: Option<nat>)
    ensures r.None? <==> forall j | 0 <= j < |entries| :: !entries[j].isIntersecting
    ensures r.Some? ==> r.value < |entries| && entries[r.value].isIntersecting
    ensures r.Some? ==> forall j | 0 <= j < |entries| && entries[j].isIntersecting ::
      entries[j].ratio <= entries[r.value].ratio
    ensures r.Some? ==> forall j | 0 <= j < r.value && entries[j].isIntersecting ::
      entries[j].ratio < entries[r.value].ratio
  {
    if entries == [] then None
    else
      var rest := Pick(entries[1..]);
      var e := entries[0];
      if e.isIntersecting && (rest.None? || entries[1 + rest.value].ratio <= e.ratio) then Some(0)
      else if rest.None? then None
      else Some(1 + rest.value)
  }

  /** In-page navigation link: its `href` and whether it carries the active style. */
  datatype Link = Link(href: string, active: bool)

  /** The link marks the section `id`: `setActive(id)` styles exactly these links. */
  predicate Targets(l: Link, id: string) {
    l.href == "#" + id
  }

  /** Exactly the links whose `href` is `#id` are active. */
  predicate MarksOnly(links: seq<Link>, id: string) {
    forall k | 0 <= k < |links| :: links[k].active <==> Targets(links[k], id)
  }

  /** No two links share an `href`. */
  predicate DistinctHrefs(links: seq<Link>) {
    forall a, b | 0 <= a < b < |links| :: links[a].href != links[b].href
  }

  /** The number of active links. */
  function ActiveCount(links: seq<Link>): nat {
    if links == [] then 0 else (if links[0].active then 1 else 0) + ActiveCount(links[1..])
  }

  /**
   * With distinct `href`s, after `setActive(id)` exactly one link is active
   * when some link points at `#id`, and none otherwise.
   */
  lemma {:induction false} SingleActiveLink(links: seq<Link>, id: string)
    requires DistinctHrefs(links) && MarksOnly(links, id)
    ensures ActiveCount(links) == if exists k | 0 <= k < |links| :: Targets(links[k], id) then 1 else 0
  {
    if links != [] {
      var tail := links[1..];
      assert DistinctHrefs(tail) by {
        forall a, b | 0 <= a < b < |tail| ensures tail[a].href != tail[b].href {
          assert tail[a] == links[a + 1] && tail[b] == links[b + 1];
        }
      }
      assert MarksOnly(tail, id) by {
        forall k | 0 <= k < |tail| ensures tail[k].active <==> Targets(tail[k], id) {
          assert tail[k] == links[k + 1];
        }
      }
      SingleActiveLink(tail, id);
      if Targets(links[0], id) {
        forall k | 0 <= k < |tail| ensures !Targets(tail[k], id) {
          assert tail[k] == links[k + 1];
        }
      } else {
        if exists k | 0 <= k < |links| :: Targets(links[k], id) {
          var k :| 0 <= k < |links| && Targets(links[k], id);
          assert Targets(tail[k - 1], id);
        }
        if exists k | 0 <= k < |tail| :: Targets(tail[k], id) {
          var k :| 0 <= k < |tail| && Targets(tail[k], id);
          assert Targets(links[k + 1], id);
        }
      }
    }
  }

  /** `setActive(id)`: every link is restyled; exactly those pointing at `#id` become active. */
  method SetActive(links: array<Link>, id: string)
    modifies links
    ensures forall k | 0 <= k < links.Length :: links[k].href == old(links[k].href)
    ensures MarksOnly(links[..], id)
  {
    var k := 0;
    while k < links.Length
      invariant 0 <= k <= links.Length
      invariant forall m | 0 <= m < links.Length :: links[m].href == old(links[m].href)
      invariant forall m | 0 <= m < k :: links[m].active <==> Targets(links[m], id)
    {
      links[k] := Link(links[k].href, links[k].href == "#" + id);
      k := k + 1;
    }
  }

  /**
   * The scrollspy callback: activate the link of the picked section; when no
   * entry intersects, or the picked target has no `id`, the links keep
   * their styles.
   */
  method OnIntersect(links: array<Link>, entries: seq<Entry>)
    modifies links
    ensures forall k | 0 <= k < links.Length :: links[k].href == old(links[k].href)
    ensures Pick(entries).None? ==> links[..] == old(links[..])
    ensures Pick(entries).Some? && entries[Pick(entries).value].id == "" ==> links[..] == old(links[..])
    ensures Pick(entries).Some? && entries[Pick(entries).value].id != "" ==>
      MarksOnly(links[..], entries[Pick(entries).value].id)
  {
    var visible := Pick(entries);
    if visible.Some? && entries[visible.value].id != "" {
      SetActive(links, entries[visible.value].id);
    }
  }
}
