/**
 * The scroll tracker: when a section becomes the dominant one in the viewport,
 * the page's `--accent` colour follows the section's colour (if it has one) and
 * the navigation link pointing at the section becomes the only active one.
 *
 * The visibility computation belongs to the browser; a batch of observer entries
 * arrives here as a sequence of `(id, isIntersecting)` pairs in report order.
 */
module ScrollTracker {
  import opened Wrappers

  /** The colour associated with each section id. */
  const SectionColors: map<string, string> := map[
    "home" := "#108f73ff",
    "about" := "#db0808ff",
    "skills" := "#74b9ff",
    "projects" := "#55efc4",
    "experience" := "#ffeaa7",
    "contact" := "#a29bfe"
  ]

  /** A navigation link: its `href` attribute (absent is `None`) and whether it carries `active`. */
  datatype NavLink = NavLink(href: Option<string>, active: bool)

  /** One observer entry: the id of the observed section and whether it now intersects. */
  datatype Entry = Entry(id: string, isIntersecting: bool)

  /**
   * `sectionColors[id]` read as a condition: present, and a non-empty (truthy)
   * string. Every colour of the page's map is non-empty, so a section has an
   * accent exactly when its id is a key of the map.
   */
  function AccentFor(id: string): (r: Option<string>)
    ensures r.Some? <==> id in SectionColors
    ensures r.Some? ==> r.value == SectionColors[id]
  {
    if id in SectionColors && SectionColors[id] != "" then Some(SectionColors[id]) else None
  }

  /** The href that points at section `id`. */
  function Anchor(id: string): string {
    "#" + id
  }

  /** The links after `setActiveNav(id)` ran over them. */
  function MarkActive(links: seq<NavLink>, id: string): (r: seq<NavLink>)
    ensures |r| == |links|
    ensures forall i :: 0 <= i < |r| ==>
              r[i].href == links[i].href && (r[i].active <==> links[i].href == Some(Anchor(id)))
  {
    seq(|links|, i requires 0 <= i < |links| => NavLink(links[i].href, links[i].href == Some(Anchor(id))))
  }

  /** Marking for `b` after marking for `a` is marking for `b`: only the last call matters. */
  lemma MarkActiveOverrides(links: seq<NavLink>, a: string, b: string)
    ensures MarkActive(MarkActive(links, a), b) == MarkActive(links, b)
  {
  }

  /** `setActiveNav` twice with the same id is the same as once. */
  lemma MarkActiveIdempotent(links: seq<NavLink>, id: string)
    ensures MarkActive(MarkActive(links, id), id) == MarkActive(links, id)
  {
    MarkActiveOverrides(links, id, id);
  }

  /** Number of links carrying `active`. */
  function ActiveCount(links: seq<NavLink>): nat {
    if links == [] then 0 else (if links[0].active then 1 else 0) + ActiveCount(links[1..])
  }

  /** Number of links whose href is `h`. */
  function HrefCount(links: seq<NavLink>, h: Option<string>): nat {
    if links == [] then 0 else (if links[0].href == h then 1 else 0) + HrefCount(links[1..], h)
  }

  /** No two links point at the same place (links without an href are ignored). */
  predicate DistinctHrefs(links: seq<NavLink>) {
    forall i, j :: 0 <= i < j < |links| && links[i].href.Some? ==> links[i].href != links[j].href
  }

  /** After `setActiveNav(id)`, the active links are exactly the links to `#id`. */
  lemma {:induction false} ActiveCountOfMarked(links: seq<NavLink>, id: string)
    ensures ActiveCount(MarkActive(links, id)) == HrefCount(links, Some(Anchor(id)))
  {
    if links != [] {
      assert MarkActive(links, id)[1..] == MarkActive(links[1..], id);
      ActiveCountOfMarked(links[1..], id);
    }
  }

  /** With distinct hrefs, a given href occurs once if it occurs at all. */
  lemma {:induction false} HrefCountDistinct(links: seq<NavLink>, h: Option<string>)
    requires DistinctHrefs(links) && h.Some?
    ensures HrefCount(links, h) == if exists i :: 0 <= i < |links| && links[i].href == h then 1 else 0
  {
    if links != [] {
      assert DistinctHrefs(links[1..]) by {
        forall i, j | 0 <= i < j < |links| - 1 && links[1..][i].href.Some?
          ensures links[1..][i].href != links[1..][j].href
        {
          assert links[1..][i] == links[i + 1] && links[1..][j] == links[j + 1];
        }
      }
      HrefCountDistinct(links[1..], h);
      if links[0].href == h {
        forall i | 0 <= i < |links| - 1 ensures links[1..][i].href != h {
          assert links[1..][i] == links[i + 1];
        }
      } else {
        if exists i :: 0 <= i < |links| && links[i].href == h {
          var i :| 0 <= i < |links| && links[i].href == h;
          assert links[1..][i - 1] == links[i];
        }
      }
    }
  }

  /**
   * With distinct hrefs, `setActiveNav(id)` leaves exactly one active link when
   * some link points at `#id`, and none otherwise.
   */
  lemma ExactlyOneActive(links: seq<NavLink>, id: string)
    requires DistinctHrefs(links)
    ensures ActiveCount(MarkActive(links, id))
            == if exists i :: 0 <= i < |links| && links[i].href == Some(Anchor(id)) then 1 else 0
  {
    ActiveCountOfMarked(links, id);
    HrefCountDistinct(links, Some(Anchor(id)));
  }

  /** The id of the last intersecting entry of a batch, if any. */
  function LastIntersecting(entries: seq<Entry>): (r: Option<string>)
    ensures r.None? <==> forall i :: 0 <= i < |entries| ==> !entries[i].isIntersecting
    ensures r.Some? ==>
              exists i :: 0 <= i < |entries| && entries[i].isIntersecting && entries[i].id == r.value
                          && forall j :: i < j < |entries| ==> !entries[j].isIntersecting
  {
    if entries == [] then None
    else
      var last := entries[|entries| - 1];
      if last.isIntersecting then Some(last.id) else LastIntersecting(entries[..|entries| - 1])
  }

  /** The colour of the last intersecting entry of a batch whose section has one, if any. */
  function LastAccent(entries: seq<Entry>): (r: Option<string>)
    ensures r.None? <==>
              forall i :: 0 <= i < |entries| ==> !entries[i].isIntersecting || AccentFor(entries[i].id).None?
    ensures r.Some? ==>
              exists i :: 0 <= i < |entries| && entries[i].isIntersecting && AccentFor(entries[i].id) == r
                          && forall j :: i < j < |entries| && entries[j].isIntersecting ==> AccentFor(entries[j].id).None?
    ensures r.Some? ==> r.value in SectionColors.Values
  {
    if entries == [] then None
    else
      var last := entries[|entries| - 1];
      if last.isIntersecting && AccentFor(last.id).Some? then AccentFor(last.id)
      else LastAccent(entries[..|entries| - 1])
  }

  /** The entries of a batch that intersect, in order. */
  function Intersecting(entries: seq<Entry>): (r: seq<Entry>)
    ensures forall e :: e in r ==> e in entries && e.isIntersecting
  {
    if entries == [] then []
    else
      var last := entries[|entries| - 1];
      Intersecting(entries[..|entries| - 1]) + (if last.isIntersecting then [last] else [])
  }

  /** Entries that do not intersect decide nothing: dropping them changes neither outcome. */
  lemma {:induction false} NonIntersectingIgnored(entries: seq<Entry>)
    ensures LastIntersecting(Intersecting(entries)) == LastIntersecting(entries)
    ensures LastAccent(Intersecting(entries)) == LastAccent(entries)
  {
    if entries != [] {
      var init, last := entries[..|entries| - 1], entries[|entries| - 1];
      NonIntersectingIgnored(init);
      if last.isIntersecting {
        var f := Intersecting(init) + [last];
        assert Intersecting(entries) == f;
        assert f[..|f| - 1] == Intersecting(init);
      } else {
        assert Intersecting(entries) == Intersecting(init);
      }
    }
  }

  /** The accent after a batch, starting from `accent`. */
  function AccentAfter(accent: string, entries: seq<Entry>): string {
    match LastAccent(entries)
    case Some(c) => c
    case None => accent
  }

  /** The navigation links after a batch, starting from `links`. */
  function LinksAfter(links: seq<NavLink>, entries: seq<Entry>): seq<NavLink> {
    match LastIntersecting(entries)
    case Some(id) => MarkActive(links, id)
    case None => links
  }

  /**
   * The page-wide state the tracker writes: the navigation links (found once, at
   * start-up) and the value of the `--accent` custom property.
   */
  class Tracker {
    const navLinks: array<NavLink>
    var accent: string
    var observing: bool

    constructor (navLinks: array<NavLink>, accent: string)
      ensures this.navLinks == navLinks && this.accent == accent && !observing
    {
      this.navLinks := navLinks;
      this.accent := accent;
      observing := false;
    }

    /**
     * Start-up: observe the sections when the browser offers an intersection
     * observer and there is at least one `.section[id]`; otherwise fall back to
     * the home section's colour and track nothing.
     */
    method Start(observerAvailable: bool, sectionCount: nat)
      modifies this
      ensures observing == (observerAvailable && sectionCount > 0)
      ensures accent == if observing then old(accent) else SectionColors["home"]
    {
      if observerAvailable && sectionCount > 0 {
        observing := true;
      } else {
        observing := false;
        accent := SectionColors["home"];
      }
    }

    /** Exactly the links to `#id` become active; hrefs and the number of links are unchanged. */
    method SetActiveNav(id: string)
      modifies navLinks
      ensures navLinks[..] == MarkActive(old(navLinks[..]), id)
    {
      var i := 0;
      while i < navLinks.Length
        invariant 0 <= i <= navLinks.Length
        invariant forall j :: 0 <= j < i ==>
                    navLinks[j] == NavLink(old(navLinks[j]).href, old(navLinks[j]).href == Some(Anchor(id)))
        invariant forall j :: i <= j < navLinks.Length ==> navLinks[j] == old(navLinks[j])
      {
        if navLinks[i].href == Some(Anchor(id)) {
          navLinks[i] := navLinks[i].(active := true);
        } else {
          navLinks[i] := navLinks[i].(active := false);
        }
        i := i + 1;
      }
    }

    /**
     * The observer callback on one batch of entries, processed in order: the last
     * intersecting entry decides the active link, and the last intersecting entry
     * whose section has a colour decides the accent.
     */
    method HandleBatch(entries: seq<Entry>)
      requires observing
      modifies this, navLinks
      ensures observing
      ensures accent == AccentAfter(old(accent), entries)
      ensures navLinks[..] == LinksAfter(old(navLinks[..]), entries)
    {
      var i := 0;
      while i < |entries|
        invariant 0 <= i <= |entries|
        invariant observing
        invariant accent == AccentAfter(old(accent), entries[..i])
        invariant navLinks[..] == LinksAfter(old(navLinks[..]), entries[..i])
      {
        var entry := entries[i];
        assert entries[..i + 1][..i] == entries[..i];
        if entry.isIntersecting {
          var id := entry.id;
          var colour := AccentFor(id);
          if colour.Some? {
            accent := colour.value;
          }
          SetActiveNav(id);
          if LastIntersecting(entries[..i]).Some? {
            MarkActiveOverrides(old(navLinks[..]), LastIntersecting(entries[..i]).value, id);
          }
        }
        i := i + 1;
      }
      assert entries[..i] == entries;
    }
  }
}
