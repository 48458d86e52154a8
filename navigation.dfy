/**
 * The navigation highlight of the page's consolidated scroll handler: the
 * page's sections with an id are scanned in document order, the last one
 * whose top (less a 100-pixel lead) the scroll offset has reached becomes
 * current, and the navigation links pointing at it are coloured.
 */
module NavHighlight {
  import opened Wrappers

  /** A section with an id attribute, and its offsetTop. */
  datatype Section = Section(id: string, offsetTop: int)

  /** A navigation link: its href attribute and its inline colour ("" is the stylesheet's). */
  datatype NavLink = NavLink(href: string, color: string)

  /** The colour of the link of the current section. */
  const ActiveColor: string := "#667eea"

  /** How far above a section's top the scroll offset already counts as inside it. */
  const Lead: int := 100

  predicate Reached(sec: Section, scrolled: real)
  {
    scrolled >= (sec.offsetTop - Lead) as real
  }

  /**
   * The index of the last section, in document order, that the offset has
   * reached, or None when it has reached none.
   */
  function LastReached(sections: seq<Section>, scrolled: real): (r: Option<nat>)
    ensures r.Some? ==> r.value < |sections| && Reached(sections[r.value], scrolled)
    ensures r.Some? ==> forall j :: r.value < j < |sections| ==> !Reached(sections[j], scrolled)
    ensures r.None? ==> forall j :: 0 <= j < |sections| ==> !Reached(sections[j], scrolled)
  {
    if sections == [] then None
    else if Reached(sections[|sections| - 1], scrolled) then Some(|sections| - 1)
    else LastReached(sections[..|sections| - 1], scrolled)
  }

  /** The id the handler settles on: that of the last reached section, or "" if there is none. */
  function CurrentId(sections: seq<Section>, scrolled: real): string
  {
    match LastReached(sections, scrolled)
    case None => ""
    case Some(k) => sections[k].id
  }

  /** A section once reached stays reached further down, so the current section never moves back up the document. */
  lemma {:induction false} LastReachedMonotone(sections: seq<Section>, s1: real, s2: real)
    requires s1 <= s2
    requires LastReached(sections, s1).Some?
    ensures LastReached(sections, s2).Some?
    ensures LastReached(sections, s1).value <= LastReached(sections, s2).value
  {
    var k := LastReached(sections, s1).value;
    assert Reached(sections[k], s2);
  }

  /** The scan over the sections: remembers the id of each reached section, so the last one wins. */
  method CurrentSection(sections: seq<Section>, scrolled: real) returns (current: string)
    ensures current == CurrentId(sections, scrolled)
  {
    current := "";
    var i := 0;
    while i < |sections|
      invariant 0 <= i <= |sections|
      invariant current == CurrentId(sections[..i], scrolled)
    {
      assert sections[..i + 1][..i] == sections[..i];
      if Reached(sections[i], scrolled) {
        current := sections[i].id;
      }
      i := i + 1;
    }
    assert sections[..i] == sections;
  }

  /** Resets every link's colour, then colours exactly the links whose href is "#" followed by current. */
  method HighlightLinks(links: array<NavLink>, current: string)
    modifies links
    ensures forall k :: 0 <= k < links.Length ==>
      links[k] == NavLink(old(links[k].href), if old(links[k].href) == "#" + current then ActiveColor else "")
  {
    var k := 0;
    while k < links.Length
      invariant 0 <= k <= links.Length
      invariant forall j :: 0 <= j < k ==>
        links[j] == NavLink(old(links[j].href), if old(links[j].href) == "#" + current then ActiveColor else "")
      invariant forall j :: k <= j < links.Length ==> links[j] == old(links[j])
    {
      links[k] := links[k].(color := "");
      if links[k].href == "#" + current {
        links[k] := links[k].(color := ActiveColor);
      }
      k := k + 1;
    }
  }

  /** The navigation part of one run of the scroll handler. */
  method UpdateNavigation(sections: seq<Section>, links: array<NavLink>, scrolled: real)
    modifies links
    ensures forall k :: 0 <= k < links.Length ==>
      links[k].href == old(links[k].href) &&
      (links[k].color == ActiveColor <==> links[k].href == "#" + CurrentId(sections, scrolled)) &&
      (links[k].color != ActiveColor ==> links[k].color == "")
  {
    var current := CurrentSection(sections, scrolled);
    HighlightLinks(links, current);
  }

  /**
   * With no section reached the current id is "", so the links coloured are
   * those whose href is a bare "#".
   */
  lemma NoneReachedColoursBareHash(sections: seq<Section>, scrolled: real)
    requires forall j :: 0 <= j < |sections| ==> !Reached(sections[j], scrolled)
    ensures "#" + CurrentId(sections, scrolled) == "#"
  {
  }
}
