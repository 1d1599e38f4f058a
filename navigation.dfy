/** The navigation highlight of the page: on every scroll, the last section (in document
    order) whose top is at most 200 pixels below the scroll position is the current one,
    and exactly the navigation links pointing at "#" + its id are marked active.
    Positions are whole pixels. */
module Navigation {

  datatype Section = Section(id: string, top: int)
  datatype NavLink = NavLink(href: string, active: bool)

  /** How far below the scroll position a section's top may be and still count. */
  const Offset := 200

  predicate Reached(section: Section, scrollY: int) {
    scrollY >= section.top - Offset
  }

  /** The index of the last reached section, or -1 when no section is reached. */
  function LastReached(sections: seq<Section>, scrollY: int): (r: int)
    ensures -1 <= r < |sections|
    ensures r >= 0 ==> Reached(sections[r], scrollY)
    ensures forall k :: r < k < |sections| ==> !Reached(sections[k], scrollY)
  {
    if |sections| == 0 then -1
    else if Reached(sections[|sections| - 1], scrollY) then |sections| - 1
    else LastReached(sections[..|sections| - 1], scrollY)
  }

  /** The id of the current section, or the empty string when no section is reached. */
  function CurrentSection(sections: seq<Section>, scrollY: int): (current: string)
    ensures (forall k :: 0 <= k < |sections| ==> !Reached(sections[k], scrollY)) ==> current == ""
    ensures (exists k :: 0 <= k < |sections| && Reached(sections[k], scrollY)) ==>
              exists k :: 0 <= k < |sections| && Reached(sections[k], scrollY) && current == sections[k].id
                && forall l :: k < l < |sections| ==> !Reached(sections[l], scrollY)
  {
    var r := LastReached(sections, scrollY);
    if r < 0 then "" else sections[r].id
  }

  /** The first half of the scroll handler: walks the sections in order and keeps the id
      of the latest one reached. */
  method SelectSection(sections: seq<Section>, scrollY: int) returns (current: string)
    ensures current == CurrentSection(sections, scrollY)
  {
    current := "";
    var i := 0;
    while i < |sections|
      invariant 0 <= i <= |sections|
      invariant current == CurrentSection(sections[..i], scrollY)
    {
      var section := sections[i];
      if scrollY >= section.top - Offset {
        current := section.id;
      }
      assert sections[..i + 1][..i] == sections[..i];
      i := i + 1;
    }
    assert sections[..|sections|] == sections;
  }

  /** The links after the highlight: active exactly when the href is "#" + current. */
  function Highlighted(links: seq<NavLink>, current: string): (r: seq<NavLink>)
    ensures |r| == |links|
    ensures forall j :: 0 <= j < |r| ==>
              r[j].href == links[j].href && (r[j].active <==> links[j].href == "#" + current)
  {
    seq(|links|, j requires 0 <= j < |links| => links[j].(active := links[j].href == "#" + current))
  }

  /** Scrolling further down never selects an earlier section. */
  lemma {:induction false} ScrollMonotone(sections: seq<Section>, y1: int, y2: int)
    requires y1 <= y2
    ensures LastReached(sections, y1) <= LastReached(sections, y2)
    decreases |sections|
  {
    if |sections| > 0 && !Reached(sections[|sections| - 1], y2) {
      ScrollMonotone(sections[..|sections| - 1], y1, y2);
    }
  }

  /** With the sections laid out top to bottom, every section up to the current one is
      reached and every later one is not: the current section is the last one whose top
      is at most scrollY + 200. */
  lemma SortedSelection(sections: seq<Section>, scrollY: int)
    requires forall k, l :: 0 <= k < l < |sections| ==> sections[k].top <= sections[l].top
    ensures var r := LastReached(sections, scrollY);
      forall k :: 0 <= k < |sections| ==> (k <= r <==> sections[k].top <= scrollY + Offset)
  {
  }

  /** With distinct hrefs, at most one link is active after the highlight. */
  lemma HighlightAtMostOne(links: seq<NavLink>, current: string)
    requires forall j, k :: 0 <= j < k < |links| ==> links[j].href != links[k].href
    ensures forall j, k :: 0 <= j < k < |links| ==>
              !(Highlighted(links, current)[j].active && Highlighted(links, current)[k].active)
  {
  }

  /** Above every section the current id is empty, so exactly the links whose href is the
      bare "#" are marked active. */
  lemma NothingReached(sections: seq<Section>, scrollY: int, links: seq<NavLink>)
    requires forall k :: 0 <= k < |sections| ==> sections[k].top > scrollY + Offset
    ensures CurrentSection(sections, scrollY) == ""
    ensures forall j :: 0 <= j < |links| ==>
              (Highlighted(links, CurrentSection(sections, scrollY))[j].active <==> links[j].href == "#")
  {
  }

  /** The page's navigation links with their "active" classes. */
  class NavBar {
    var links: seq<NavLink>

    constructor (links: seq<NavLink>)
      ensures this.links == links
    {
      this.links := links;
    }

    /** The scroll handler, given the sections' current tops and the scroll position. */
    method UpdateActiveNav(sections: seq<Section>, scrollY: int)
      modifies this
      ensures links == Highlighted(old(links), CurrentSection(sections, scrollY))
    {
      var currentSection := SelectSection(sections, scrollY);

      var i := 0;
      while i < |links|
        invariant 0 <= i <= |links| == |old(links)|
        invariant forall j :: 0 <= j < i ==>
                    links[j] == old(links)[j].(active := old(links)[j].href == "#" + currentSection)
        invariant forall j :: i <= j < |links| ==> links[j] == old(links)[j]
      {
        links := links[i := links[i].(active := false)];
        if links[i].href == "#" + currentSection {
          links := links[i := links[i].(active := true)];
        }
        i := i + 1;
      }
    }
  }
}
