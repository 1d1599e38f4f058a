/** The tab system of the page: clicking a tab button makes it the only active button and
    makes the panel whose id is "tab-" followed by the button's data-tab the only active
    panel. Buttons and panels are the page's elements in document order; only the
    attribute each rule reads and the "active" class are kept. */
module Tabs {

  datatype TabButton = TabButton(dataTab: string, active: bool)
  datatype TabPanel = TabPanel(id: string, active: bool)

  /** The id of the panel a button opens. */
  function PanelId(b: TabButton): (id: string)
    ensures |id| == 4 + |b.dataTab| && id[..4] == "tab-" && id[4..] == b.dataTab
  {
    "tab-" + b.dataTab
  }

  /** The element document.getElementById finds among the panels: the first one in
      document order with the id, or -1 when there is none. */
  function FindPanel(panels: seq<TabPanel>, id: string): (r: int)
    ensures -1 <= r < |panels|
    ensures r >= 0 ==> panels[r].id == id
    ensures forall k :: 0 <= k < |panels| && (r < 0 || k < r) ==> panels[k].id != id
  {
    if |panels| == 0 then -1
    else if panels[0].id == id then 0
    else
      var r := FindPanel(panels[1..], id);
      if r < 0 then -1 else r + 1
  }

  /** getElementById looks only at ids: the active flags do not change what it finds. */
  lemma {:induction false} FindPanelByIds(p: seq<TabPanel>, q: seq<TabPanel>, id: string)
    requires |p| == |q| && forall k :: 0 <= k < |p| ==> p[k].id == q[k].id
    ensures FindPanel(p, id) == FindPanel(q, id)
  {
    if |p| > 0 && p[0].id != id {
      FindPanelByIds(p[1..], q[1..], id);
    }
  }

  /** The buttons after a click on button b: b is the only active button. */
  function ClickedButtons(buttons: seq<TabButton>, b: int): (r: seq<TabButton>)
    ensures |r| == |buttons|
    ensures forall j :: 0 <= j < |r| ==>
              r[j].dataTab == buttons[j].dataTab && (r[j].active <==> j == b)
  {
    seq(|buttons|, j requires 0 <= j < |buttons| => buttons[j].(active := j == b))
  }

  /** The panels after a click that opens id: the panel getElementById finds is the only
      active one, and no panel is active when none has the id. */
  function ClickedPanels(panels: seq<TabPanel>, id: string): (r: seq<TabPanel>)
    ensures |r| == |panels|
    ensures forall k :: 0 <= k < |r| ==>
              r[k].id == panels[k].id && (r[k].active <==> k == FindPanel(panels, id))
  {
    var p := FindPanel(panels, id);
    seq(|panels|, k requires 0 <= k < |panels| => panels[k].(active := k == p))
  }

  /** When panel ids are unique, exactly the panel with the opened id is active. */
  lemma ClickedPanelsUnique(panels: seq<TabPanel>, id: string)
    requires forall k, l :: 0 <= k < l < |panels| ==> panels[k].id != panels[l].id
    ensures forall k :: 0 <= k < |panels| ==> (ClickedPanels(panels, id)[k].active <==> panels[k].id == id)
  {
  }

  /** Clicking the same button again changes nothing. */
  lemma ClickIdempotent(buttons: seq<TabButton>, panels: seq<TabPanel>, b: int)
    requires 0 <= b < |buttons|
    ensures var bs := ClickedButtons(buttons, b);
      && ClickedButtons(bs, b) == bs
      && bs[b] == buttons[b].(active := true)
      && ClickedPanels(ClickedPanels(panels, PanelId(buttons[b])), PanelId(bs[b]))
         == ClickedPanels(panels, PanelId(buttons[b]))
  {
    var id := PanelId(buttons[b]);
    FindPanelByIds(ClickedPanels(panels, id), panels, id);
  }

  /** What a click leaves does not depend on which tab was active before it. */
  lemma ClickForgetsHistory(b1: seq<TabButton>, b2: seq<TabButton>, p1: seq<TabPanel>, p2: seq<TabPanel>, b: int, id: string)
    requires |b1| == |b2| && forall j :: 0 <= j < |b1| ==> b1[j].dataTab == b2[j].dataTab
    requires |p1| == |p2| && forall k :: 0 <= k < |p1| ==> p1[k].id == p2[k].id
    ensures ClickedButtons(b1, b) == ClickedButtons(b2, b)
    ensures ClickedPanels(p1, id) == ClickedPanels(p2, id)
  {
    FindPanelByIds(p1, p2, id);
  }

  /** The tab buttons and tab panels of the page, with their "active" classes. */
  class TabSystem {
    var buttons: seq<TabButton>
    var panels: seq<TabPanel>

    constructor (buttons: seq<TabButton>, panels: seq<TabPanel>)
      ensures this.buttons == buttons && this.panels == panels
    {
      this.buttons := buttons;
      this.panels := panels;
    }

    /** The click handler of button b. When no panel has the id, the page script fails on
        the missing element after clearing everything and activating the button; found is
        false then. */
    method Click(b: nat) returns (found: bool)
      requires b < |buttons|
      modifies this
      ensures buttons == ClickedButtons(old(buttons), b)
      ensures panels == ClickedPanels(old(panels), PanelId(old(buttons)[b]))
      ensures found <==> FindPanel(old(panels), PanelId(old(buttons)[b])) >= 0
    {
      var targetTab := buttons[b].dataTab;

      var i := 0;
      while i < |buttons|
        invariant 0 <= i <= |buttons| == |old(buttons)|
        invariant forall j :: 0 <= j < i ==> buttons[j] == old(buttons)[j].(active := false)
        invariant forall j :: i <= j < |buttons| ==> buttons[j] == old(buttons)[j]
        invariant panels == old(panels)
      {
        buttons := buttons[i := buttons[i].(active := false)];
        i := i + 1;
      }

      var k := 0;
      while k < |panels|
        invariant 0 <= k <= |panels| == |old(panels)|
        invariant forall l :: 0 <= l < k ==> panels[l] == old(panels)[l].(active := false)
        invariant forall l :: k <= l < |panels| ==> panels[l] == old(panels)[l]
        invariant |buttons| == |old(buttons)|
        invariant forall j :: 0 <= j < |buttons| ==> buttons[j] == old(buttons)[j].(active := false)
      {
        panels := panels[k := panels[k].(active := false)];
        k := k + 1;
      }

      buttons := buttons[b := buttons[b].(active := true)];
      var p := FindPanel(panels, "tab-" + targetTab);
      FindPanelByIds(panels, old(panels), "tab-" + targetTab);
      found := p >= 0;
      if found {
        panels := panels[p := panels[p].(active := true)];
      }
    }
  }
}
