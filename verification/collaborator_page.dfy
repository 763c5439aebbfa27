/**
 * The collaborator page's interactive parts: the creative-format tabs, keyed
 * by the property names of a `tabs` object, and the FAQ accordion.
 */
module CollaboratorPage {
  import opened Wrappers
  import Selection
  import ObjectKeys
  import Accordion

  datatype Tab = Tab(title: string)

  /** The `tabs` object's properties, in the order its literal creates them. */
  const TabDecl: seq<(string, Tab)> := [
    ("playable", Tab("Playable VR Mini-Experiences")),
    ("360", Tab("360° Immersive Worlds")),
    ("interactiveVideo", Tab("Interactive Flat Video"))
  ]

  function Keys(decl: seq<(string, Tab)>): (r: seq<string>)
    ensures |r| == |decl|
    ensures forall i :: 0 <= i < |decl| ==> r[i] == decl[i].0
  {
    seq(|decl|, i requires 0 <= i < |decl| => decl[i].0)
  }

  /** `tabs[key]`: the property's value, or nothing (`undefined`) for a missing key. */
  function Lookup(decl: seq<(string, Tab)>, key: string): (r: Option<Tab>)
    ensures r.Some? <==> key in Keys(decl)
    ensures r.Some? ==> (key, r.value) in decl
    decreases |decl|
  {
    if |decl| == 0 then None
    else if decl[0].0 == key then Some(decl[0].1)
    else
      var r := Lookup(decl[1..], key);
      assert Keys(decl) == [decl[0].0] + Keys(decl[1..]);
      r
  }

  /** The tab buttons, in the order `Object.keys(tabs)` lists the keys. */
  function TabButtons(): (ks: seq<string>)
    ensures multiset(ks) == multiset(Keys(TabDecl))
  {
    ObjectKeys.OwnKeys(Keys(TabDecl))
  }

  /** "360" is the only array index among the tab keys. */
  lemma KeyGroups()
    ensures ObjectKeys.IndexKeys(Keys(TabDecl)) == ["360"]
    ensures ObjectKeys.NamedKeys(Keys(TabDecl)) == ["playable", "interactiveVideo"]
  {
    var decl := Keys(TabDecl);
    assert decl == ["playable", "360", "interactiveVideo"];
    assert !ObjectKeys.IsDigit("playable"[0]);
    assert !ObjectKeys.IsDigit("interactiveVideo"[0]);
    assert ObjectKeys.NumericValue("360") == 360 by {
      assert "360"[..2] == "36" && "36"[..1] == "3" && "3"[..0] == "";
    }
    assert ObjectKeys.IsArrayIndex("360");
    assert !ObjectKeys.IsArrayIndex("playable");
    assert !ObjectKeys.IsArrayIndex("interactiveVideo");
    var tail := ["interactiveVideo"];
    var mid := ["360", "interactiveVideo"];
    assert tail[1..] == [] && mid[1..] == tail && decl[1..] == mid;
    assert ObjectKeys.IndexKeys(tail) == [];
    assert ObjectKeys.IndexKeys(mid) == ["360"];
    assert ObjectKeys.NamedKeys(tail) == ["interactiveVideo"];
    assert ObjectKeys.NamedKeys(mid) == ["interactiveVideo"];
  }

  /** "360" is an array index, so its button is drawn before the others. */
  lemma ButtonOrder()
    ensures TabButtons() == ["360", "playable", "interactiveVideo"]
  {
    KeyGroups();
    var decl := Keys(TabDecl);
    assert ObjectKeys.Sort(["360"]) == ["360"] by {
      assert ["360"][1..] == [];
    }
    assert ObjectKeys.OwnKeys(decl) == ObjectKeys.Sort(ObjectKeys.IndexKeys(decl)) + ObjectKeys.NamedKeys(decl);
  }

  const InitialTab: string := "playable"

  /** A click on a tab button; there is one button per key of the object. */
  function ClickTab(current: string, key: string): (r: string)
    requires key in Keys(TabDecl)
    ensures r == key
    ensures Lookup(TabDecl, r).Some?
  {
    assert key in multiset(Keys(TabDecl));
    assert key in multiset(TabButtons());
    Selection.Select(TabButtons(), current, key)
  }

  /**
   * The active tab after a sequence of clicks on tab buttons: it always names a
   * key of `tabs`, so the description and title lookups are defined, and
   * exactly one button is drawn active.
   */
  function TabAfter(clicks: seq<string>): (r: string)
    requires Selection.ClicksIn(TabButtons(), clicks)
    ensures r in TabButtons()
    ensures Lookup(TabDecl, r).Some?
    ensures |Selection.Highlighted(TabButtons(), r)| == 1
    ensures |clicks| == 0 ==> r == InitialTab
  {
    assert InitialTab in multiset(Keys(TabDecl)) by {
      assert Keys(TabDecl)[0] == InitialTab;
    }
    assert InitialTab in multiset(TabButtons());
    var r := Selection.Run(TabButtons(), InitialTab, clicks);
    assert r in multiset(Keys(TabDecl));
    r
  }

  // ---------------------------------------------------------------------------
  // FAQ
  // ---------------------------------------------------------------------------

  const FaqCount: nat := 5

  /** The collaborator FAQ's open index after a sequence of clicks, starting closed. */
  function FaqAfter(clicks: seq<nat>): (open: Option<nat>)
    requires Accordion.ClicksBelow(clicks, FaqCount)
    ensures Accordion.Within(open, FaqCount)
    ensures |Accordion.Expanded(open, FaqCount)| <= 1
    ensures |clicks| == 0 ==> open == None
  {
    Accordion.Run(FaqCount, Accordion.Closed, clicks)
  }
}
