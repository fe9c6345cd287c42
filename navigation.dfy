/**
 * Active-section highlighting (`highlightNavLink`) and the two scroll
 * thresholds that restyle the navbar and show the scroll-to-top button.
 */
module Navigation {
  import opened Wrappers

  /** How far above a section's top the active range starts, for the fixed navbar. */
  const HeaderMargin := 150

  /** A `section` element: its `id` attribute (null when it has none, hence
      the option), its `offsetTop` and its `clientHeight`. */
  datatype Section = Section(id: Option<string>, offsetTop: int, clientHeight: int)

  /** The scroll offset lies in the section's half-open range
      [offsetTop - 150, offsetTop - 150 + clientHeight). */
  predicate InRange(s: Section, scrollY: int)
  {
    var top := s.offsetTop - HeaderMargin;
    scrollY >= top && scrollY < top + s.clientHeight
  }

  /** `currentSection` after the scan over `sections` in document order: it
      starts as '' and each section in range overwrites it with its id. */
  function ActiveSection(sections: seq<Section>, scrollY: int): Option<string>
  {
    if sections == [] then Some("")
    else if InRange(sections[|sections| - 1], scrollY) then sections[|sections| - 1].id
    else ActiveSection(sections[..|sections| - 1], scrollY)
  }

  /** The href a link needs to be active: the template `#${currentSection}`,
      in which a null id reads "null". */
  function Target(current: Option<string>): string
  {
    match current
    case Some(s) => "#" + s
    case None => "#null"
  }

  /** The last section in range wins: its id is the result, whatever the
      sections before it say. */
  lemma {:induction false} LastMatchWins(sections: seq<Section>, scrollY: int, k: nat)
    requires k < |sections| && InRange(sections[k], scrollY)
    requires forall j :: k < j < |sections| ==> !InRange(sections[j], scrollY)
    ensures ActiveSection(sections, scrollY) == sections[k].id
  {
    if k < |sections| - 1 {
      var init := sections[..|sections| - 1];
      assert init[k] == sections[k];
      forall j | k < j < |init| ensures !InRange(init[j], scrollY) {
        assert init[j] == sections[j];
      }
      LastMatchWins(init, scrollY, k);
    }
  }

  /** When no section is in range the result is '', not the previous section. */
  lemma {:induction false} NoMatchIsEmpty(sections: seq<Section>, scrollY: int)
    requires forall j :: 0 <= j < |sections| ==> !InRange(sections[j], scrollY)
    ensures ActiveSection(sections, scrollY) == Some("")
  {
    if sections != [] {
      var init := sections[..|sections| - 1];
      forall j | 0 <= j < |init| ensures !InRange(init[j], scrollY) {
        assert init[j] == sections[j];
      }
      NoMatchIsEmpty(init, scrollY);
    }
  }

  /** The result is '' or the id of some section in range. */
  lemma {:induction false} ActiveSectionIsInRange(sections: seq<Section>, scrollY: int)
    ensures ActiveSection(sections, scrollY) == Some("") ||
            exists k :: 0 <= k < |sections| && InRange(sections[k], scrollY) &&
                        ActiveSection(sections, scrollY) == sections[k].id
  {
    if sections != [] && !InRange(sections[|sections| - 1], scrollY) {
      var init := sections[..|sections| - 1];
      ActiveSectionIsInRange(init, scrollY);
      if ActiveSection(init, scrollY) != Some("") {
        var k :| 0 <= k < |init| && InRange(init[k], scrollY) && ActiveSection(init, scrollY) == init[k].id;
        assert sections[k] == init[k];
      }
    }
  }

  /** The first loop of `highlightNavLink`, over the sections in document order. */
  method CurrentSection(sections: seq<Section>, scrollY: int) returns (current: Option<string>)
    ensures current == ActiveSection(sections, scrollY)
  {
    current := Some("");
    for i := 0 to |sections|
      invariant current == ActiveSection(sections[..i], scrollY)
    {
      assert sections[..i + 1][..i] == sections[..i];
      if InRange(sections[i], scrollY) {
        current := sections[i].id;
      }
    }
    assert sections[..|sections|] == sections;
  }

  /** Which links are active after `highlightNavLink`: those whose href is the
      target of the active section. */
  function LinkStates(hrefs: seq<string>, sections: seq<Section>, scrollY: int): (states: seq<bool>)
    ensures |states| == |hrefs|
  {
    seq(|hrefs|, i requires 0 <= i < |hrefs| => hrefs[i] == Target(ActiveSection(sections, scrollY)))
  }

  /** A link that points at the last section in range is active, whatever
      the other links' hrefs are. */
  lemma LinkOfActiveSection(hrefs: seq<string>, sections: seq<Section>, scrollY: int, k: nat, i: nat)
    requires k < |sections| && InRange(sections[k], scrollY)
    requires forall j :: k < j < |sections| ==> !InRange(sections[j], scrollY)
    requires i < |hrefs| && hrefs[i] == Target(sections[k].id)
    ensures LinkStates(hrefs, sections, scrollY)[i]
  {
    LastMatchWins(sections, scrollY, k);
  }

  /** With distinct hrefs, that link is the only active one. */
  lemma OnlyLinkOfActiveSection(hrefs: seq<string>, sections: seq<Section>, scrollY: int, k: nat, i: nat)
    requires k < |sections| && InRange(sections[k], scrollY)
    requires forall j :: k < j < |sections| ==> !InRange(sections[j], scrollY)
    requires i < |hrefs| && hrefs[i] == Target(sections[k].id)
    requires forall a, b :: 0 <= a < b < |hrefs| ==> hrefs[a] != hrefs[b]
    ensures forall j :: 0 <= j < |hrefs| && LinkStates(hrefs, sections, scrollY)[j] ==> j == i
  {
    LastMatchWins(sections, scrollY, k);
    var states := LinkStates(hrefs, sections, scrollY);
    forall j | 0 <= j < |hrefs| && states[j] ensures j == i {
      assert hrefs[j] == hrefs[i];
    }
  }

  /** With no section in range, only a link whose href is exactly "#" is active. */
  lemma LinksWhenNoMatch(hrefs: seq<string>, sections: seq<Section>, scrollY: int)
    requires forall j :: 0 <= j < |sections| ==> !InRange(sections[j], scrollY)
    ensures forall i :: 0 <= i < |hrefs| ==> (LinkStates(hrefs, sections, scrollY)[i] <==> hrefs[i] == "#")
  {
    NoMatchIsEmpty(sections, scrollY);
    assert Target(Some("")) == "#";
  }

  /** The navigation links and their `active` classes. */
  class NavMenu {
    /** The links' href attributes, in document order. */
    const hrefs: seq<string>
    /** Whether each link carries the `active` class. */
    const active: array<bool>

    ghost predicate Valid()
      reads this
    {
      active.Length == |hrefs|
    }

    constructor (hrefs: seq<string>)
      ensures Valid() && this.hrefs == hrefs && fresh(active)
      ensures forall i :: 0 <= i < active.Length ==> !active[i]
    {
      this.hrefs := hrefs;
      active := new bool[|hrefs|](i => false);
    }

    /** `highlightNavLink()`: finds the current section, then removes the
        `active` class from every link and adds it back to the links whose
        href is `#` followed by that section's id. The new classes depend only
        on the scroll offset and the geometry, so running it again on the same
        inputs changes nothing. */
    method HighlightNavLink(sections: seq<Section>, scrollY: int)
      requires Valid()
      modifies active
      ensures active[..] == LinkStates(hrefs, sections, scrollY)
    {
      var current := CurrentSection(sections, scrollY);
      for i := 0 to active.Length
        invariant forall j :: 0 <= j < i ==> (active[j] <==> hrefs[j] == Target(current))
      {
        active[i] := false;
        if hrefs[i] == Target(current) {
          active[i] := true;
        }
      }
    }
  }

  /** The navbar's inline background and box shadow. */
  datatype NavbarStyle = NavbarStyle(background: string, boxShadow: string)

  const NavbarScrollThreshold := 100
  const RaisedNavbar := NavbarStyle("rgba(26, 35, 126, 0.98)", "0 2px 20px rgba(0, 0, 0, 0.1)")
  const FlatNavbar := NavbarStyle("rgba(26, 35, 126, 0.95)", "none")

  /** The navbar style the scroll listener writes for `scrollY`. */
  function NavbarStyleAt(scrollY: int): NavbarStyle
  {
    if scrollY > NavbarScrollThreshold then RaisedNavbar else FlatNavbar
  }

  /** The scroll-to-top button's inline opacity and visibility. */
  datatype ButtonStyle = ButtonStyle(opacity: string, visibility: string)

  const ScrollTopThreshold := 300
  const ShownButton := ButtonStyle("1", "visible")
  const HiddenButton := ButtonStyle("0", "hidden")

  /** The button style the scroll listener writes for `pageYOffset`. */
  function ScrollTopButtonAt(pageYOffset: int): ButtonStyle
  {
    if pageYOffset > ScrollTopThreshold then ShownButton else HiddenButton
  }

  /** Both styles switch on once, at their thresholds (strictly above 100 and
      300), stay on further down, and the button never shows over a flat navbar. */
  lemma ScrollThresholds(y: int, z: int)
    ensures NavbarStyleAt(y) == RaisedNavbar <==> y > 100
    ensures ScrollTopButtonAt(y) == ShownButton <==> y > 300
    ensures y <= z && NavbarStyleAt(y) == RaisedNavbar ==> NavbarStyleAt(z) == RaisedNavbar
    ensures y <= z && ScrollTopButtonAt(y) == ShownButton ==> ScrollTopButtonAt(z) == ShownButton
    ensures ScrollTopButtonAt(y) == ShownButton ==> NavbarStyleAt(y) == RaisedNavbar
  {
  }
}
