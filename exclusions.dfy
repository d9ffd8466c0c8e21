/** The exclusion-selector builder: from the settings' flags and custom text
    to the ordered list of selectors whose matches are pruned before
    conversion. */
module Exclusions {
  import opened Text
  import opened Settings

  /** The hard-coded selector groups, one per `exclude…` flag. */
  datatype Group = Nav | Footer | Sidebar | Ads | Comments | Forms | Scripts

  /** The order in which the groups are appended. */
  const GroupOrder: seq<Group> := [Nav, Footer, Sidebar, Ads, Comments, Forms, Scripts]

  /** The hard-coded list of each group: seven navigation selectors, four
      footer, five sidebar, twelve advertising, seven comment, five form and
      four script selectors, none of them empty. */
  function GroupSelectors(g: Group): (selectors: seq<string>)
    ensures |selectors| == match g
      case Nav => 7 case Footer => 4 case Sidebar => 5 case Ads => 12
      case Comments => 7 case Forms => 5 case Scripts => 4
    ensures forall i | 0 <= i < |selectors| :: selectors[i] != ""
  {
    match g
    case Nav => ["nav", "header nav", "[role=\"navigation\"]", ".navigation", ".nav", "#nav", "#navigation"]
    case Footer => ["footer", "[role=\"contentinfo\"]", ".footer", "#footer"]
    case Sidebar => ["aside", "[role=\"complementary\"]", ".sidebar", "#sidebar", ".side-bar"]
    case Ads => [
      "[class*=\"ad-\"]", "[class*=\"ads-\"]", "[class*=\"advertisement\"]",
      "[id*=\"ad-\"]", "[id*=\"ads-\"]", "[id*=\"advertisement\"]",
      ".ad", ".ads", ".advert", ".banner-ad", "[data-ad]",
      "ins.adsbygoogle"]
    case Comments => [
      "#comments", ".comments", ".comment-section", "[id*=\"comment\"]",
      "#disqus_thread", ".disqus", "[class*=\"comment\"]"]
    case Forms => ["form", "input", "button", "select", "textarea"]
    case Scripts => ["script", "style", "noscript", "link[rel=\"stylesheet\"]"]
  }

  /** The flag that switches group `g` on. */
  function GroupEnabled(f: Flags, g: Group): bool {
    match g
    case Nav => f.excludeNav
    case Footer => f.excludeFooter
    case Sidebar => f.excludeSidebar
    case Ads => f.excludeAds
    case Comments => f.excludeComments
    case Forms => f.excludeForms
    case Scripts => f.excludeScripts
  }

  /** What group `g` contributes, given the table `groups` of selector
      lists: its selectors when its flag is on, nothing otherwise. */
  function Contribution(f: Flags, groups: Group -> seq<string>, g: Group): seq<string> {
    if GroupEnabled(f, g) then groups(g) else []
  }

  /** The contributions of the groups `gs`, group after group. */
  function EnabledSelectors(f: Flags, groups: Group -> seq<string>, gs: seq<Group>): seq<string> {
    if gs == [] then []
    else EnabledSelectors(f, groups, gs[..|gs| - 1]) + Contribution(f, groups, gs[|gs| - 1])
  }

  lemma {:induction false} EnabledSelectorsAppend(f: Flags, groups: Group -> seq<string>, a: seq<Group>, b: seq<Group>)
    ensures EnabledSelectors(f, groups, a + b) == EnabledSelectors(f, groups, a) + EnabledSelectors(f, groups, b)
  {
    if b == [] {
      assert a + b == a;
    } else {
      assert (a + b)[..|a + b| - 1] == a + b[..|b| - 1];
      EnabledSelectorsAppend(f, groups, a, b[..|b| - 1]);
    }
  }

  /** The lines kept as custom selectors: each one trimmed, blank ones dropped. */
  function NonBlankTrimmed(lines: seq<string>): (r: seq<string>)
    ensures forall i | 0 <= i < |r| :: r[i] != "" && IsTrimmed(r[i])
    ensures |r| <= |lines|
  {
    if lines == [] then []
    else (if Trim(lines[0]) == "" then [] else [Trim(lines[0])]) + NonBlankTrimmed(lines[1..])
  }

  lemma {:induction false} NonBlankTrimmedAppend(a: seq<string>, b: seq<string>)
    ensures NonBlankTrimmed(a + b) == NonBlankTrimmed(a) + NonBlankTrimmed(b)
  {
    if a == [] {
      assert a + b == b;
    } else {
      assert (a + b)[1..] == a[1..] + b;
      NonBlankTrimmedAppend(a[1..], b);
    }
  }

  /** The custom exclusions: the lines of `text`, trimmed, blank ones dropped.
      None is empty, none has white space at either end, none spans a line. */
  function CustomSelectors(text: string): (r: seq<string>)
    ensures forall i | 0 <= i < |r| :: r[i] != "" && IsTrimmed(r[i])
  {
    NonBlankTrimmed(SplitLines(text))
  }

  /** Custom selectors keep the order of the lines: the selectors of two
      blocks of text joined by a newline are those of the first block
      followed by those of the second. */
  lemma CustomSelectorsAt(a: string, b: string)
    ensures CustomSelectors(a + "\n" + b) == CustomSelectors(a) + CustomSelectors(b)
  {
    SplitLinesAt(a, b);
    NonBlankTrimmedAppend(SplitLines(a), SplitLines(b));
  }

  /** One line yields its trimmed self, or nothing when it is blank. */
  lemma CustomSelectorsOfLine(line: string)
    requires '\n' !in line
    ensures CustomSelectors(line) == if Trim(line) == "" then [] else [Trim(line)]
  {
    SplitLinesSingle(line);
  }

  /** The custom part: consulted only when the custom text is not empty. */
  function CustomPart(text: string): seq<string> {
    if text != "" then CustomSelectors(text) else []
  }

  /** `getExclusionSelectors` as a specification, for the selector table
      `groups`: the groups' contributions in their fixed order, then the
      custom selectors. */
  function SelectorsFor(s: ExtensionSettings, groups: Group -> seq<string>): seq<string> {
    EnabledSelectors(s.flags, groups, GroupOrder) + CustomPart(s.customExclusions)
  }

  /** The selectors the extension prunes with: those of its own table. */
  function ExclusionSelectors(s: ExtensionSettings): seq<string> {
    SelectorsFor(s, GroupSelectors)
  }

  /** `getExclusionSelectors`: push each enabled group in turn, then the
      custom selectors. The hard-coded lists come in as `groups` (the
      extension passes `GroupSelectors`); the result is proved for any table. */
  method GetExclusionSelectors(s: ExtensionSettings, groups: Group -> seq<string>) returns (selectors: seq<string>)
    ensures selectors == SelectorsFor(s, groups)
  {
    var f := s.flags;
    ghost var c1, c2, c3, c4 := Contribution(f, groups, Nav), Contribution(f, groups, Footer),
      Contribution(f, groups, Sidebar), Contribution(f, groups, Ads);
    ghost var c5, c6, c7 := Contribution(f, groups, Comments), Contribution(f, groups, Forms),
      Contribution(f, groups, Scripts);
    selectors := [];
    if f.excludeNav {
      selectors := selectors + groups(Nav);
    }
    assert selectors == c1;
    if f.excludeFooter {
      selectors := selectors + groups(Footer);
    }
    assert selectors == c1 + c2;
    if f.excludeSidebar {
      selectors := selectors + groups(Sidebar);
    }
    assert selectors == c1 + c2 + c3;
    if f.excludeAds {
      selectors := selectors + groups(Ads);
    }
    assert selectors == c1 + c2 + c3 + c4;
    if f.excludeComments {
      selectors := selectors + groups(Comments);
    }
    assert selectors == c1 + c2 + c3 + c4 + c5;
    if f.excludeForms {
      selectors := selectors + groups(Forms);
    }
    assert selectors == c1 + c2 + c3 + c4 + c5 + c6;
    if f.excludeScripts {
      selectors := selectors + groups(Scripts);
    }
    assert selectors == c1 + c2 + c3 + c4 + c5 + c6 + c7;
    EnabledSelectorsOfOrder(f, groups);
    if s.customExclusions != "" {
      selectors := selectors + CustomSelectors(s.customExclusions);
    }
  }

  /** Unfolding the last group of the table. */
  lemma EnabledSelectorsSnoc(f: Flags, groups: Group -> seq<string>, gs: seq<Group>, g: Group)
    ensures EnabledSelectors(f, groups, gs + [g]) == EnabledSelectors(f, groups, gs) + Contribution(f, groups, g)
  {
    assert (gs + [g])[..|gs|] == gs;
  }

  /** The group table unfolded in its fixed order. */
  lemma EnabledSelectorsOfOrder(f: Flags, groups: Group -> seq<string>)
    ensures EnabledSelectors(f, groups, GroupOrder) ==
      Contribution(f, groups, Nav) + Contribution(f, groups, Footer) + Contribution(f, groups, Sidebar)
      + Contribution(f, groups, Ads) + Contribution(f, groups, Comments) + Contribution(f, groups, Forms)
      + Contribution(f, groups, Scripts)
  {
    var g1 := [Nav];
    var g2 := g1 + [Footer];
    var g3 := g2 + [Sidebar];
    var g4 := g3 + [Ads];
    var g5 := g4 + [Comments];
    var g6 := g5 + [Forms];
    var g7 := g6 + [Scripts];
    assert g7 == GroupOrder;
    EnabledSelectorsSnoc(f, groups, [], Nav);
    assert [] + [Nav] == g1;
    EnabledSelectorsSnoc(f, groups, g1, Footer);
    EnabledSelectorsSnoc(f, groups, g2, Sidebar);
    EnabledSelectorsSnoc(f, groups, g3, Ads);
    EnabledSelectorsSnoc(f, groups, g4, Comments);
    EnabledSelectorsSnoc(f, groups, g5, Forms);
    EnabledSelectorsSnoc(f, groups, g6, Scripts);
  }

  /** Each group sits at its fixed place: the selectors are those of the
      groups before it, then this group's list exactly when its flag is on
      (nothing otherwise), then those of the groups after it, and the custom
      selectors last. */
  lemma GroupInPlace(s: ExtensionSettings, groups: Group -> seq<string>, k: nat)
    requires k < |GroupOrder|
    ensures SelectorsFor(s, groups) ==
      EnabledSelectors(s.flags, groups, GroupOrder[..k])
      + (if GroupEnabled(s.flags, GroupOrder[k]) then groups(GroupOrder[k]) else [])
      + EnabledSelectors(s.flags, groups, GroupOrder[k + 1..])
      + CustomPart(s.customExclusions)
  {
    var f := s.flags;
    assert GroupOrder == GroupOrder[..k] + [GroupOrder[k]] + GroupOrder[k + 1..];
    EnabledSelectorsAppend(f, groups, GroupOrder[..k] + [GroupOrder[k]], GroupOrder[k + 1..]);
    EnabledSelectorsSnoc(f, groups, GroupOrder[..k], GroupOrder[k]);
  }

  /** With every exclusion flag off and a custom text made only of blank
      lines, nothing is pruned. */
  lemma NothingExcluded(s: ExtensionSettings, groups: Group -> seq<string>)
    requires !s.flags.excludeNav && !s.flags.excludeFooter && !s.flags.excludeSidebar
    requires !s.flags.excludeAds && !s.flags.excludeComments && !s.flags.excludeForms
    requires !s.flags.excludeScripts
    requires forall i | 0 <= i < |s.customExclusions| :: IsSpace(s.customExclusions[i])
    ensures SelectorsFor(s, groups) == []
  {
    EnabledSelectorsOfOrder(s.flags, groups);
    BlankTextNoSelectors(s.customExclusions);
  }

  /** A text made only of white space has no custom selectors. */
  lemma {:induction false} BlankTextNoSelectors(text: string)
    requires forall i | 0 <= i < |text| :: IsSpace(text[i])
    ensures CustomSelectors(text) == []
  {
    if text == [] {
    } else if text[0] == '\n' {
      BlankTextNoSelectors(text[1..]);
      assert text == "" + "\n" + text[1..];
      CustomSelectorsAt("", text[1..]);
      CustomSelectorsOfLine("");
    } else {
      var k := |text|;
      if '\n' in text {
        var i :| 0 <= i < |text| && text[i] == '\n';
        assert text == text[..i] + "\n" + text[i + 1..];
        BlankTextNoSelectors(text[..i]);
        BlankTextNoSelectors(text[i + 1..]);
        CustomSelectorsAt(text[..i], text[i + 1..]);
      } else {
        CustomSelectorsOfLine(text);
      }
    }
  }
}
