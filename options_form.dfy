/**
 * The options page: its site-rule list (rows of two text inputs), the
 * twelve checkboxes and the custom-exclusions text area, the copy of the
 * settings into the form and back, and the collection of the site rules the
 * rows describe.
 *
 * The page is a class whose fields are the form's state; the rule list is
 * the sequence of rows in the container, in document order. Encoding the
 * rule list as text and decoding it are parameters.
 */
module OptionsForm {
  import opened Wrappers
  import opened Text
  import opened Settings

  datatype SiteRule = SiteRule(domain: string, contentSelector: string)

  /** `EMPTY_SITE_RULE`, what a freshly added row starts from. */
  const EmptySiteRule: SiteRule := SiteRule("", "")

  /** One row of the rule list: the current values of its domain and
      selector inputs. */
  datatype RuleRow = RuleRow(domainInput: string, selectorInput: string)

  /** `createSiteRuleRow(rule)`: the inputs start with the rule's fields. */
  function RowFor(rule: SiteRule): (row: RuleRow)
    ensures WellFormedRule(rule) ==> RowRule(row) == [rule]
    ensures rule == EmptySiteRule ==> RowRule(row) == []
  {
    assert WellFormedRule(rule) ==> Trim(rule.domain) == rule.domain && Trim(rule.contentSelector) == rule.contentSelector by {
      if WellFormedRule(rule) {
        TrimTrimmed(rule.domain);
        TrimTrimmed(rule.contentSelector);
      }
    }
    RuleRow(rule.domain, rule.contentSelector)
  }

  function RowsFor(rules: seq<SiteRule>): seq<RuleRow> {
    seq(|rules|, i requires 0 <= i < |rules| => RowFor(rules[i]))
  }

  /** What one row contributes: its trimmed values, when neither is empty. */
  function RowRule(row: RuleRow): (rules: seq<SiteRule>)
    ensures |rules| <= 1
    ensures rules != [] ==> WellFormedRule(rules[0])
  {
    var domain := Trim(row.domainInput);
    var selector := Trim(row.selectorInput);
    if domain != [] && selector != [] then [SiteRule(domain, selector)] else []
  }

  /** A rule as the form hands it over: both fields non-empty and trimmed. */
  predicate WellFormedRule(rule: SiteRule) {
    rule.domain != [] && rule.contentSelector != []
    && IsTrimmed(rule.domain) && IsTrimmed(rule.contentSelector)
  }

  /** The rules the rows describe, row after row. */
  function CollectRules(rows: seq<RuleRow>): (rules: seq<SiteRule>)
    ensures |rules| <= |rows|
  {
    if rows == [] then []
    else CollectRules(rows[..|rows| - 1]) + RowRule(rows[|rows| - 1])
  }

  /** Every collected rule has a non-empty, trimmed domain and selector. */
  lemma {:induction false} CollectedWellFormed(rows: seq<RuleRow>)
    ensures forall i | 0 <= i < |CollectRules(rows)| :: WellFormedRule(CollectRules(rows)[i])
    decreases |rows|
  {
    if rows != [] {
      CollectedWellFormed(rows[..|rows| - 1]);
    }
  }

  lemma {:induction false} CollectRulesAppend(a: seq<RuleRow>, b: seq<RuleRow>)
    ensures CollectRules(a + b) == CollectRules(a) + CollectRules(b)
    decreases |b|
  {
    if b == [] {
      assert a + b == a;
    } else {
      var init := b[..|b| - 1];
      var last := b[|b| - 1];
      assert (a + b)[..|a + b| - 1] == a + init;
      assert (a + b)[|a + b| - 1] == last;
      CollectRulesAppend(a, init);
      var x, y, z := CollectRules(a), CollectRules(init), RowRule(last);
      assert CollectRules(a + b) == x + y + z;
      assert CollectRules(b) == y + z;
      Associate(x, y, z);
    }
  }

  lemma Associate(x: seq<SiteRule>, y: seq<SiteRule>, z: seq<SiteRule>)
    ensures x + y + z == x + (y + z)
  {
  }

  lemma CollectRulesSingle(row: RuleRow)
    ensures CollectRules([row]) == RowRule(row)
  {
    assert [row][..0] == [];
  }

  /** A fresh row adds no rule until something is typed into it. */
  lemma EmptyRowAddsNothing(rows: seq<RuleRow>)
    ensures CollectRules(rows + [RowFor(EmptySiteRule)]) == CollectRules(rows)
  {
    assert (rows + [RowFor(EmptySiteRule)])[..|rows|] == rows;
  }

  /** Each row counts once, in row order: the rules of the rows before
      row `i`, then what row `i` gives, then the rules of the rows after it. */
  lemma {:induction false} CollectRulesSplit(rows: seq<RuleRow>, i: nat)
    requires i < |rows|
    ensures CollectRules(rows) == CollectRules(rows[..i]) + RowRule(rows[i]) + CollectRules(rows[i + 1..])
  {
    var before, after := rows[..i], rows[i + 1..];
    assert rows == (before + [rows[i]]) + after;
    CollectRulesAppend(before + [rows[i]], after);
    CollectRulesAppend(before, [rows[i]]);
    CollectRulesSingle(rows[i]);
  }

  /** A row is dropped exactly when its trimmed domain or trimmed selector
      is empty, and otherwise gives its trimmed values. */
  lemma RowRuleKept(row: RuleRow)
    ensures RowRule(row) != [] <==>
      (exists i | 0 <= i < |row.domainInput| :: !IsSpace(row.domainInput[i]))
      && (exists i | 0 <= i < |row.selectorInput| :: !IsSpace(row.selectorInput[i]))
    ensures RowRule(row) != [] ==>
      RowRule(row) == [SiteRule(Trim(row.domainInput), Trim(row.selectorInput))]
  {
  }

  lemma LastSplit<T>(s: seq<T>)
    requires s != []
    ensures s[..|s| - 1] + [s[|s| - 1]] == s
  {
  }

  lemma RowsForSnoc(rules: seq<SiteRule>, rule: SiteRule)
    ensures RowsFor(rules + [rule]) == RowsFor(rules) + [RowFor(rule)]
  {
    var rows, expected := RowsFor(rules + [rule]), RowsFor(rules) + [RowFor(rule)];
    assert |rows| == |expected|;
    forall i | 0 <= i < |rows|
      ensures rows[i] == expected[i]
    {
      if i < |rules| {
        assert (rules + [rule])[i] == rules[i];
      }
    }
  }

  /** Rules written into rows and collected again come back unchanged when
      they are well formed. */
  lemma {:induction false} CollectRowsFor(rules: seq<SiteRule>)
    requires forall i | 0 <= i < |rules| :: WellFormedRule(rules[i])
    ensures CollectRules(RowsFor(rules)) == rules
    decreases |rules|
  {
    if rules != [] {
      var init := rules[..|rules| - 1];
      var last := rules[|rules| - 1];
      var rows := RowsFor(rules);
      CollectRowsFor(init);
      RowsForSnoc(init, last);
      LastSplit(rules);
      assert rows[..|rows| - 1] == RowsFor(init) && rows[|rows| - 1] == RowFor(last);
      assert CollectRules(rows) == init + [last];
    }
  }

  /** The options page. */
  class OptionsPage {
    /** The rows of the site-rule container, in document order. */
    var rows: seq<RuleRow>
    /** The twelve checkboxes. */
    var checks: Flags
    /** The custom-exclusions text area. */
    var customExclusionsText: string

    /** A page before `init` has loaded any settings into it. */
    constructor (initialChecks: Flags)
      ensures rows == [] && checks == initialChecks && customExclusionsText == ""
    {
      rows := [];
      checks := initialChecks;
      customExclusionsText := "";
    }

    /** The add-rule button: a new row built from `EMPTY_SITE_RULE` goes at
        the end of the list. */
    method AddSiteRuleRow()
      modifies this
      ensures rows == old(rows) + [RowFor(EmptySiteRule)]
      ensures checks == old(checks) && customExclusionsText == old(customExclusionsText)
      ensures CollectRules(rows) == CollectRules(old(rows))
    {
      rows := rows + [RowFor(EmptySiteRule)];
      EmptyRowAddsNothing(old(rows));
    }

    /** A row's remove button: only that row goes, the others keep their
        order. */
    method RemoveRow(i: nat)
      requires i < |rows|
      modifies this
      ensures rows == old(rows[..i]) + old(rows[i + 1..])
      ensures checks == old(checks) && customExclusionsText == old(customExclusionsText)
      ensures CollectRules(rows) == CollectRules(old(rows[..i])) + CollectRules(old(rows[i + 1..]))
    {
      rows := rows[..i] + rows[i + 1..];
      CollectRulesAppend(old(rows[..i]), old(rows[i + 1..]));
    }

    /** `getSiteRulesFromForm`. */
    method GetSiteRulesFromForm() returns (rules: seq<SiteRule>)
      ensures rules == CollectRules(rows)
    {
      rules := [];
      var i := 0;
      while i < |rows|
        invariant 0 <= i <= |rows|
        invariant rules == CollectRules(rows[..i])
      {
        var row := rows[i];
        assert rows[..i + 1][..i] == rows[..i] && rows[..i + 1][i] == row;
        assert CollectRules(rows[..i + 1]) == CollectRules(rows[..i]) + RowRule(row);
        var domain := Trim(row.domainInput);
        var contentSelector := Trim(row.selectorInput);
        if domain != [] && contentSelector != [] {
          rules := rules + [SiteRule(domain, contentSelector)];
        }
        i := i + 1;
      }
      assert rows[..i] == rows;
    }

    /** `loadSiteRulesIntoForm`, with the decoded rules: the container is
        emptied and one row per rule is appended. */
    method LoadSiteRulesIntoForm(rules: seq<SiteRule>)
      modifies this
      ensures rows == RowsFor(rules)
      ensures checks == old(checks) && customExclusionsText == old(customExclusionsText)
    {
      rows := [];
      var i := 0;
      while i < |rules|
        invariant 0 <= i <= |rules|
        invariant rows == RowsFor(rules[..i])
        invariant checks == old(checks) && customExclusionsText == old(customExclusionsText)
      {
        rows := rows + [RowFor(rules[i])];
        i := i + 1;
      }
      assert rules[..i] == rules;
    }

    /** `loadSettingsIntoForm`: every checkbox and the text area take the
        settings' values, and the rule list is rebuilt from the decoded
        `siteRules`. */
    method LoadSettingsIntoForm(settings: ExtensionSettings, parseSiteRules: Option<string> -> seq<SiteRule>)
      modifies this
      ensures checks == settings.flags
      ensures customExclusionsText == settings.customExclusions
      ensures rows == RowsFor(parseSiteRules(settings.siteRules))
    {
      checks := settings.flags;
      customExclusionsText := settings.customExclusions;
      LoadSiteRulesIntoForm(parseSiteRules(settings.siteRules));
    }

    /** `getSettingsFromForm`: the checkboxes, the text area, and the
        collected rules encoded as text. */
    method GetSettingsFromForm(stringifySiteRules: seq<SiteRule> -> string) returns (settings: ExtensionSettings)
      ensures settings.flags == checks
      ensures settings.customExclusions == customExclusionsText
      ensures settings.siteRules == Some(stringifySiteRules(CollectRules(rows)))
    {
      var siteRules := GetSiteRulesFromForm();
      settings := ExtensionSettings(checks, customExclusionsText, Some(stringifySiteRules(siteRules)));
    }
  }

  /** Loading settings into the form and reading the form back gives the
      same twelve flags and the same custom exclusions; the site rules come
      back as the encoding of the well-formed rules decoded from them. */
  method LoadThenRead(
    page: OptionsPage, settings: ExtensionSettings,
    parseSiteRules: Option<string> -> seq<SiteRule>, stringifySiteRules: seq<SiteRule> -> string)
    returns (back: ExtensionSettings)
    modifies page
    ensures back.flags == settings.flags
    ensures back.customExclusions == settings.customExclusions
    ensures back.siteRules == Some(stringifySiteRules(CollectRules(RowsFor(parseSiteRules(settings.siteRules)))))
  {
    page.LoadSettingsIntoForm(settings, parseSiteRules);
    back := page.GetSettingsFromForm(stringifySiteRules);
  }
}
