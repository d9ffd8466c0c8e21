# Content to Markdown — a verified model of the conversion core

This project models the core of a browser extension that turns a web page,
or the part of it the user selected, into Markdown. It covers:

- the stored settings and how they are validated (`isValidSettings`, `getSettings`);
- the list of CSS selectors whose elements are cut out before conversion
  (`getExclusionSelectors`), and the pruning of a cloned element with them
  (`prepareContent`);
- the custom Turndown rules: images dropped, links reduced to their text,
  tables rendered as pipe tables with escaped cells;
- `convertToMarkdown`'s branching and its newline clean-up;
- the title/source header (`formatMarkdownOutput`) and the main-content
  locator (`getMainContent`);
- the popup's download file name (`generateFilename`);
- the options page's site-rule list and its copy of the settings into the
  form and back.

Modules, one per file:

| file | module | what it holds |
|---|---|---|
| `wrappers.dfy` | `Wrappers` | `Option` |
| `text.dfy` | `Text` | the white-space class of `trim` and `\s`, `trim`, `split('\n')`, `join` |
| `settings.dfy` | `Settings` | storage objects, the typed settings, the defaults, the validator, `getSettings` |
| `exclusions.dfy` | `Exclusions` | the seven selector groups, custom exclusions, `getExclusionSelectors` |
| `pruning.dfy` | `Pruning` | element trees, pruning by one selector and by a list of them, `prepareContent` |
| `turndown_rules.dfy` | `TurndownRules` | which rules are registered, what they produce, the table renderer |
| `converter.dfy` | `Converter` | newline clean-up, `convertToMarkdown`, `formatMarkdownOutput`, `getMainContent` |
| `filename.dfy` | `Filename` | `generateFilename` |
| `options_form.dfy` | `OptionsForm` | site rules, the `OptionsPage` class (rows, checkboxes, text area) |

The code that changes state is written as methods proved against functions:

- `GetExclusionSelectors` pushes group after group.
- `PrepareContent` prunes selector after selector.
- `RenderTable` appends line after line.
- `FormatMarkdownOutput` appends the header parts.
- `GetMainContent` returns early from its loop.
- The options page is a class whose methods change its rows, checkboxes and text.

Each of these methods is tied by its `ensures` to a specification function.
For pruning, `Pruning.PruneSplit` shows that a pass removes exactly the
subtrees of the matched elements, and `Pruning.PruneSubsequence` that the
kept nodes stay in document order.
The properties are proved as lemmas about those functions.

Foreign code appears as function parameters. Turndown's conversion, the
serialisation `innerHTML`, the compilation of a selector (with `None` for a
selector `querySelectorAll` rejects), `document.querySelector`, and the
site-rule text encoding are all parameters. The page title and URL are
parameters too, and so are the settings, which the source reads from
storage.

## Model

| member | source | states |
|---|---|---|
| `Text.Trim` | src/utils/converter.ts:112 | the result is the slice of the input between its leading and trailing white space, has white space at neither end, and is empty exactly when the input is all white space |
| `Text.TrimTrimmed` | src/utils/converter.ts:112 | trimming a string with no white space at either end changes nothing |
| `Text.SplitLines` | src/utils/converter.ts:111 | `split('\n')` gives at least one piece and no piece holds a newline |
| `Text.SplitLinesAt` | src/utils/converter.ts:111 | splitting `a + "\n" + b` gives the pieces of `a` followed by those of `b` |
| `Text.JoinSplitLines` | src/utils/converter.ts:111 | joining the pieces of a split with newlines gives back the string |
| `Text.SplitJoinLines` | src/utils/converter.ts:111 | splitting newline-free pieces joined with newlines gives back the pieces |
| `Text.Join` | src/utils/converter.ts:52 | `join` gives the empty string for no parts; otherwise it starts with the first part, and its length is the parts' lengths plus one separator between each two neighbours |
| `Text.JoinSingle` | src/utils/converter.ts:52 | one part is joined as itself, with no separator |
| `Text.JoinAppend` | src/utils/converter.ts:52 | joining two non-empty lists one after the other puts exactly one separator between their joins, so every part appears once, in order, one separator apart |
| `Settings.AllBooleansMeansEvery` | src/utils/settings.ts:50-54 | the early-return loop over the keys succeeds exactly when every key holds a boolean |
| `Settings.IsValidSettings` | src/utils/settings.ts:43-61 | the validator as written: the early-return loop over the twelve flag keys, then the `customExclusions` check (its meaning is stated by `Settings.ValidMeans`) |
| `Settings.ValidMeans` | src/utils/settings.ts:43-61 | an object is valid exactly when all twelve flag keys hold booleans and `customExclusions` holds a string |
| `Settings.OneBadFlagInvalidates` | src/utils/settings.ts:50-54 | one missing or non-boolean flag makes the object invalid |
| `Settings.OtherKeysIgnored` | src/utils/settings.ts:44-60 | two objects that agree on the thirteen checked keys are both valid or both invalid, whatever else (such as `siteRules`) they hold |
| `Settings.ValidHolds` | src/utils/settings.ts:43-61 | a valid object holds a boolean under each of the twelve flags and a string under `customExclusions` |
| `Settings.DefaultSettings` | src/utils/settings.ts:26-40 | the defaults: all seven exclude flags and all five output flags on, no custom exclusions, no site rules |
| `Settings.ToRecordValid` | src/utils/settings.ts:26-40 | every typed settings value, the defaults among them, is stored as an object that passes the validator |
| `Settings.RecordRoundTrip` | src/utils/settings.ts:2-24 | a typed settings value stored as an object reads back as itself |
| `Settings.GetSettings` | src/utils/settings.ts:63-75 | the result is always valid; a valid object is returned unchanged; otherwise the result is the defaults' object, whose typed reading is field for field `defaultSettings` |
| `Exclusions.GroupSelectors` | src/utils/converter.ts:72-106 | the hard-coded groups hold 7 navigation, 4 footer, 5 sidebar, 12 advertising, 7 comment, 5 form and 4 script selectors, none empty |
| `Exclusions.EnabledSelectorsAppend` | src/utils/converter.ts:72-106 | the groups' contributions over two lists of groups are those of the first list followed by those of the second |
| `Exclusions.EnabledSelectorsOfOrder` | src/utils/converter.ts:72-106 | the group selectors are nav, footer, sidebar, ads, comments, forms, scripts, in that order, each present only when its flag is on |
| `Exclusions.NonBlankTrimmed` | src/utils/converter.ts:112-113 | each kept line is non-empty and trimmed, and there are no more of them than lines |
| `Exclusions.NonBlankTrimmedAppend` | src/utils/converter.ts:112-113 | trimming and dropping blank lines works line by line, keeping order |
| `Exclusions.CustomSelectors` | src/utils/converter.ts:110-113 | every custom selector is non-empty and trimmed |
| `Exclusions.CustomSelectorsAt` | src/utils/converter.ts:110-113 | the custom selectors of `a + "\n" + b` are those of `a` followed by those of `b` |
| `Exclusions.CustomSelectorsOfLine` | src/utils/converter.ts:110-113 | a single line gives its trimmed text, or nothing when it is blank |
| `Exclusions.GetExclusionSelectors` | src/utils/converter.ts:69-118 | the pushed list equals the specification: enabled groups in their fixed order, then the custom selectors when the text is non-empty |
| `Exclusions.GroupInPlace` | src/utils/converter.ts:72-115 | for each group, the selectors are the earlier groups, then this group's whole list exactly when its flag is on, then the later groups, then the custom selectors |
| `Exclusions.NothingExcluded` | src/utils/converter.ts:69-118 | with every exclude flag off and blank custom text, there are no selectors |
| `Exclusions.BlankTextNoSelectors` | src/utils/converter.ts:109-115 | custom text made only of white space gives no selectors |
| `Pruning.Prune` | src/utils/converter.ts:129-130 | one `querySelectorAll` plus `remove()` pass keeps the root: an element stays an element with the same tag and attributes, and text stays as it is |
| `Pruning.PruneChildren` | src/utils/converter.ts:129-130 | among the siblings that remain, none is an element the selector matches, and there are no more of them than before |
| `Pruning.PruneAll` | src/utils/converter.ts:127-134 | applying the selectors in turn, skipping those that throw, never removes the root or changes its tag and attributes |
| `Pruning.PrepareContent` | src/utils/converter.ts:121-137 | the loop's result is the clone pruned by every exclusion selector in turn, with invalid selectors skipped; the root is kept; the input tree is a value and is not changed |
| `Pruning.PruneClears` | src/utils/converter.ts:129-130 | after pruning by a selector, no descendant matches it |
| `Pruning.PruneChildrenClears` | src/utils/converter.ts:129-130 | after pruning a child list by a selector, no element in it or below it matches the selector |
| `Pruning.PruneKeepsClear` | src/utils/converter.ts:127-134 | pruning by another selector does not bring back an element an earlier selector removed |
| `Pruning.PruneChildrenKeepsClear` | src/utils/converter.ts:127-134 | the same for a child list |
| `Pruning.PruneAllClears` | src/utils/converter.ts:127-134 | after the whole list, no descendant matches any valid selector of the list |
| `Pruning.PruneClearUnchanged` | src/utils/converter.ts:129-130 | a tree with no matching descendant is left as it is |
| `Pruning.PruneChildrenClearUnchanged` | src/utils/converter.ts:129-130 | the same for a child list |
| `Pruning.PruneIdempotent` | src/utils/converter.ts:129-130 | pruning twice by the same selector is pruning once |
| `Pruning.PruneAllAppend` | src/utils/converter.ts:127-134 | pruning by `a + b` is pruning by `a`, then by `b` |
| `Pruning.InvalidSelectorSkipped` | src/utils/converter.ts:128-133 | a selector that throws is skipped and the selectors after it still apply |
| `Pruning.PruneSubsequence` | src/utils/converter.ts:129-130 | pruning only removes: the pruned tree's nodes, in document order, are a subsequence of the original's |
| `Pruning.PruneChildrenSubsequence` | src/utils/converter.ts:129-130 | the same for a child list |
| `Pruning.PruneAllSubsequence` | src/utils/converter.ts:122-134 | the same for the whole selector list |
| `Pruning.CutChildren` | src/utils/converter.ts:129-130 | every subtree a pass cuts out of a sibling list is rooted at an element the selector matches |
| `Pruning.Cut` | src/utils/converter.ts:129-130 | every subtree a pass cuts out below a node is rooted at an element the selector matches |
| `Pruning.PruneSplit` | src/utils/converter.ts:129-130 | a pass removes exactly the cut subtrees: the nodes of the tree are the nodes of the pruned tree together with those of the cut subtrees, so every node outside a matched subtree survives |
| `Pruning.PruneChildrenSplit` | src/utils/converter.ts:129-130 | the same for a sibling list |
| `TurndownRules.RegisteredRules` | src/utils/converter.ts:16-63 | the image rule is registered exactly when images are off, the link rule exactly when links are off, the table rule exactly when tables are kept, each at most once |
| `TurndownRules.ReplacementBySettings` | src/utils/converter.ts:16-63 | per flag: an image becomes empty text or goes to Turndown; an anchor becomes its text content or goes to Turndown; a table becomes the pipe table or goes to Turndown; other elements always go to Turndown |
| `TurndownRules.Replacement` | src/utils/converter.ts:16-31 | a custom rule claims a node exactly when it is an image, an anchor or a table whose rule is registered; the image rule gives empty text and the link rule the anchor's text content |
| `TurndownRules.EscapePipes` | src/utils/converter.ts:48 | every `\|` of the result is escaped, the result does not start with `\|`, and it holds a newline exactly when the input does |
| `TurndownRules.UnescapeEscape` | src/utils/converter.ts:48 | escaping can be undone: unescaping the escaped text gives back the input |
| `TurndownRules.FlattenNewlines` | src/utils/converter.ts:48 | every newline becomes a space and every other character stays in place, so the length is kept and no newline is left |
| `TurndownRules.CellText` | src/utils/converter.ts:48 | a cell's text has no newline, no white space at either end, and every `\|` in it escaped |
| `TurndownRules.FlattenKeepsEscapes` | src/utils/converter.ts:48 | turning newlines into spaces keeps every pipe escaped and leaves no newline |
| `TurndownRules.TrimKeepsEscapes` | src/utils/converter.ts:48 | trimming keeps every pipe escaped |
| `TurndownRules.CellTextOfPlain` | src/utils/converter.ts:48 | a trimmed text with no pipe and no newline is its own cell text |
| `TurndownRules.EscapeNoPipe` | src/utils/converter.ts:48 | text with no pipe is not changed by escaping |
| `TurndownRules.RowLine` | src/utils/converter.ts:52 | a row line holds no newline |
| `TurndownRules.SeparatorLine` | src/utils/converter.ts:56 | the separator line holds no newline |
| `TurndownRules.RenderTable` | src/utils/converter.ts:41-60 | the `+=` loop produces the specified table text |
| `TurndownRules.TableReplacement` | src/utils/converter.ts:37-61 | the table rule produces the specified table text, and it is empty exactly when the table has no rows |
| `TurndownRules.TableMarkdown` | src/utils/converter.ts:37-61 | the table text is empty exactly when there are no rows; otherwise it starts with two newlines and ends with one |
| `TurndownRules.RenderFirst` | src/utils/converter.ts:43-57 | the first row adds its line and then the one separator line |
| `TurndownRules.RenderNext` | src/utils/converter.ts:45-58 | each later row adds only its own line |
| `TurndownRules.EmittedLinesLayout` | src/utils/converter.ts:45-58 | the emitted lines are the first row's line, the separator sized by the first row, then the later rows' lines in order |
| `TurndownRules.EmittedLinesNoNewline` | src/utils/converter.ts:52-57 | no emitted line holds a newline |
| `TurndownRules.SplitFramed` | src/utils/converter.ts:43-60 | the frame `"\n\n"` … `"\n"` around newline-terminated lines splits into two empty lines, the lines, and two empty lines |
| `TurndownRules.TableTextLayout` | src/utils/converter.ts:41-60 | for any newline-free row and separator renderers, the text splits into two empty lines, the first row, the separator, the other rows in order, and two empty lines |
| `TurndownRules.TableLayout` | src/utils/converter.ts:41-60 | the same for the extension's own renderers: exactly one separator, right after the first row, with one `---` per cell of the first row |
| `Converter.CollapseNewlines` | src/utils/converter.ts:158 | the result has no run of three newlines and starts with the input's first character |
| `Converter.CollapseRun` | src/utils/converter.ts:158 | a run of three or more newlines becomes two; a run of one or two is kept |
| `Converter.CollapseAround` | src/utils/converter.ts:158 | runs are collapsed independently: a character other than a newline separates what happens to its left and right |
| `Converter.CollapseUnchanged` | src/utils/converter.ts:158 | text without a run of three newlines is left as it is, so runs of one or two interior newlines are kept |
| `Converter.CollapseIdempotent` | src/utils/converter.ts:158 | collapsing twice is collapsing once |
| `Converter.CollapseKeepsText` | src/utils/converter.ts:158 | collapsing changes only newlines: the other characters stay, in order |
| `Converter.Cleanup` | src/utils/converter.ts:157-159 | the cleaned text has no run of three newlines and no white space at either end |
| `Converter.CleanupUnchanged` | src/utils/converter.ts:157-159 | text that is already clean is left as it is |
| `Converter.CleanupIdempotent` | src/utils/converter.ts:157-159 | cleaning twice is cleaning once |
| `Converter.ConvertToMarkdown` | src/utils/converter.ts:140-162 | text is converted as it is; a selection is serialised without pruning; any other element is serialised after pruning by the exclusion selectors; Turndown runs with the rules the flags register; the output is cleaned, so it has no run of three newlines and is trimmed |
| `Converter.FormatMarkdownOutput` | src/utils/converter.ts:213-230 | the output is the title line when metadata and the title are on, then the source line when metadata and the URL are on, then the markdown unchanged as a suffix; without metadata it is the markdown |
| `Converter.GetMainContent` | src/utils/converter.ts:165-189 | the result is what the earliest matching selector of the ten finds; `body` is returned only when none of them matches |
| `Converter.MainSelectors` | src/utils/converter.ts:167-178 | the ten places the main content is looked for, in the source's order |
| `Filename.RemoveIllegal` | src/popup/popup.ts:54 | the result holds none of `< > : " / \ \| ? *`, and only characters of the title |
| `Filename.RemoveIllegalSingle` | src/popup/popup.ts:54 | one character is dropped when it is illegal and kept otherwise |
| `Filename.RemoveIllegalAppend` | src/popup/popup.ts:54 | characters are removed one by one: the result for `a + b` is the result for `a` followed by the result for `b`, so legal characters are kept in order |
| `Filename.RemoveIllegalUnchanged` | src/popup/popup.ts:54 | a title without illegal characters is left as it is |
| `Filename.Hyphenate` | src/popup/popup.ts:55 | the result holds no white space, only `-` and characters of the input, and is non-empty when the input is |
| `Filename.HyphenateRun` | src/popup/popup.ts:55 | a maximal run of white space becomes exactly one `-` |
| `Filename.HyphenateAround` | src/popup/popup.ts:55 | runs are replaced independently: a character other than white space separates what happens to its left and right |
| `Filename.HyphenateUnchanged` | src/popup/popup.ts:55 | text without white space is left as it is |
| `Filename.ToLowerAscii` | src/popup/popup.ts:56 | the length is kept, each upper-case ASCII letter becomes its lower-case letter (code point plus 32), no upper-case letter is left, and other characters are kept |
| `Filename.Take50` | src/popup/popup.ts:57 | the result is the first 50 characters, or the whole text when it is shorter |
| `Filename.Sanitize` | src/popup/popup.ts:53-57 | the sanitised stem has at most 50 characters, none illegal, white space or upper case, and is empty exactly when removing illegal characters leaves nothing |
| `Filename.GenerateFilename` | src/popup/popup.ts:51-60 | the name ends with `.md`; its stem has 1 to 50 characters, none illegal, white space or upper case; it is `page.md` when the sanitised title is empty and the sanitised title plus `.md` otherwise |
| `Filename.IllegalOnlyTitle` | src/popup/popup.ts:59 | the empty title, and a title made only of illegal characters, give `page.md` |
| `Filename.BlankTitle` | src/popup/popup.ts:53-59 | a title made only of white space gives `-.md`, not `page.md` |
| `Filename.CleanTitle` | src/popup/popup.ts:51-60 | a title of 1 to 50 lower-case letters, digits and `-` is kept as the stem |
| `OptionsForm.EmptySiteRule` | src/options/options.ts:38 | the rule a new row starts from: empty domain and empty selector |
| `OptionsForm.RowFor` | src/options/options.ts:41-59 | a row built from a well-formed rule gives back that rule, and a row built from `EMPTY_SITE_RULE` gives none |
| `OptionsForm.RowRule` | src/options/options.ts:97-101 | one row gives at most one rule, and that rule has a non-empty, trimmed domain and selector |
| `OptionsForm.CollectRules` | src/options/options.ts:89-106 | at most one rule per row |
| `OptionsForm.CollectedWellFormed` | src/options/options.ts:97-101 | every collected rule has a non-empty, trimmed domain and content selector |
| `OptionsForm.CollectRulesAppend` | src/options/options.ts:93-103 | rows are collected one by one, in row order |
| `OptionsForm.CollectRulesSplit` | src/options/options.ts:91-103 | each row counts once, in its place: the rules before it, what it gives, the rules after it |
| `OptionsForm.RowRuleKept` | src/options/options.ts:97-101 | a row gives a rule exactly when both inputs hold a character other than white space, and the rule holds the trimmed values |
| `OptionsForm.EmptyRowAddsNothing` | src/options/options.ts:179-181 | a new row built from `EMPTY_SITE_RULE` adds no rule |
| `OptionsForm.CollectRowsFor` | src/options/options.ts:78-106 | well-formed rules loaded into rows are collected back unchanged |
| `OptionsForm.OptionsPage.AddSiteRuleRow` | src/options/options.ts:179-185 | one empty row is appended and nothing else changes; the collected rules stay the same |
| `OptionsForm.OptionsPage.RemoveRow` | src/options/options.ts:65-67 | only that row goes, the others keep their order, and the collected rules are those of the rows before it followed by those after it |
| `OptionsForm.OptionsPage.GetSiteRulesFromForm` | src/options/options.ts:89-106 | the loop returns the rules the rows describe |
| `OptionsForm.OptionsPage.LoadSiteRulesIntoForm` | src/options/options.ts:78-86 | the rows are rebuilt as one row per rule, in order, and nothing else changes |
| `OptionsForm.OptionsPage.LoadSettingsIntoForm` | src/options/options.ts:109-126 | each checkbox takes its flag, the text area takes the custom exclusions, and the rows are built from the decoded site rules |
| `OptionsForm.OptionsPage.GetSettingsFromForm` | src/options/options.ts:129-148 | the settings carry the checkboxes, the text area and the encoded collected rules |
| `OptionsForm.LoadThenRead` | src/options/options.ts:109-148 | loading settings into the form and reading it back returns the same twelve flags and custom exclusions |

## Left out

- Turndown's own HTML-to-Markdown conversion is a third-party library. It
  is a parameter `turndown(rules, html)`, and only the custom rules and the
  clean-up around it are modelled.
- CSS selector semantics are not modelled. A selector is compiled by a
  parameter into a test on an element's tag and attributes, or into `None`
  when `querySelectorAll` would throw. So a selector that depends on an
  element's ancestors or siblings is not expressible.
- DOM cloning and in-place removal are modelled on tree values. The clone is
  a copy of the value, and removing a matched element drops its whole
  subtree. Node identity and aliasing are not modelled.
- `innerHTML` serialisation and `textContent` extraction are parameters.
  A table comes in as the text contents of its rows' cells.
- `querySelectorAll('tr')` also collects the rows of nested tables. The model
  takes the row list as given.
- `chrome.storage.sync` is not modelled. `Settings.GetSettings` receives the
  object storage answered with, after its merge with the defaults. Saving
  is not modelled.
- `ConvertToMarkdown` and `FormatMarkdownOutput` receive the settings as a
  parameter. In the source they read them from storage.
- `FormatMarkdownOutput` receives `document.title` and `window.location.href`
  as parameters.
- `getSelectedContent` and `hasSelection` are not modelled, because they
  work on the Selection API.
- Message passing, the clipboard, downloads, notifications and button
  listeners are not modelled, because they are I/O and UI glue.
- `parseSiteRules` and `stringifySiteRules` are opaque parameters, because
  their code is not part of this model. So the site-rule text is not
  promised to round-trip through the options page.
- Domain matching of site rules is not modelled.
- The page's initial HTML is represented only by the `OptionsPage`
  constructor, which starts with no rows and no custom text.
- Focusing the new domain input is not modelled.
- `Text.IsSpace` is the ASCII white space plus no-break space, the byte-order
  mark and the two Unicode line terminators. JavaScript's `trim` and `\s`
  also accept the other Unicode space separators.
- `Filename.ToLowerAscii` lowers only the ASCII letters `A`–`Z`, where
  `toLowerCase` maps all of Unicode.
- `Filename.Take50` counts characters, where `substring` counts UTF-16 code
  units.
- `Exclusions.GetExclusionSelectors`, `TurndownRules.RenderTable` and
  `Converter.GetMainContent` are proved for any selector table, any row
  renderer and any query function passed in. `ExclusionSelectors`,
  `TableReplacement` and `MainSelectors` fix the extension's own.
- `Converter.GetMainContent`: "never null" holds because the model assumes
  the document has a body, as the source's return type does. In a document
  without one, such as an XML or SVG page, `document.body` is null.
- The browser normalises the values of form fields. A text input drops the
  newlines of an assigned value, and a text area reads carriage returns back
  as line feeds. The model's rows and text area hold strings exactly as
  assigned. So `OptionsForm.LoadThenRead` and `OptionsForm.CollectRowsFor`
  hold for the model's form, not for every string in a browser.
