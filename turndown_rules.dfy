/**
 * The custom rules the converter adds to its Turndown service: images
 * removed, links reduced to their text, and tables rendered as pipe tables.
 * Turndown's own conversion is not part of this model; a node no custom rule
 * claims is handed back to it (`None` below).
 */
module TurndownRules {
  import opened Wrappers
  import opened Text
  import opened Settings

  datatype Rule = RemoveImages | RemoveLinks | TableRule

  /** The rules registered for the given flags, in registration order. */
  function RegisteredRules(f: Flags): (rules: seq<Rule>)
    ensures RemoveImages in rules <==> !f.includeImages
    ensures RemoveLinks in rules <==> !f.includeLinks
    ensures TableRule in rules <==> f.preserveTables
    ensures forall i, j | 0 <= i < j < |rules| :: rules[i] != rules[j]
  {
    (if !f.includeImages then [RemoveImages] else [])
    + (if !f.includeLinks then [RemoveLinks] else [])
    + (if f.preserveTables then [TableRule] else [])
  }

  /** The nodes the custom rules look at: an image, an anchor with its text
      content, a table with the text content of its rows' cells, or any
      other element. */
  datatype ConvNode =
    | Image
    | Anchor(textContent: string)
    | Table(rows: seq<seq<string>>)
    | OtherElement(tag: string)

  /** The text a registered custom rule puts in place of `n`, or `None` when
      no custom rule applies (Turndown then converts `n` itself). */
  function Replacement(rules: seq<Rule>, n: ConvNode): (r: Option<string>)
    ensures r.Some? <==>
      (n.Image? && RemoveImages in rules) || (n.Anchor? && RemoveLinks in rules)
      || (n.Table? && TableRule in rules)
    ensures n.Image? && r.Some? ==> r.value == ""
    ensures n.Anchor? && r.Some? ==> r.value == n.textContent
  {
    match n
    case Image => if RemoveImages in rules then Some("") else None
    case Anchor(text) => if RemoveLinks in rules then Some(text) else None
    case Table(rows) => if TableRule in rules then Some(TableMarkdown(rows)) else None
    case OtherElement(_) => None
  }

  /** What the converter's custom rules do to each kind of node, per flag. */
  lemma ReplacementBySettings(f: Flags, n: ConvNode)
    ensures var r := Replacement(RegisteredRules(f), n);
      match n
      case Image => r == (if f.includeImages then None else Some(""))
      case Anchor(text) => r == (if f.includeLinks then None else Some(text))
      case Table(rows) => r == (if f.preserveTables then Some(TableMarkdown(rows)) else None)
      case OtherElement(_) => r == None
  {
  }

  // ---------------------------------------------------------------------
  // Cell text

  /** Every `|` is preceded by a backslash. */
  predicate PipesEscaped(s: string) {
    forall j | 0 <= j < |s| && s[j] == '|' :: 0 < j && s[j - 1] == '\\'
  }

  /** `replace(/\|/g, '\\|')`. */
  function EscapePipes(s: string): (r: string)
    ensures PipesEscaped(r)
    ensures |r| > 0 ==> r[0] != '|'
    ensures '\n' in r <==> '\n' in s
  {
    if s == [] then []
    else
      var head := if s[0] == '|' then "\\|" else [s[0]];
      var rest := EscapePipes(s[1..]);
      assert forall j | |head| <= j < |head + rest| :: (head + rest)[j] == rest[j - |head|];
      head + rest
  }

  /** Reading the escapes back. */
  function UnescapePipes(s: string): string {
    if s == [] then []
    else if |s| >= 2 && s[0] == '\\' && s[1] == '|' then "|" + UnescapePipes(s[2..])
    else [s[0]] + UnescapePipes(s[1..])
  }

  /** Escaping loses nothing: the escapes read back to the original text. */
  lemma {:induction false} UnescapeEscape(s: string)
    ensures UnescapePipes(EscapePipes(s)) == s
  {
    if s != [] {
      var rest := EscapePipes(s[1..]);
      UnescapeEscape(s[1..]);
      if s[0] == '|' {
        assert EscapePipes(s) == "\\|" + rest;
        assert ("\\|" + rest)[2..] == rest;
      } else {
        assert EscapePipes(s) == [s[0]] + rest;
        assert ([s[0]] + rest)[1..] == rest;
      }
      assert [s[0]] + s[1..] == s;
    }
  }

  /** `replace(/\n/g, ' ')`. */
  function FlattenNewlines(s: string): (r: string)
    ensures |r| == |s|
    ensures '\n' !in r
    ensures forall i | 0 <= i < |s| :: s[i] != '\n' ==> r[i] == s[i]
    ensures forall i | 0 <= i < |s| :: s[i] == '\n' ==> r[i] == ' '
  {
    seq(|s|, i requires 0 <= i < |s| => if s[i] == '\n' then ' ' else s[i])
  }

  /** The text of one cell: pipes escaped, newlines flattened, trimmed. */
  function CellText(raw: string): (r: string)
    ensures '\n' !in r
    ensures IsTrimmed(r)
    ensures PipesEscaped(r)
  {
    var e := FlattenNewlines(EscapePipes(raw));
    FlattenKeepsEscapes(EscapePipes(raw));
    TrimKeepsEscapes(e);
    Trim(e)
  }

  lemma FlattenKeepsEscapes(s: string)
    requires PipesEscaped(s)
    ensures PipesEscaped(FlattenNewlines(s))
    ensures '\n' !in FlattenNewlines(s)
  {
  }

  /** Trimming cannot separate a pipe from its backslash: the backslash is
      not white space, so a trimmed text never starts with a pipe. */
  lemma TrimKeepsEscapes(e: string)
    requires PipesEscaped(e)
    ensures PipesEscaped(Trim(e))
  {
    var r := Trim(e);
    var lead := LeadingSpaces(e);
    assert r == e[lead..lead + |r|];
    forall j | 0 <= j < |r| && r[j] == '|'
      ensures 0 < j && r[j - 1] == '\\'
    {
      assert e[lead + j] == '|';
      assert !IsSpace(e[lead + j - 1]);
    }
  }

  /** Text with no pipe and no newline that is already trimmed goes into a
      cell unchanged. */
  lemma {:induction false} CellTextOfPlain(raw: string)
    requires '|' !in raw && '\n' !in raw
    requires IsTrimmed(raw)
    ensures CellText(raw) == raw
  {
    EscapeNoPipe(raw);
    assert FlattenNewlines(raw) == raw;
    TrimTrimmed(raw);
  }

  lemma {:induction false} EscapeNoPipe(s: string)
    requires '|' !in s
    ensures EscapePipes(s) == s
  {
    if s != [] {
      EscapeNoPipe(s[1..]);
      assert [s[0]] + s[1..] == s;
    }
  }

  // ---------------------------------------------------------------------
  // Rows and the table

  function CellTexts(cells: seq<string>): seq<string> {
    seq(|cells|, i requires 0 <= i < |cells| => CellText(cells[i]))
  }

  /** `'| ' + cellContents.join(' | ') + ' |'`. */
  function RowLine(cells: seq<string>): (line: string)
    ensures '\n' !in line
  {
    JoinNoNewline(CellTexts(cells), " | ");
    "| " + Join(CellTexts(cells), " | ") + " |"
  }

  /** The header separator: one `---` per cell of the first row. */
  function SeparatorLine(n: nat): (line: string)
    ensures '\n' !in line
  {
    var dashes := seq(n, _ => "---");
    JoinNoNewline(dashes, " | ");
    "| " + Join(dashes, " | ") + " |"
  }

  /** The lines the table rule emits for the first `k` rows, given how a
      row and the separator are written: each row's line, and the separator
      right after the first. */
  function EmittedLines(rows: seq<seq<string>>, k: nat, rowLine: seq<string> -> string, separator: nat -> string): seq<string>
    requires k <= |rows|
  {
    if k == 0 then []
    else if k == 1 then [rowLine(rows[0]), separator(|rows[0]|)]
    else EmittedLines(rows, k - 1, rowLine, separator) + [rowLine(rows[k - 1])]
  }

  /** Each line followed by a newline. */
  function Unlines(lines: seq<string>): string {
    if lines == [] then "" else Unlines(lines[..|lines| - 1]) + lines[|lines| - 1] + "\n"
  }

  /** The table text for a given way of writing rows and the separator. */
  function TableText(rows: seq<seq<string>>, rowLine: seq<string> -> string, separator: nat -> string): string {
    if rows == [] then "" else "\n\n" + Unlines(EmittedLines(rows, |rows|, rowLine, separator)) + "\n"
  }

  /** The table rule's output for a table with these rows. */
  function TableMarkdown(rows: seq<seq<string>>): (markdown: string)
    ensures rows == [] <==> markdown == ""
    ensures rows != [] ==> |markdown| >= 3 && markdown[..2] == "\n\n" && markdown[|markdown| - 1] == '\n'
  {
    TableText(rows, RowLine, SeparatorLine)
  }

  /** The table rule's replacement: `markdown +=` once per row, plus the
      separator after the first. The rule writes rows with `RowLine` and the
      separator with `SeparatorLine`; the loop is proved for any such pair. */
  method RenderTable(rows: seq<seq<string>>, rowLine: seq<string> -> string, separator: nat -> string)
    returns (markdown: string)
    ensures markdown == TableText(rows, rowLine, separator)
  {
    if |rows| == 0 {
      return "";
    }
    markdown := "\n\n";
    var rowIndex := 0;
    while rowIndex < |rows|
      invariant 0 <= rowIndex <= |rows|
      invariant markdown == "\n\n" + Unlines(EmittedLines(rows, rowIndex, rowLine, separator))
    {
      var cells := rows[rowIndex];
      markdown := markdown + rowLine(cells) + "\n";
      if rowIndex == 0 {
        markdown := markdown + separator(|cells|) + "\n";
        RenderFirst(rows, rowLine, separator);
      } else {
        RenderNext(rows, rowIndex, rowLine, separator);
      }
      rowIndex := rowIndex + 1;
    }
    markdown := markdown + "\n";
  }

  /** The table rule as the converter registers it. */
  method TableReplacement(rows: seq<seq<string>>) returns (markdown: string)
    ensures markdown == TableMarkdown(rows)
    ensures rows == [] <==> markdown == ""
  {
    markdown := RenderTable(rows, RowLine, SeparatorLine);
  }

  lemma UnlinesSnoc(lines: seq<string>, x: string)
    ensures Unlines(lines + [x]) == Unlines(lines) + x + "\n"
  {
    assert (lines + [x])[..|lines|] == lines;
  }

  lemma RenderFirst(rows: seq<seq<string>>, rowLine: seq<string> -> string, separator: nat -> string)
    requires 0 < |rows|
    ensures Unlines(EmittedLines(rows, 1, rowLine, separator)) ==
      "" + rowLine(rows[0]) + "\n" + separator(|rows[0]|) + "\n"
  {
    var row := rowLine(rows[0]);
    var sep := separator(|rows[0]|);
    UnlinesSnoc([row], sep);
    UnlinesSnoc([], row);
    assert [] + [row] == [row];
    assert [row] + [sep] == EmittedLines(rows, 1, rowLine, separator);
  }

  lemma RenderNext(rows: seq<seq<string>>, k: nat, rowLine: seq<string> -> string, separator: nat -> string)
    requires 0 < k < |rows|
    ensures Unlines(EmittedLines(rows, k + 1, rowLine, separator)) ==
      Unlines(EmittedLines(rows, k, rowLine, separator)) + rowLine(rows[k]) + "\n"
  {
    UnlinesSnoc(EmittedLines(rows, k, rowLine, separator), rowLine(rows[k]));
  }

  /** Where each line sits among the emitted lines. */
  lemma {:induction false} EmittedLinesLayout(rows: seq<seq<string>>, k: nat, rowLine: seq<string> -> string, separator: nat -> string)
    requires 1 <= k <= |rows|
    ensures var ls := EmittedLines(rows, k, rowLine, separator);
      |ls| == k + 1
      && ls[0] == rowLine(rows[0])
      && ls[1] == separator(|rows[0]|)
      && forall j | 1 <= j < k :: ls[j + 1] == rowLine(rows[j])
  {
    if k > 1 {
      EmittedLinesLayout(rows, k - 1, rowLine, separator);
    }
  }

  lemma {:induction false} SplitUnlines(lines: seq<string>, rest: string)
    requires forall k | 0 <= k < |lines| :: '\n' !in lines[k]
    ensures SplitLines(Unlines(lines) + rest) == lines + SplitLines(rest)
    decreases |lines|
  {
    if lines == [] {
      assert "" + rest == rest;
    } else {
      var init := lines[..|lines| - 1];
      var last := lines[|lines| - 1];
      SplitUnlines(init, last + "\n" + rest);
      assert Unlines(lines) + rest == Unlines(init) + (last + "\n" + rest);
      SplitLinesAt(last, rest);
      SplitLinesSingle(last);
      assert init + ([last] + SplitLines(rest)) == lines + SplitLines(rest);
    }
  }

  /** Framing newline-free lines with two newlines before and one after
      gives them back with two empty lines on each side. */
  lemma {:induction false} SplitFramed(lines: seq<string>)
    requires forall k | 0 <= k < |lines| :: '\n' !in lines[k]
    ensures SplitLines("\n\n" + Unlines(lines) + "\n") == ["", ""] + lines + ["", ""]
  {
    var tail := Unlines(lines) + "\n";
    SplitUnlines(lines, "\n");
    SplitNewlineOnly();
    FrameShape(Unlines(lines));
    SplitAfterNewline("\n" + tail);
    SplitAfterNewline(tail);
  }

  lemma FrameShape(u: string)
    ensures "\n\n" + u + "\n" == "\n" + ("\n" + (u + "\n"))
  {
  }

  lemma SplitAfterNewline(t: string)
    ensures SplitLines("\n" + t) == [""] + SplitLines(t)
  {
    assert ("\n" + t)[1..] == t;
  }

  lemma SplitNewlineOnly()
    ensures SplitLines("\n") == ["", ""]
  {
    SplitAfterNewline("");
    assert "\n" + "" == "\n";
  }

  lemma EmittedLinesNoNewline(rows: seq<seq<string>>, rowLine: seq<string> -> string, separator: nat -> string)
    requires rows != []
    requires forall cells :: '\n' !in rowLine(cells)
    requires forall n :: '\n' !in separator(n)
    ensures var lines := EmittedLines(rows, |rows|, rowLine, separator);
      forall i | 0 <= i < |lines| :: '\n' !in lines[i]
  {
    var lines := EmittedLines(rows, |rows|, rowLine, separator);
    EmittedLinesLayout(rows, |rows|, rowLine, separator);
    forall i | 0 <= i < |lines|
      ensures '\n' !in lines[i]
    {
      if i >= 2 {
        assert lines[i] == rowLine(rows[i - 1]);
      }
    }
  }

  /** The layout of a table text, read line by line, for any row and
      separator writers that emit no newline. */
  lemma {:induction false} TableTextLayout(rows: seq<seq<string>>, rowLine: seq<string> -> string, separator: nat -> string)
    requires rows != []
    requires forall cells :: '\n' !in rowLine(cells)
    requires forall n :: '\n' !in separator(n)
    ensures var ls := SplitLines(TableText(rows, rowLine, separator));
      |ls| == |rows| + 5
      && ls[0] == "" && ls[1] == ""
      && ls[2] == rowLine(rows[0])
      && ls[3] == separator(|rows[0]|)
      && (forall j | 1 <= j < |rows| :: ls[j + 3] == rowLine(rows[j]))
      && ls[|rows| + 3] == "" && ls[|rows| + 4] == ""
  {
    var lines := EmittedLines(rows, |rows|, rowLine, separator);
    EmittedLinesLayout(rows, |rows|, rowLine, separator);
    EmittedLinesNoNewline(rows, rowLine, separator);
    SplitFramed(lines);
    var ls := SplitLines(TableText(rows, rowLine, separator));
    assert ls == ["", ""] + lines + ["", ""];
    forall j | 1 <= j < |rows|
      ensures ls[j + 3] == rowLine(rows[j])
    {
      assert ls[j + 3] == lines[j + 1];
    }
  }

  /** The layout of a rendered table, read line by line: two empty lines,
      the first row, the one separator line (one `---` per cell of the first
      row), the remaining rows in order, and two empty lines. */
  lemma TableLayout(rows: seq<seq<string>>)
    requires rows != []
    ensures var ls := SplitLines(TableMarkdown(rows));
      |ls| == |rows| + 5
      && ls[0] == "" && ls[1] == ""
      && ls[2] == RowLine(rows[0])
      && ls[3] == SeparatorLine(|rows[0]|)
      && (forall j | 1 <= j < |rows| :: ls[j + 3] == RowLine(rows[j]))
      && ls[|rows| + 3] == "" && ls[|rows| + 4] == ""
  {
    TableTextLayout(rows, RowLine, SeparatorLine);
  }

}
