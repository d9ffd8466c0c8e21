/**
 * The converter's entry points around Turndown: the whitespace cleanup of
 * its output, the choice of what is converted (`convertToMarkdown`), the
 * metadata header (`formatMarkdownOutput`) and the search for the page's
 * main content (`getMainContent`).
 *
 * Turndown itself, the serialisation of an element (`innerHTML`) and the
 * document queries are parameters, and so are the settings `getSettings`
 * returned (see `Settings.GetSettings`).
 */
module Converter {
  import opened Wrappers
  import opened Text
  import opened Settings
  import opened Exclusions
  import opened Pruning
  import opened TurndownRules

  // ---------------------------------------------------------------------
  // `replace(/\n{3,}/g, '\n\n')`

  /** No three newlines in a row. */
  predicate NoTripleNewline(s: string) {
    forall i | 0 <= i < |s| - 2 :: !(s[i] == '\n' && s[i + 1] == '\n' && s[i + 2] == '\n')
  }

  /** The length of the run of newlines that `s` starts with. */
  function NewlineRun(s: string): (n: nat)
    ensures n <= |s|
    ensures forall i | 0 <= i < n :: s[i] == '\n'
    ensures n < |s| ==> s[n] != '\n'
  {
    if s == [] || s[0] != '\n' then 0 else 1 + NewlineRun(s[1..])
  }

  /** Every maximal run of three or more newlines becomes two newlines;
      everything else is kept. */
  function CollapseNewlines(s: string): (r: string)
    ensures NoTripleNewline(r)
    ensures |s| > 0 ==> |r| > 0 && r[0] == s[0]
    decreases |s|
  {
    if s == [] then []
    else if s[0] != '\n' then
      var rest := CollapseNewlines(s[1..]);
      assert forall i | 1 <= i < |[s[0]] + rest| :: ([s[0]] + rest)[i] == rest[i - 1];
      [s[0]] + rest
    else
      var n := NewlineRun(s);
      var piece := if n >= 3 then "\n\n" else s[..n];
      var rest := CollapseNewlines(s[n..]);
      assert |piece| <= 2 && forall i | 0 <= i < |piece| :: piece[i] == '\n';
      assert |rest| > 0 ==> rest[0] != '\n';
      assert forall i | |piece| <= i < |piece + rest| :: (piece + rest)[i] == rest[i - |piece|];
      piece + rest
  }

  /** `n` newlines. */
  function Newlines(n: nat): string {
    seq(n, _ => '\n')
  }

  /** A run of newlines on its own: three or more become two, one or two
      stay as they are. */
  lemma CollapseRun(n: nat)
    ensures CollapseNewlines(Newlines(n)) == if n >= 3 then "\n\n" else Newlines(n)
  {
    var s := Newlines(n);
    if n > 0 {
      NewlineRunAll(s);
      assert s[n..] == [];
      assert s[..n] == s;
    }
  }

  lemma {:induction false} NewlineRunAll(s: string)
    requires forall i | 0 <= i < |s| :: s[i] == '\n'
    ensures NewlineRun(s) == |s|
  {
    if s != [] {
      NewlineRunAll(s[1..]);
    }
  }

  /** Runs are collapsed one by one: a character that is not a newline
      separates what happens on its left from what happens on its right. */
  lemma {:induction false} CollapseAround(a: string, c: char, b: string)
    requires c != '\n'
    ensures CollapseNewlines(a + [c] + b) == CollapseNewlines(a) + [c] + CollapseNewlines(b)
    decreases |a|
  {
    var s := a + [c] + b;
    if a == [] {
      assert s == [c] + b;
      assert s[1..] == b;
    } else if a[0] != '\n' {
      assert s[1..] == a[1..] + [c] + b;
      CollapseAround(a[1..], c, b);
      var x := CollapseNewlines(a[1..]);
      var y := CollapseNewlines(b);
      assert CollapseNewlines(s) == [a[0]] + (x + [c] + y);
      assert CollapseNewlines(a) == [a[0]] + x;
      Regroup([a[0]], x, c, y);
    } else {
      var n := NewlineRun(a);
      NewlineRunPrefix(a, [c] + b);
      assert a + ([c] + b) == s;
      assert s[..n] == a[..n];
      assert s[n..] == a[n..] + [c] + b;
      CollapseAround(a[n..], c, b);
      var piece := if n >= 3 then "\n\n" else a[..n];
      var x := CollapseNewlines(a[n..]);
      var y := CollapseNewlines(b);
      assert CollapseNewlines(s) == piece + (x + [c] + y);
      assert CollapseNewlines(a) == piece + x;
      Regroup(piece, x, c, y);
    }
  }

  lemma {:induction false} NewlineRunPrefix(a: string, t: string)
    requires t != [] && t[0] != '\n'
    ensures NewlineRun(a + t) == NewlineRun(a)
  {
    if a != [] && a[0] == '\n' {
      assert (a + t)[1..] == a[1..] + t;
      NewlineRunPrefix(a[1..], t);
    } else if a == [] {
      assert a + t == t;
    }
  }

  /** Text with no run of three newlines is left exactly as it is (runs of
      one or two newlines are kept). */
  lemma {:induction false} CollapseUnchanged(s: string)
    requires NoTripleNewline(s)
    ensures CollapseNewlines(s) == s
    decreases |s|
  {
    if s != [] {
      if s[0] != '\n' {
        assert NoTripleNewline(s[1..]) by {
          forall i | 0 <= i < |s[1..]| - 2
            ensures !(s[1..][i] == '\n' && s[1..][i + 1] == '\n' && s[1..][i + 2] == '\n')
          {
            assert s[1..][i] == s[i + 1] && s[1..][i + 1] == s[i + 2] && s[1..][i + 2] == s[i + 3];
          }
        }
        CollapseUnchanged(s[1..]);
        assert [s[0]] + s[1..] == s;
      } else {
        var n := NewlineRun(s);
        if |s| >= 3 {
          assert !(s[0] == '\n' && s[1] == '\n' && s[2] == '\n');
        }
        assert n < 3;
        assert NoTripleNewline(s[n..]) by {
          forall i | 0 <= i < |s[n..]| - 2
            ensures !(s[n..][i] == '\n' && s[n..][i + 1] == '\n' && s[n..][i + 2] == '\n')
          {
            assert s[n..][i] == s[n + i] && s[n..][i + 1] == s[n + i + 1] && s[n..][i + 2] == s[n + i + 2];
          }
        }
        CollapseUnchanged(s[n..]);
        assert s[..n] + s[n..] == s;
      }
    }
  }

  /** Collapsing twice is collapsing once. */
  lemma CollapseIdempotent(s: string)
    ensures CollapseNewlines(CollapseNewlines(s)) == CollapseNewlines(s)
  {
    CollapseUnchanged(CollapseNewlines(s));
  }

  /** The text without its newlines. */
  function WithoutNewlines(s: string): string {
    if s == [] then []
    else (if s[0] == '\n' then [] else [s[0]]) + WithoutNewlines(s[1..])
  }

  lemma {:induction false} WithoutNewlinesAppend(a: string, b: string)
    ensures WithoutNewlines(a + b) == WithoutNewlines(a) + WithoutNewlines(b)
  {
    if a == [] {
      assert a + b == b;
    } else {
      assert (a + b)[1..] == a[1..] + b;
      WithoutNewlinesAppend(a[1..], b);
    }
  }

  lemma {:induction false} WithoutNewlinesOfRun(s: string)
    requires forall i | 0 <= i < |s| :: s[i] == '\n'
    ensures WithoutNewlines(s) == []
  {
    if s != [] {
      WithoutNewlinesOfRun(s[1..]);
    }
  }

  /** Collapsing touches only newlines: every other character is kept, in
      order. */
  lemma {:induction false} CollapseKeepsText(s: string)
    ensures WithoutNewlines(CollapseNewlines(s)) == WithoutNewlines(s)
    decreases |s|
  {
    if s != [] {
      if s[0] != '\n' {
        CollapseKeepsText(s[1..]);
        var rest := CollapseNewlines(s[1..]);
        assert ([s[0]] + rest)[1..] == rest;
      } else {
        var n := NewlineRun(s);
        var piece := if n >= 3 then "\n\n" else s[..n];
        var rest := CollapseNewlines(s[n..]);
        CollapseKeepsText(s[n..]);
        WithoutNewlinesAppend(piece, rest);
        WithoutNewlinesOfRun(piece);
        assert s == s[..n] + s[n..];
        WithoutNewlinesAppend(s[..n], s[n..]);
        WithoutNewlinesOfRun(s[..n]);
      }
    }
  }

  // ---------------------------------------------------------------------
  // The cleanup of Turndown's output

  /** `.replace(/\n{3,}/g, '\n\n').trim()`. */
  function Cleanup(s: string): (r: string)
    ensures NoTripleNewline(r)
    ensures IsTrimmed(r)
  {
    var c := CollapseNewlines(s);
    SliceNoTriple(c, LeadingSpaces(c), LeadingSpaces(c) + |Trim(c)|);
    Trim(c)
  }

  lemma SliceNoTriple(s: string, i: nat, j: nat)
    requires NoTripleNewline(s)
    requires i <= j <= |s|
    ensures NoTripleNewline(s[i..j])
  {
    forall k | 0 <= k < |s[i..j]| - 2
      ensures !(s[i..j][k] == '\n' && s[i..j][k + 1] == '\n' && s[i..j][k + 2] == '\n')
    {
      assert s[i..j][k] == s[i + k] && s[i..j][k + 1] == s[i + k + 1] && s[i..j][k + 2] == s[i + k + 2];
    }
  }

  /** Text that is already trimmed and has no run of three newlines comes
      out of the cleanup unchanged. */
  lemma CleanupUnchanged(s: string)
    requires NoTripleNewline(s) && IsTrimmed(s)
    ensures Cleanup(s) == s
  {
    CollapseUnchanged(s);
    TrimTrimmed(s);
  }

  /** Cleaning up twice is cleaning up once. */
  lemma CleanupIdempotent(s: string)
    ensures Cleanup(Cleanup(s)) == Cleanup(s)
  {
    CleanupUnchanged(Cleanup(s));
  }

  // ---------------------------------------------------------------------
  // `convertToMarkdown`

  /** What is handed to the converter: HTML text, or an element. */
  datatype Content = HtmlString(html: string) | ElementContent(element: Node)

  /** `convertToMarkdown`: text is converted as it is; an element is
      serialised, after pruning unless it is a selection; Turndown runs with
      the rules the settings ask for; its output is cleaned up. */
  method ConvertToMarkdown(
    html: Content, isSelection: bool, settings: ExtensionSettings, compile: Compiler,
    innerHTML: Node -> string, turndown: (seq<Rule>, string) -> string)
    returns (markdown: string)
    ensures var rules := RegisteredRules(settings.flags);
      match html
      case HtmlString(text) => markdown == Cleanup(turndown(rules, text))
      case ElementContent(e) =>
        markdown == Cleanup(turndown(rules, innerHTML(
          if isSelection then e else PruneAll(e, ExclusionSelectors(settings), compile))))
    ensures NoTripleNewline(markdown) && IsTrimmed(markdown)
  {
    var rules := RegisteredRules(settings.flags);
    var content: string;
    match html {
      case HtmlString(text) =>
        content := text;
      case ElementContent(e) =>
        var prepared: Node;
        if isSelection {
          prepared := e;
        } else {
          prepared := PrepareContent(e, settings, compile);
        }
        content := innerHTML(prepared);
    }
    markdown := turndown(rules, content);
    markdown := Cleanup(markdown);
  }

  // ---------------------------------------------------------------------
  // `formatMarkdownOutput`

  function TitleLine(title: string): string {
    "# " + title + "\n\n"
  }

  function SourceLine(url: string): string {
    "> Source: " + url + "\n\n"
  }

  /** `formatMarkdownOutput`, with the page title and address passed in: an
      optional title line, an optional source line, then the markdown. */
  method FormatMarkdownOutput(markdown: string, includeMetadata: bool, settings: ExtensionSettings, title: string, url: string)
    returns (output: string)
    ensures var f := settings.flags;
      var withTitle := includeMetadata && f.includeTitle;
      var withUrl := includeMetadata && f.includeUrl;
      output == (if withTitle then TitleLine(title) else "")
                + (if withUrl then SourceLine(url) else "")
                + markdown
    ensures |output| >= |markdown| && output[|output| - |markdown|..] == markdown
    ensures !includeMetadata ==> output == markdown
  {
    var f := settings.flags;
    output := "";
    if includeMetadata {
      if f.includeTitle {
        output := output + TitleLine(title);
      }
      assert output == if f.includeTitle then TitleLine(title) else "";
      if f.includeUrl {
        output := output + SourceLine(url);
      }
    }
    ghost var header := output;
    assert header == (if includeMetadata && f.includeTitle then TitleLine(title) else "")
                     + (if includeMetadata && f.includeUrl then SourceLine(url) else "");
    output := output + markdown;
    assert output[|header|..] == markdown;
  }

  // ---------------------------------------------------------------------
  // `getMainContent`

  /** Where the page's main content is looked for, in order. */
  const MainSelectors: seq<string> := [
    "main", "[role=\"main\"]", "article", ".main-content", "#main-content",
    ".content", "#content", ".post-content", ".article-content", ".entry-content"
  ]

  /** `getMainContent`, with `document.querySelector` as `query`: the match
      of the first selector that matches anything, or the body when none
      does. */
  method GetMainContent<E>(query: string -> Option<E>, body: E) returns (element: E)
    ensures (exists i | 0 <= i < |MainSelectors| :: query(MainSelectors[i]).Some?) ==>
      exists i | 0 <= i < |MainSelectors| ::
        query(MainSelectors[i]) == Some(element)
        && forall j | 0 <= j < i :: query(MainSelectors[j]).None?
    ensures (forall i | 0 <= i < |MainSelectors| :: query(MainSelectors[i]).None?) ==> element == body
  {
    var selectors := MainSelectors;
    for i := 0 to |selectors|
      invariant forall j | 0 <= j < i :: query(selectors[j]).None?
    {
      var found := query(selectors[i]);
      if found.Some? {
        return found.value;
      }
    }
    return body;
  }
}
