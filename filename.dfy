/**
 * The popup's download filename (`generateFilename`): the page title with
 * the characters file systems refuse removed, white space runs turned into
 * `-`, lower-cased, cut to 50 characters, `page` when nothing is left, and
 * `.md` appended.
 */
module Filename {
  import opened Text

  /** The characters `[<>:"/\\|?*]` matches. */
  predicate IsIllegal(c: char) {
    c == '<' || c == '>' || c == ':' || c == '"' || c == '/' || c == '\\' || c == '|' || c == '?' || c == '*'
  }

  predicate IsUpperAscii(c: char) {
    'A' <= c <= 'Z'
  }

  /** `replace(/[<>:"/\\|?*]/g, '')`. */
  function RemoveIllegal(s: string): (r: string)
    ensures |r| <= |s|
    ensures forall i | 0 <= i < |r| :: !IsIllegal(r[i])
    ensures forall i | 0 <= i < |r| :: r[i] in s
  {
    if s == [] then []
    else
      var rest := RemoveIllegal(s[1..]);
      var head := if IsIllegal(s[0]) then [] else [s[0]];
      assert forall i | |head| <= i < |head + rest| :: (head + rest)[i] == rest[i - |head|];
      head + rest
  }

  /** One character is dropped when it is illegal and kept otherwise. */
  lemma RemoveIllegalSingle(c: char)
    ensures RemoveIllegal([c]) == if IsIllegal(c) then [] else [c]
  {
    assert [c][1..] == [];
  }

  /** Characters are removed one by one: the legal characters of `a + b`
      are those of `a` followed by those of `b`, each in order. */
  lemma {:induction false} RemoveIllegalAppend(a: string, b: string)
    ensures RemoveIllegal(a + b) == RemoveIllegal(a) + RemoveIllegal(b)
    decreases |a|
  {
    if a == [] {
      assert a + b == b;
    } else {
      assert (a + b)[0] == a[0] && (a + b)[1..] == a[1..] + b;
      RemoveIllegalAppend(a[1..], b);
    }
  }

  /** A title without illegal characters is left as it is. */
  lemma {:induction false} RemoveIllegalUnchanged(s: string)
    requires forall i | 0 <= i < |s| :: !IsIllegal(s[i])
    ensures RemoveIllegal(s) == s
  {
    if s != [] {
      RemoveIllegalUnchanged(s[1..]);
      assert [s[0]] + s[1..] == s;
    }
  }

  /** `replace(/\s+/g, '-')`. */
  function Hyphenate(s: string): (r: string)
    ensures forall i | 0 <= i < |r| :: !IsSpace(r[i])
    ensures forall i | 0 <= i < |r| :: r[i] == '-' || r[i] in s
    ensures |s| > 0 ==> |r| > 0
    decreases |s|
  {
    if s == [] then []
    else
      var n := LeadingSpaces(s);
      var head := if n > 0 then "-" else [s[0]];
      var rest := Hyphenate(s[if n > 0 then n else 1..]);
      assert forall i | |head| <= i < |head + rest| :: (head + rest)[i] == rest[i - |head|];
      head + rest
  }

  /** A run of white space on its own becomes one `-`. */
  lemma HyphenateRun(w: string)
    requires w != []
    requires forall i | 0 <= i < |w| :: IsSpace(w[i])
    ensures Hyphenate(w) == "-"
  {
    AllSpacesLeading(w);
    assert w[|w|..] == [];
  }

  /** Runs are replaced one by one: a character that is not white space
      separates what happens on its left from what happens on its right. */
  lemma {:induction false} HyphenateAround(a: string, c: char, b: string)
    requires !IsSpace(c)
    ensures Hyphenate(a + [c] + b) == Hyphenate(a) + [c] + Hyphenate(b)
    decreases |a|
  {
    var s := a + [c] + b;
    if a == [] {
      assert s == [c] + b;
      assert s[1..] == b;
    } else {
      var n := LeadingSpaces(a);
      LeadingSpacesBefore(a, [c] + b);
      assert a + ([c] + b) == s;
      var k := if n > 0 then n else 1;
      assert s[k..] == a[k..] + [c] + b;
      HyphenateAround(a[k..], c, b);
      var head := if n > 0 then "-" else [a[0]];
      var x := Hyphenate(a[k..]);
      var y := Hyphenate(b);
      assert Hyphenate(s) == head + (x + [c] + y);
      assert Hyphenate(a) == head + x;
      Regroup(head, x, c, y);
    }
  }

  /** A title with no white space is left as it is. */
  lemma {:induction false} HyphenateUnchanged(s: string)
    requires forall i | 0 <= i < |s| :: !IsSpace(s[i])
    ensures Hyphenate(s) == s
  {
    if s != [] {
      assert LeadingSpaces(s) == 0;
      HyphenateUnchanged(s[1..]);
      assert [s[0]] + s[1..] == s;
    }
  }

  /** `toLowerCase`, on ASCII letters. */
  function ToLowerAscii(s: string): (r: string)
    ensures |r| == |s|
    ensures forall i | 0 <= i < |r| :: !IsUpperAscii(r[i])
    ensures forall i | 0 <= i < |s| :: IsUpperAscii(s[i]) || r[i] == s[i]
    ensures forall i | 0 <= i < |s| :: IsUpperAscii(s[i]) ==> r[i] as int == s[i] as int + 32
  {
    seq(|s|, i requires 0 <= i < |s| =>
      if IsUpperAscii(s[i]) then (s[i] as int - 'A' as int + 'a' as int) as char else s[i])
  }

  /** `substring(0, 50)`. */
  function Take50(s: string): (r: string)
    ensures |r| == if |s| <= 50 then |s| else 50
    ensures r == s[..|r|]
  {
    if |s| <= 50 then s else s[..50]
  }

  /** The title after the whole replace chain: at most 50 characters, none
      of them illegal, white space or upper case; it is empty exactly when
      removing the illegal characters leaves nothing, since the later steps
      keep a non-empty text non-empty. */
  function Sanitize(title: string): (r: string)
    ensures |r| <= 50
    ensures forall i | 0 <= i < |r| :: !IsIllegal(r[i]) && !IsSpace(r[i]) && !IsUpperAscii(r[i])
    ensures r == [] <==> RemoveIllegal(title) == []
  {
    var hyphenated := Hyphenate(RemoveIllegal(title));
    var lowered := ToLowerAscii(hyphenated);
    assert forall i | 0 <= i < |hyphenated| :: !IsIllegal(hyphenated[i]);
    assert forall i | 0 <= i < |lowered| :: !IsIllegal(lowered[i]) && !IsSpace(lowered[i]);
    Take50(lowered)
  }

  /** `generateFilename`. */
  function GenerateFilename(title: string): (name: string)
    ensures |name| >= 4 && name[|name| - 3..] == ".md"
    ensures var stem := name[..|name| - 3];
      1 <= |stem| <= 50
      && (forall i | 0 <= i < |stem| :: !IsIllegal(stem[i]) && !IsSpace(stem[i]) && !IsUpperAscii(stem[i]))
    ensures Sanitize(title) == [] ==> name == "page.md"
    ensures Sanitize(title) != [] ==> name == Sanitize(title) + ".md"
  {
    var sanitized := Sanitize(title);
    var stem := if sanitized == [] then "page" else sanitized;
    assert forall i | 0 <= i < |stem| :: !IsIllegal(stem[i]) && !IsSpace(stem[i]) && !IsUpperAscii(stem[i]);
    var name := stem + ".md";
    assert name[..|stem|] == stem && name[|stem|..] == ".md";
    name
  }

  /** The empty title, and one made only of illegal characters, give
      `page.md`. */
  lemma IllegalOnlyTitle(title: string)
    requires forall i | 0 <= i < |title| :: IsIllegal(title[i])
    ensures GenerateFilename(title) == "page.md"
  {
    IllegalOnlyRemoved(title);
  }

  lemma {:induction false} IllegalOnlyRemoved(title: string)
    requires forall i | 0 <= i < |title| :: IsIllegal(title[i])
    ensures RemoveIllegal(title) == []
  {
    if title != [] {
      IllegalOnlyRemoved(title[1..]);
    }
  }

  /** A title made only of white space is not empty after sanitising: it
      becomes a single `-`, so the name is `-.md`, not `page.md`. */
  lemma BlankTitle(title: string)
    requires title != []
    requires forall i | 0 <= i < |title| :: IsSpace(title[i])
    ensures GenerateFilename(title) == "-.md"
  {
    assert forall i | 0 <= i < |title| :: !IsIllegal(title[i]);
    RemoveIllegalUnchanged(title);
    HyphenateRun(title);
  }

  /** A short title of lower-case letters, digits and `-` is kept as the
      file name's stem. */
  lemma CleanTitle(title: string)
    requires 1 <= |title| <= 50
    requires forall i | 0 <= i < |title| :: 'a' <= title[i] <= 'z' || '0' <= title[i] <= '9' || title[i] == '-'
    ensures GenerateFilename(title) == title + ".md"
  {
    assert forall i | 0 <= i < |title| :: !IsIllegal(title[i]) && !IsSpace(title[i]);
    RemoveIllegalUnchanged(title);
    HyphenateUnchanged(title);
    assert ToLowerAscii(title) == title;
  }
}
