/**
 * The pruner of the converter (`prepareContent`): a copy of the chosen
 * element is taken and, selector after selector, every descendant element
 * the selector matches is removed together with its subtree. A selector
 * the browser refuses to compile is skipped.
 *
 * Elements are values, so the copy is the value itself and the caller's
 * tree cannot change. CSS is not interpreted: a selector compiles either to
 * a predicate on an element's own data or to `None` (the query throws).
 */
module Pruning {
  import opened Wrappers
  import opened Settings
  import opened Exclusions

  /** What a selector can look at: the element's tag and attributes. */
  datatype ElementData = ElementData(tag: string, attributes: map<string, string>)

  datatype Node =
    | Element(data: ElementData, children: seq<Node>)
    | Text(text: string)

  /** A compiled selector. */
  type Matcher = ElementData -> bool

  /** The browser's selector compiler: `None` when `querySelectorAll` throws. */
  type Compiler = string -> Option<Matcher>

  /** Removes, from a list of siblings, every element `m` matches (with its
      subtree) and prunes the kept ones below. */
  function PruneChildren(cs: seq<Node>, m: Matcher): (r: seq<Node>)
    decreases cs
    ensures |r| <= |cs|
    ensures forall i | 0 <= i < |r| :: !(r[i].Element? && m(r[i].data))
  {
    if cs == [] then []
    else if cs[0].Element? && m(cs[0].data) then PruneChildren(cs[1..], m)
    else
      var rest := PruneChildren(cs[1..], m);
      assert forall i | 1 <= i < |[Prune(cs[0], m)] + rest| :: ([Prune(cs[0], m)] + rest)[i] == rest[i - 1];
      [Prune(cs[0], m)] + rest
  }

  /** One `querySelectorAll(selector)` followed by `remove()` on each match:
      only descendants are queried, so the node itself always stays. */
  function Prune(t: Node, m: Matcher): (r: Node)
    decreases t
    ensures r.Element? == t.Element?
    ensures t.Element? ==> r.data == t.data
    ensures t.Text? ==> r == t
  {
    match t
    case Text(_) => t
    case Element(d, cs) => Element(d, PruneChildren(cs, m))
  }

  /** The selectors applied in order; one that does not compile changes
      nothing. */
  function PruneAll(t: Node, selectors: seq<string>, compile: Compiler): (r: Node)
    decreases |selectors|
    ensures r.Element? == t.Element?
    ensures t.Element? ==> r.data == t.data
  {
    if selectors == [] then t
    else
      var before := PruneAll(t, selectors[..|selectors| - 1], compile);
      match compile(selectors[|selectors| - 1])
      case None => before
      case Some(m) => Prune(before, m)
  }

  /** `prepareContent`: copy the element, then apply each exclusion selector
      of the settings in turn, skipping those that do not compile. */
  method PrepareContent(element: Node, settings: ExtensionSettings, compile: Compiler) returns (clone: Node)
    ensures clone == PruneAll(element, ExclusionSelectors(settings), compile)
    ensures clone.Element? == element.Element?
    ensures element.Element? ==> clone.data == element.data
  {
    clone := element;
    var selectors := GetExclusionSelectors(settings, GroupSelectors);
    var i := 0;
    while i < |selectors|
      invariant 0 <= i <= |selectors|
      invariant clone == PruneAll(element, selectors[..i], compile)
    {
      assert selectors[..i + 1][..i] == selectors[..i];
      match compile(selectors[i]) {
        case None =>
        case Some(m) =>
          clone := Prune(clone, m);
      }
      i := i + 1;
    }
    assert selectors[..i] == selectors;
  }

  // ---------------------------------------------------------------------
  // After a pass, nothing below the root matches

  /** No element among the siblings `cs` or below them satisfies `m`. */
  predicate ChildrenClear(cs: seq<Node>, m: Matcher)
    decreases cs
  {
    cs == [] ||
    ((cs[0].Text? || (!m(cs[0].data) && ChildrenClear(cs[0].children, m)))
     && ChildrenClear(cs[1..], m))
  }

  /** No descendant of `t` satisfies `m` (the node itself is not looked at,
      as `querySelectorAll` does not look at it). */
  predicate Clear(t: Node, m: Matcher) {
    t.Text? || ChildrenClear(t.children, m)
  }

  lemma {:induction false} PruneChildrenClears(cs: seq<Node>, m: Matcher)
    ensures ChildrenClear(PruneChildren(cs, m), m)
    decreases cs
  {
    if cs != [] {
      PruneChildrenClears(cs[1..], m);
      if !(cs[0].Element? && m(cs[0].data)) {
        var rest := PruneChildren(cs[1..], m);
        var r := [Prune(cs[0], m)] + rest;
        assert r[0] == Prune(cs[0], m) && r[1..] == rest;
        if cs[0].Element? {
          PruneChildrenClears(cs[0].children, m);
        }
      }
    }
  }

  /** After removing the matches of `m`, no descendant matches `m`. */
  lemma PruneClears(t: Node, m: Matcher)
    ensures Clear(Prune(t, m), m)
  {
    if t.Element? {
      PruneChildrenClears(t.children, m);
    }
  }

  lemma {:induction false} PruneChildrenKeepsClear(cs: seq<Node>, m: Matcher, other: Matcher)
    requires ChildrenClear(cs, m)
    ensures ChildrenClear(PruneChildren(cs, other), m)
    decreases cs
  {
    if cs != [] {
      PruneChildrenKeepsClear(cs[1..], m, other);
      if !(cs[0].Element? && other(cs[0].data)) {
        var rest := PruneChildren(cs[1..], other);
        var r := [Prune(cs[0], other)] + rest;
        assert r[0] == Prune(cs[0], other) && r[1..] == rest;
        if cs[0].Element? {
          PruneChildrenKeepsClear(cs[0].children, m, other);
        }
      }
    }
  }

  /** A later pass cannot bring back what an earlier pass removed. */
  lemma PruneKeepsClear(t: Node, m: Matcher, other: Matcher)
    requires Clear(t, m)
    ensures Clear(Prune(t, other), m)
  {
    if t.Element? {
      PruneChildrenKeepsClear(t.children, m, other);
    }
  }

  /** After all passes, no descendant matches any selector that compiles. */
  lemma {:induction false} PruneAllClears(t: Node, selectors: seq<string>, compile: Compiler, i: nat)
    requires i < |selectors| && compile(selectors[i]).Some?
    ensures Clear(PruneAll(t, selectors, compile), compile(selectors[i]).value)
    decreases |selectors|
  {
    var n := |selectors| - 1;
    var before := PruneAll(t, selectors[..n], compile);
    if i < n {
      PruneAllClears(t, selectors[..n], compile, i);
      if compile(selectors[n]).Some? {
        PruneKeepsClear(before, compile(selectors[i]).value, compile(selectors[n]).value);
      }
    } else {
      PruneClears(before, compile(selectors[n]).value);
    }
  }

  // ---------------------------------------------------------------------
  // A pass over a tree with nothing to remove changes nothing

  lemma {:induction false} PruneChildrenClearUnchanged(cs: seq<Node>, m: Matcher)
    requires ChildrenClear(cs, m)
    ensures PruneChildren(cs, m) == cs
    decreases cs
  {
    if cs != [] {
      PruneChildrenClearUnchanged(cs[1..], m);
      if cs[0].Element? {
        PruneChildrenClearUnchanged(cs[0].children, m);
      }
      assert [cs[0]] + cs[1..] == cs;
    }
  }

  lemma PruneClearUnchanged(t: Node, m: Matcher)
    requires Clear(t, m)
    ensures Prune(t, m) == t
  {
    if t.Element? {
      PruneChildrenClearUnchanged(t.children, m);
    }
  }

  /** Applying the same selector twice is the same as applying it once. */
  lemma PruneIdempotent(t: Node, m: Matcher)
    ensures Prune(Prune(t, m), m) == Prune(t, m)
  {
    PruneClears(t, m);
    PruneClearUnchanged(Prune(t, m), m);
  }

  // ---------------------------------------------------------------------
  // Selectors that do not compile are skipped, later ones still apply

  lemma {:induction false} PruneAllAppend(t: Node, a: seq<string>, b: seq<string>, compile: Compiler)
    ensures PruneAll(t, a + b, compile) == PruneAll(PruneAll(t, a, compile), b, compile)
    decreases |b|
  {
    if b == [] {
      assert a + b == a;
    } else {
      assert (a + b)[..|a + b| - 1] == a + b[..|b| - 1];
      PruneAllAppend(t, a, b[..|b| - 1], compile);
    }
  }

  /** Dropping a selector that does not compile from anywhere in the list
      leaves the result as it was. */
  lemma InvalidSelectorSkipped(t: Node, a: seq<string>, x: string, b: seq<string>, compile: Compiler)
    requires compile(x) == None
    ensures PruneAll(t, a + [x] + b, compile) == PruneAll(t, a + b, compile)
  {
    PruneAllAppend(t, a + [x], b, compile);
    assert (a + [x])[..|a|] == a;
    PruneAllAppend(t, a, b, compile);
  }

  // ---------------------------------------------------------------------
  // Pruning only removes: the result, read in document order, is a
  // subsequence of the input

  datatype Item = Open(data: ElementData) | Chars(text: string)

  /** The nodes of a tree in document order (pre-order). */
  function Flatten(t: Node): seq<Item>
    decreases t
  {
    match t
    case Text(s) => [Chars(s)]
    case Element(d, cs) => [Open(d)] + FlattenAll(cs)
  }

  function FlattenAll(cs: seq<Node>): seq<Item>
    decreases cs
  {
    if cs == [] then [] else Flatten(cs[0]) + FlattenAll(cs[1..])
  }

  /** `a` is obtained from `b` by deleting items. */
  predicate IsSubsequence<T(==)>(a: seq<T>, b: seq<T>)
    decreases |b|
  {
    if a == [] then true
    else if b == [] then false
    else (a[|a| - 1] == b[|b| - 1] && IsSubsequence(a[..|a| - 1], b[..|b| - 1]))
         || IsSubsequence(a, b[..|b| - 1])
  }

  lemma {:induction false} SubsequenceRefl<T>(a: seq<T>)
    ensures IsSubsequence(a, a)
    decreases |a|
  {
    if a != [] {
      SubsequenceRefl(a[..|a| - 1]);
    }
  }

  lemma {:induction false} SubsequenceExtendRight<T>(a: seq<T>, b: seq<T>, c: seq<T>)
    requires IsSubsequence(a, b)
    ensures IsSubsequence(a, b + c)
    decreases |c|
  {
    if c == [] {
      assert b + c == b;
    } else if a != [] {
      assert (b + c)[..|b + c| - 1] == b + c[..|c| - 1];
      SubsequenceExtendRight(a, b, c[..|c| - 1]);
    }
  }

  lemma {:induction false} SubsequenceConcat<T>(a1: seq<T>, b1: seq<T>, a2: seq<T>, b2: seq<T>)
    requires IsSubsequence(a1, b1) && IsSubsequence(a2, b2)
    ensures IsSubsequence(a1 + a2, b1 + b2)
    decreases |b2|
  {
    if a2 == [] {
      assert a1 + a2 == a1;
      SubsequenceExtendRight(a1, b1, b2);
    } else {
      var a2' := a2[..|a2| - 1];
      var b2' := b2[..|b2| - 1];
      assert (a1 + a2)[..|a1 + a2| - 1] == a1 + a2';
      assert (b1 + b2)[..|b1 + b2| - 1] == b1 + b2';
      if a2[|a2| - 1] == b2[|b2| - 1] && IsSubsequence(a2', b2') {
        SubsequenceConcat(a1, b1, a2', b2');
      } else {
        SubsequenceConcat(a1, b1, a2, b2');
      }
    }
  }

  lemma {:induction false} SubsequenceTrans<T>(a: seq<T>, b: seq<T>, c: seq<T>)
    requires IsSubsequence(a, b) && IsSubsequence(b, c)
    ensures IsSubsequence(a, c)
    decreases |c|
  {
    if a != [] {
      var c' := c[..|c| - 1];
      if b[|b| - 1] == c[|c| - 1] && IsSubsequence(b[..|b| - 1], c') {
        if a[|a| - 1] == b[|b| - 1] && IsSubsequence(a[..|a| - 1], b[..|b| - 1]) {
          SubsequenceTrans(a[..|a| - 1], b[..|b| - 1], c');
        } else {
          SubsequenceTrans(a, b[..|b| - 1], c');
        }
      } else {
        SubsequenceTrans(a, b, c');
      }
    }
  }

  lemma {:induction false} PruneChildrenSubsequence(cs: seq<Node>, m: Matcher)
    ensures IsSubsequence(FlattenAll(PruneChildren(cs, m)), FlattenAll(cs))
    decreases cs
  {
    if cs == [] {
    } else {
      var rest := PruneChildren(cs[1..], m);
      PruneChildrenSubsequence(cs[1..], m);
      if cs[0].Element? && m(cs[0].data) {
        SubsequenceConcat([], Flatten(cs[0]), FlattenAll(rest), FlattenAll(cs[1..]));
        assert [] + FlattenAll(rest) == FlattenAll(rest);
      } else {
        var r := [Prune(cs[0], m)] + rest;
        assert r[0] == Prune(cs[0], m) && r[1..] == rest;
        PruneSubsequence(cs[0], m);
        SubsequenceConcat(Flatten(Prune(cs[0], m)), Flatten(cs[0]), FlattenAll(rest), FlattenAll(cs[1..]));
      }
    }
  }

  /** One pass only deletes nodes and keeps the others in document order. */
  lemma {:induction false} PruneSubsequence(t: Node, m: Matcher)
    ensures IsSubsequence(Flatten(Prune(t, m)), Flatten(t))
    decreases t
  {
    match t
    case Text(_) =>
      SubsequenceRefl(Flatten(t));
    case Element(d, cs) =>
      PruneChildrenSubsequence(cs, m);
      SubsequenceRefl([Open(d)]);
      SubsequenceConcat([Open(d)], [Open(d)], FlattenAll(PruneChildren(cs, m)), FlattenAll(cs));
  }

  /** All passes together only delete nodes and keep the others in order. */
  lemma {:induction false} PruneAllSubsequence(t: Node, selectors: seq<string>, compile: Compiler)
    ensures IsSubsequence(Flatten(PruneAll(t, selectors, compile)), Flatten(t))
    decreases |selectors|
  {
    if selectors == [] {
      SubsequenceRefl(Flatten(t));
    } else {
      var before := PruneAll(t, selectors[..|selectors| - 1], compile);
      PruneAllSubsequence(t, selectors[..|selectors| - 1], compile);
      match compile(selectors[|selectors| - 1]) {
        case None =>
        case Some(m) =>
          PruneSubsequence(before, m);
          SubsequenceTrans(Flatten(Prune(before, m)), Flatten(before), Flatten(t));
      }
    }
  }

  // ---------------------------------------------------------------------
  // What one pass removes: exactly the subtrees of the matched elements
  // that have no matched ancestor below the root

  /** The subtrees a pass by `m` cuts out of the siblings `cs`, in document
      order: each element `m` matches that is not inside another match. */
  function CutChildren(cs: seq<Node>, m: Matcher): (r: seq<Node>)
    decreases cs
    ensures forall i | 0 <= i < |r| :: r[i].Element? && m(r[i].data)
  {
    if cs == [] then []
    else
      var head := if cs[0].Element? && m(cs[0].data) then [cs[0]] else Cut(cs[0], m);
      var rest := CutChildren(cs[1..], m);
      assert forall i | |head| <= i < |head + rest| :: (head + rest)[i] == rest[i - |head|];
      head + rest
  }

  /** The subtrees a pass by `m` cuts out below `t`; every one of them is a
      matched element. */
  function Cut(t: Node, m: Matcher): (r: seq<Node>)
    decreases t
    ensures forall i | 0 <= i < |r| :: r[i].Element? && m(r[i].data)
  {
    match t
    case Text(_) => []
    case Element(_, cs) => CutChildren(cs, m)
  }

  lemma {:induction false} FlattenAllAppend(a: seq<Node>, b: seq<Node>)
    ensures FlattenAll(a + b) == FlattenAll(a) + FlattenAll(b)
    decreases |a|
  {
    if a == [] {
      assert a + b == b;
    } else {
      assert (a + b)[0] == a[0] && (a + b)[1..] == a[1..] + b;
      FlattenAllAppend(a[1..], b);
    }
  }

  /** A pass over siblings keeps every node that is not in a cut subtree:
      the nodes before the pass are those after it together with those of
      the cut subtrees. */
  lemma {:induction false} PruneChildrenSplit(cs: seq<Node>, m: Matcher)
    ensures multiset(FlattenAll(cs)) ==
      multiset(FlattenAll(PruneChildren(cs, m))) + multiset(FlattenAll(CutChildren(cs, m)))
    decreases cs
  {
    if cs != [] {
      var rest := cs[1..];
      PruneChildrenSplit(rest, m);
      var restKept, restCut := FlattenAll(PruneChildren(rest, m)), FlattenAll(CutChildren(rest, m));
      assert FlattenAll(cs) == Flatten(cs[0]) + FlattenAll(rest);
      if cs[0].Element? && m(cs[0].data) {
        assert PruneChildren(cs, m) == PruneChildren(rest, m);
        assert CutChildren(cs, m) == [cs[0]] + CutChildren(rest, m);
        FlattenAllAppend([cs[0]], CutChildren(rest, m));
        assert FlattenAll([cs[0]]) == Flatten(cs[0]) by {
          assert [cs[0]][1..] == [];
        }
        MultisetRegroup(Flatten(cs[0]), FlattenAll(rest), restKept, restCut);
      } else {
        PruneSplit(cs[0], m);
        var kept := [Prune(cs[0], m)] + PruneChildren(rest, m);
        assert PruneChildren(cs, m) == kept;
        assert kept[0] == Prune(cs[0], m) && kept[1..] == PruneChildren(rest, m);
        assert FlattenAll(kept) == Flatten(Prune(cs[0], m)) + restKept;
        assert CutChildren(cs, m) == Cut(cs[0], m) + CutChildren(rest, m);
        FlattenAllAppend(Cut(cs[0], m), CutChildren(rest, m));
        MultisetMerge(Flatten(cs[0]), FlattenAll(rest), Flatten(Prune(cs[0], m)), FlattenAll(Cut(cs[0], m)), restKept, restCut);
      }
    }
  }

  lemma MultisetMerge<T>(a: seq<T>, b: seq<T>, aKept: seq<T>, aCut: seq<T>, bKept: seq<T>, bCut: seq<T>)
    requires multiset(a) == multiset(aKept) + multiset(aCut)
    requires multiset(b) == multiset(bKept) + multiset(bCut)
    ensures multiset(a + b) == multiset(aKept + bKept) + multiset(aCut + bCut)
  {
  }

  lemma MultisetRegroup<T>(head: seq<T>, tail: seq<T>, kept: seq<T>, cut: seq<T>)
    requires multiset(tail) == multiset(kept) + multiset(cut)
    ensures multiset(head + tail) == multiset(kept) + multiset(head + cut)
  {
  }

  /** One pass removes exactly the cut subtrees: every node of `t` is either
      still in the pruned tree or in one of the subtrees of `Cut(t, m)`. */
  lemma {:induction false} PruneSplit(t: Node, m: Matcher)
    ensures multiset(Flatten(t)) == multiset(Flatten(Prune(t, m))) + multiset(FlattenAll(Cut(t, m)))
    decreases t
  {
    match t
    case Text(_) =>
    case Element(d, cs) =>
      PruneChildrenSplit(cs, m);
  }
}
