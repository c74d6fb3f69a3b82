/**
 * `TMType.parse(string:)`, `TMType.normalize(_:)` and
 * `decideHowToHandle(model:into:)`: the text is split into lines, each line
 * becomes one node, and the flat list is folded into a forest by tab level.
 * Attaching a node below the last root rebuilds the path from the
 * attachment point up to that root, one `parent(of:)` step at a time.
 */
module Initializers {
  import opened Wrappers
  import opened Chars
  import opened Kinds
  import opened Nodes
  import opened LineParser
  import opened LineFacts

  // ---------------------------------------------------------------------
  // Splitting the text into lines
  // ---------------------------------------------------------------------

  /** `split(separator: "\n", omittingEmptySubsequences: false)`. */
  function Lines(s: string): (r: seq<string>)
    ensures |r| >= 1
    ensures forall k :: 0 <= k < |r| ==> '\n' !in r[k]
    decreases |s|
  {
    var i := FirstIndexOf(s, '\n');
    if i == -1 then [s] else [s[..i]] + Lines(s[i + 1..])
  }

  /** The lines put back together, a line break between each two. */
  function JoinLines(ls: seq<string>): string
    requires |ls| >= 1
    decreases |ls|
  {
    if |ls| == 1 then ls[0] else ls[0] + "\n" + JoinLines(ls[1..])
  }

  /** Splitting loses nothing: the lines joined again are the text. */
  lemma {:induction false} JoinLinesOfLines(s: string)
    ensures JoinLines(Lines(s)) == s
    decreases |s|
  {
    var i := FirstIndexOf(s, '\n');
    if i != -1 {
      JoinLinesOfLines(s[i + 1..]);
      SplitAtNewline(s, i);
    }
  }

  /** A first line cut off at its line break. */
  lemma LinesOfJoined(a: string, rest: string)
    requires '\n' !in a
    ensures Lines(a + "\n" + rest) == [a] + Lines(rest)
  {
    JoinedAtNewline(a, rest);
  }

  /** Lines without line breaks, joined and split again, come back as they were. */
  lemma {:induction false} LinesOfJoinLines(ls: seq<string>)
    requires |ls| >= 1 && forall k :: 0 <= k < |ls| ==> '\n' !in ls[k]
    ensures Lines(JoinLines(ls)) == ls
    decreases |ls|
  {
    if |ls| > 1 {
      assert '\n' !in ls[0];
      LinesOfJoined(ls[0], JoinLines(ls[1..]));
      LinesOfJoinLines(ls[1..]);
      assert ls == [ls[0]] + ls[1..];
    }
  }

  /** The number of line breaks in `s`. */
  function NewlineCount(s: string): nat {
    multiset(s)['\n']
  }

  /** One line more than there are line breaks, empty lines included. */
  lemma {:induction false} LinesCount(s: string)
    ensures |Lines(s)| == NewlineCount(s) + 1
    decreases |s|
  {
    var i := FirstIndexOf(s, '\n');
    if i != -1 {
      LinesCount(s[i + 1..]);
      assert s == s[..i] + [s[i]] + s[i + 1..];
      assert '\n' !in s[..i];
      assert multiset(s) == multiset(s[..i]) + multiset([s[i]]) + multiset(s[i + 1..]);
    } else {
      assert '\n' !in s;
    }
  }

  // ---------------------------------------------------------------------
  // `parse(string:)`
  // ---------------------------------------------------------------------

  /** The node for one line: what `toTMType` gives, or the whole line as text at level 0. */
  function LineNode(line: string): Node {
    var parsed := ParseLine(line);
    if parsed.Some? then parsed.value else Leaf(0, Text(line))
  }

  /** `parse(string:)`: one node per line, in order. */
  method Parse(s: string) returns (models: seq<Node>)
    ensures |models| == |Lines(s)|
    ensures forall i :: 0 <= i < |models| ==> models[i] == LineNode(Lines(s)[i])
  {
    var lines := Lines(s);
    models := [];
    for i := 0 to |lines|
      invariant |models| == i
      invariant forall k :: 0 <= k < i ==> models[k] == LineNode(lines[k])
    {
      var line := lines[i];
      var model := ToTMType(line);
      if model.Some? {
        models := models + [model.value];
      } else {
        models := models + [Leaf(0, Text(line))];
      }
    }
  }

  /** An empty line is kept, as empty text at level 0. */
  lemma EmptyLineNode()
    ensures LineNode("") == Leaf(0, Text(""))
  {
    ParseEmptyLine();
  }

  /** A line the parser rejects is kept whole, as text at level 0. */
  lemma RejectedLineNode(line: string)
    requires forall i: nat, h: nat, j: nat :: !CanSplit(line, i, h, j)
    ensures LineNode(line) == Leaf(0, Text(line))
  {
    ParseLineNone(line);
  }

  // ---------------------------------------------------------------------
  // The climb and the decision
  // ---------------------------------------------------------------------

  /** `Choice`: append a node to the list, or replace one of its nodes. */
  datatype Choice = AppendToList(model: Node) | ReplaceInList(original: Node, replacement: Node)

  /** A parent that `parent(of:)` finds is larger than the child and no larger than the root. */
  lemma ParentSmaller(root: Node, child: Node, p: Node)
    requires ParentOf(root, child) == Some(p)
    ensures Size(child) < Size(p) <= Size(root)
  {
    ChildSmaller(p, child);
    if p != root { SpineSmaller(root, p); }
  }

  /**
   * The `while let parent = lastInList.parent(of: childToSearch)` loop:
   * replace the child searched for by its updated copy in its parent, and
   * go on with the parent, until no parent is found.
   */
  function Climb(root: Node, child: Node, updated: Node): Node
    decreases if Size(child) < Size(root) then Size(root) - Size(child) else 0
  {
    var p := ParentOf(root, child);
    if p.None? then updated
    else
      ParentSmaller(root, child, p.value);
      Climb(root, p.value, ReplaceChild(p.value, child, updated).0)
  }

  /** Append `model` below `bottom`, replace `bottom` in its parent, and climb from there. */
  function Rebuild(root: Node, bottom: Node, parentOfBottom: Node, model: Node): Node {
    Climb(root, parentOfBottom, ReplaceChild(parentOfBottom, bottom, AppendChild(bottom, model)).0)
  }

  /** The decision once the list has a last root `last`. */
  function DecideBelow(model: Node, last: Node): (c: Choice)
    ensures c.AppendToList? <==> model.tabLevel <= last.tabLevel
    ensures c.AppendToList? ==> c.model == model
  {
    if model.tabLevel <= last.tabLevel then AppendToList(model)
    else
      var same := LastChildWith(last, model.tabLevel);
      if same.Some? && ParentOf(last, same.value).Some? then
        var p := ParentOf(last, same.value).value;
        var gp := ParentOf(last, p);
        if gp.Some? then ReplaceInList(last, Rebuild(last, p, gp.value, model))
        else ReplaceInList(p, AppendChild(p, model))
      else
        var lc := LastChild(last);
        if lc.Some? && ParentOf(last, lc.value).Some? && lc.value.children == [] then
          ReplaceInList(last, Rebuild(last, lc.value, ParentOf(last, lc.value).value, model))
        else ReplaceInList(last, AppendChild(last, model))
  }

  /** `decideHowToHandle(model:into:)`. */
  function Decide(model: Node, list: seq<Node>): (c: Choice)
    ensures c.AppendToList? <==> list == [] || model.tabLevel <= list[|list| - 1].tabLevel
    ensures c.AppendToList? ==> c.model == model
  {
    if list == [] then AppendToList(model) else DecideBelow(model, list[|list| - 1])
  }

  /** `decideHowToHandle(model:into:)` as it is written, with its climbing loop. */
  method DecideHowToHandle(model: Node, list: seq<Node>) returns (c: Choice)
    ensures c == Decide(model, list)
  {
    if list == [] {
      return AppendToList(model);
    }
    var lastInList := list[|list| - 1];
    if model.tabLevel <= lastInList.tabLevel {
      return AppendToList(model);
    }
    var bottomToAppend: Node;
    var parentOfBottom: Node;
    var sameLevel := LastChildWith(lastInList, model.tabLevel);
    var parentOfSame := if sameLevel.Some? then ParentOf(lastInList, sameLevel.value) else None;
    if sameLevel.Some? && parentOfSame.Some? {
      var grandParent := ParentOf(lastInList, parentOfSame.value);
      if grandParent.Some? {
        bottomToAppend := parentOfSame.value;
        parentOfBottom := grandParent.value;
      } else {
        var updatedParent := AppendChild(parentOfSame.value, model);
        return ReplaceInList(parentOfSame.value, updatedParent);
      }
    } else {
      var lastChild := LastChild(lastInList);
      var parentOfLast := if lastChild.Some? then ParentOf(lastInList, lastChild.value) else None;
      if lastChild.Some? && parentOfLast.Some? && lastChild.value.children == [] {
        bottomToAppend := lastChild.value;
        parentOfBottom := parentOfLast.value;
      } else {
        var updatedLast := AppendChild(lastInList, model);
        return ReplaceInList(lastInList, updatedLast);
      }
    }
    var updatedBottom := AppendChild(bottomToAppend, model);
    var updatedParent := ReplaceChild(parentOfBottom, bottomToAppend, updatedBottom).0;
    var childToSearch := parentOfBottom;
    ghost var target := Climb(lastInList, childToSearch, updatedParent);
    assert target == Rebuild(lastInList, bottomToAppend, parentOfBottom, model);
    var parent := ParentOf(lastInList, childToSearch);
    while parent.Some?
      invariant parent == ParentOf(lastInList, childToSearch)
      invariant Climb(lastInList, childToSearch, updatedParent) == target
      decreases if Size(childToSearch) < Size(lastInList) then Size(lastInList) - Size(childToSearch) else 0
    {
      ParentSmaller(lastInList, childToSearch, parent.value);
      var updatedParentToReplace := ReplaceChild(parent.value, childToSearch, updatedParent).0;
      childToSearch := parent.value;
      updatedParent := updatedParentToReplace;
      parent := ParentOf(lastInList, childToSearch);
    }
    return ReplaceInList(lastInList, updatedParent);
  }

  // ---------------------------------------------------------------------
  // `normalize(_:)`
  // ---------------------------------------------------------------------

  /** One pass of the `forEach` body: carry out the decision on the list. */
  function Step(list: seq<Node>, model: Node): seq<Node> {
    var c := Decide(model, list);
    if c.AppendToList? then list + [c.model]
    else
      var index := LastIndexOf(list, c.original);
      if index >= 0 then list[index := c.replacement] else list + [model]
  }

  /** `normalize(_:)` on the first `|models|` models. */
  function Normalized(models: seq<Node>): seq<Node>
    decreases |models|
  {
    if models == [] then []
    else Step(Normalized(models[..|models| - 1]), models[|models| - 1])
  }

  /** `normalize(_:)` as it is written: a loop that updates the list it builds. */
  method Normalize(models: seq<Node>) returns (updatedList: seq<Node>)
    ensures updatedList == Normalized(models)
  {
    if models == [] {
      return models;
    }
    updatedList := [];
    for i := 0 to |models|
      invariant updatedList == Normalized(models[..i])
    {
      var model := models[i];
      assert models[..i + 1][..i] == models[..i];
      var choice := DecideHowToHandle(model, updatedList);
      if choice.AppendToList? {
        updatedList := updatedList + [choice.model];
      } else {
        var index := LastIndexOf(updatedList, choice.original);
        if index >= 0 {
          updatedList := updatedList[index := choice.replacement];
        } else {
          updatedList := updatedList + [model];
        }
      }
    }
    assert models[..|models|] == models;
  }
}
