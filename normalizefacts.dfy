/**
 * What `normalize(_:)` guarantees: the output is never longer than the
 * input, a list that never indents deeper is returned as it is, a node is
 * only ever attached below the last root, no node is lost, and every node
 * below a root sits at a deeper level than that root.
 */
module NormalizeFacts {
  import opened Wrappers
  import opened Chars
  import opened Kinds
  import opened Nodes
  import opened Initializers

  // ---------------------------------------------------------------------
  // The right spine and `parent(of:)`
  // ---------------------------------------------------------------------

  /** Every node on the right spine has a parent that `parent(of:)` finds. */
  lemma {:induction false} SpineHasParent(n: Node, s: Node)
    requires s in RightSpine(n)
    ensures ParentOf(n, s).Some?
    decreases n
  {
    if s !in n.children {
      SpineHasParent(LastOf(n.children), s);
    }
  }

  /** A node is never its own parent. */
  lemma RootHasNoParent(n: Node)
    ensures ParentOf(n, n).None?
  {
    forall c | c in n.children
      ensures c != n
    {
      ChildSmaller(n, c);
    }
    forall s, c | s in RightSpine(n) && c in s.children
      ensures c != n
    {
      SpineSmaller(n, s);
      ChildSmaller(s, c);
    }
  }

  /** The parent of a node on the spine, or of the root's child, is the root or on the spine. */
  lemma ParentOnPath(root: Node, child: Node)
    requires ParentOf(root, child).Some?
    ensures var p := ParentOf(root, child).value; p == root || p in RightSpine(root)
  {
  }

  // ---------------------------------------------------------------------
  // Sizes
  // ---------------------------------------------------------------------

  /** The number of nodes in a forest. */
  function SizeSum(cs: seq<Node>): nat
    decreases |cs|
  {
    if cs == [] then 0 else Size(cs[0]) + SizeSum(cs[1..])
  }

  lemma {:induction false} ChildrenSizeIsSum(n: Node, i: nat)
    requires i <= |n.children|
    ensures ChildrenSize(n, i) == SizeSum(n.children[i..])
    decreases |n.children| - i
  {
    if i < |n.children| {
      ChildrenSizeIsSum(n, i + 1);
      assert n.children[i..][1..] == n.children[i + 1..];
    }
  }

  /** A node counts itself and every node below it. */
  lemma SizeIsSum(n: Node)
    ensures Size(n) == 1 + SizeSum(n.children)
  {
    ChildrenSizeIsSum(n, 0);
    assert n.children[0..] == n.children;
  }

  lemma {:induction false} SizeSumAppend(cs: seq<Node>, x: Node)
    ensures SizeSum(cs + [x]) == SizeSum(cs) + Size(x)
    decreases |cs|
  {
    if cs != [] {
      assert (cs + [x])[1..] == cs[1..] + [x];
      SizeSumAppend(cs[1..], x);
    }
  }

  lemma {:induction false} SizeSumUpdate(cs: seq<Node>, j: nat, u: Node)
    requires j < |cs|
    ensures SizeSum(cs[j := u]) == SizeSum(cs) - Size(cs[j]) + Size(u)
    decreases |cs|
  {
    if j > 0 {
      assert cs[j := u][1..] == cs[1..][j - 1 := u];
      SizeSumUpdate(cs[1..], j - 1, u);
    } else {
      assert cs[j := u][1..] == cs[1..];
    }
  }

  /** `append(child:)` adds the appended node's size. */
  lemma AppendChildSize(n: Node, c: Node)
    ensures Size(AppendChild(n, c)) == Size(n) + Size(c)
  {
    SizeIsSum(n);
    SizeIsSum(AppendChild(n, c));
    SizeSumAppend(n.children, c);
  }

  /** `replace(child:with:)` swaps the size of the replaced child for that of its replacement. */
  lemma ReplaceChildSize(p: Node, child: Node, u: Node)
    requires child in p.children
    ensures Size(ReplaceChild(p, child, u).0) + Size(child) == Size(p) + Size(u)
  {
    var i := FirstIndexOf(p.children, child);
    var r := ReplaceChild(p, child, u).0;
    assert r.children == p.children[i := u];
    SizeIsSum(p);
    SizeIsSum(r);
    SizeSumUpdate(p.children, i, u);
  }

  // ---------------------------------------------------------------------
  // Levels below a root
  // ---------------------------------------------------------------------

  /** Every node below `n` is at a level deeper than `level`. */
  predicate Under(n: Node, level: nat)
    decreases n
  {
    forall c :: c in n.children ==> c.tabLevel > level && Under(c, level)
  }

  /** Every node below a root sits deeper than the root itself. */
  predicate Nested(n: Node) {
    Under(n, n.tabLevel)
  }

  lemma {:induction false} UnderMono(n: Node, a: nat, b: nat)
    requires a <= b && Under(n, b)
    ensures Under(n, a)
    decreases n
  {
    forall c | c in n.children
      ensures Under(c, a)
    {
      UnderMono(c, a, b);
    }
  }

  lemma {:induction false} UnderSpine(n: Node, s: Node, level: nat)
    requires Under(n, level) && s in RightSpine(n)
    ensures Under(s, level) && s.tabLevel > level
    decreases n
  {
    var last := LastOf(n.children);
    if s != last {
      UnderSpine(last, s, level);
    }
  }

  lemma UnderAppend(n: Node, c: Node, level: nat)
    requires Under(n, level) && Under(c, level) && c.tabLevel > level
    ensures Under(AppendChild(n, c), level)
  {
  }

  lemma UnderReplace(p: Node, child: Node, u: Node, level: nat)
    requires Under(p, level) && Under(u, level) && u.tabLevel == child.tabLevel
    ensures Under(ReplaceChild(p, child, u).0, level)
  {
    if child in p.children {
      var i := FirstIndexOf(p.children, child);
      assert ReplaceChild(p, child, u).0.children == p.children[i := u];
    }
  }

  // ---------------------------------------------------------------------
  // The climb
  // ---------------------------------------------------------------------

  /** Climbing from the root or a spine node gives back an updated copy of the root. */
  lemma {:induction false} ClimbShape(root: Node, child: Node, u: Node)
    requires child == root || child in RightSpine(root)
    requires IsEqualWithoutChildren(u, child)
    ensures IsEqualWithoutChildren(Climb(root, child, u), root)
    decreases if Size(child) < Size(root) then Size(root) - Size(child) else 0
  {
    var p := ParentOf(root, child);
    if child == root {
      RootHasNoParent(root);
    } else {
      SpineHasParent(root, child);
      ParentSmaller(root, child, p.value);
      ClimbShape(root, p.value, ReplaceChild(p.value, child, u).0);
    }
  }

  /** The climb swaps the size of the searched node for that of its update. */
  lemma {:induction false} ClimbSize(root: Node, child: Node, u: Node)
    requires child == root || child in RightSpine(root)
    ensures Size(Climb(root, child, u)) + Size(child) == Size(root) + Size(u)
    decreases if Size(child) < Size(root) then Size(root) - Size(child) else 0
  {
    var p := ParentOf(root, child);
    if child == root {
      RootHasNoParent(root);
    } else {
      SpineHasParent(root, child);
      ParentSmaller(root, child, p.value);
      ReplaceChildSize(p.value, child, u);
      ClimbSize(root, p.value, ReplaceChild(p.value, child, u).0);
    }
  }

  /** The climb puts nothing at or above `level` below the root. */
  lemma {:induction false} ClimbUnder(root: Node, child: Node, u: Node, level: nat)
    requires Under(root, level) && Under(u, level)
    requires child == root || child in RightSpine(root)
    requires u.tabLevel == child.tabLevel
    ensures Under(Climb(root, child, u), level)
    decreases if Size(child) < Size(root) then Size(root) - Size(child) else 0
  {
    var p := ParentOf(root, child);
    if child == root {
      RootHasNoParent(root);
    } else {
      SpineHasParent(root, child);
      ParentSmaller(root, child, p.value);
      if p.value != root {
        UnderSpine(root, p.value, level);
      }
      UnderReplace(p.value, child, u, level);
      ClimbUnder(root, p.value, ReplaceChild(p.value, child, u).0, level);
    }
  }

  /** Appending below `bottom` and climbing from its parent. */
  lemma RebuildFacts(root: Node, bottom: Node, parentOfBottom: Node, model: Node)
    requires ParentOf(root, bottom) == Some(parentOfBottom)
    ensures IsEqualWithoutChildren(Rebuild(root, bottom, parentOfBottom, model), root)
    ensures Size(Rebuild(root, bottom, parentOfBottom, model)) == Size(root) + Size(model)
  {
    var ub := AppendChild(bottom, model);
    var up := ReplaceChild(parentOfBottom, bottom, ub).0;
    ParentOnPath(root, bottom);
    ClimbShape(root, parentOfBottom, up);
    AppendChildSize(bottom, model);
    ReplaceChildSize(parentOfBottom, bottom, ub);
    ClimbSize(root, parentOfBottom, up);
  }

  lemma RebuildUnder(root: Node, bottom: Node, parentOfBottom: Node, model: Node)
    requires ParentOf(root, bottom) == Some(parentOfBottom)
    requires Under(root, root.tabLevel) && Nested(model) && model.tabLevel > root.tabLevel
    ensures Under(Rebuild(root, bottom, parentOfBottom, model), root.tabLevel)
  {
    var level := root.tabLevel;
    var ub := AppendChild(bottom, model);
    var up := ReplaceChild(parentOfBottom, bottom, ub).0;
    ParentOnPath(root, bottom);
    if parentOfBottom != root {
      UnderSpine(root, parentOfBottom, level);
    }
    UnderMono(model, level, model.tabLevel);
    UnderAppend(bottom, model, level);
    UnderReplace(parentOfBottom, bottom, ub, level);
    ClimbUnder(root, parentOfBottom, up, level);
  }

  // ---------------------------------------------------------------------
  // The decision
  // ---------------------------------------------------------------------

  /**
   * A node deeper than the last root always replaces that last root, by an
   * updated copy of it that holds one node more.
   */
  lemma DecideReplacesLast(model: Node, list: seq<Node>)
    requires list != [] && model.tabLevel > list[|list| - 1].tabLevel
    ensures var c := Decide(model, list);
      c.ReplaceInList? && c.original == list[|list| - 1] &&
      IsEqualWithoutChildren(c.replacement, c.original) &&
      Size(c.replacement) == Size(c.original) + Size(model)
  {
    var last := list[|list| - 1];
    var same := LastChildWith(last, model.tabLevel);
    if same.Some? && ParentOf(last, same.value).Some? {
      var p := ParentOf(last, same.value).value;
      var gp := ParentOf(last, p);
      if gp.Some? {
        RebuildFacts(last, p, gp.value, model);
      } else {
        ParentOnPath(last, same.value);
        if p in RightSpine(last) {
          SpineHasParent(last, p);
        }
        assert p == last;
        AppendChildSize(p, model);
      }
    } else {
      var lc := LastChild(last);
      if lc.Some? && ParentOf(last, lc.value).Some? && lc.value.children == [] {
        RebuildFacts(last, lc.value, ParentOf(last, lc.value).value, model);
      } else {
        AppendChildSize(last, model);
      }
    }
  }

  /** The replacement keeps every node below the last root deeper than it. */
  lemma DecideNested(model: Node, list: seq<Node>)
    requires list != [] && model.tabLevel > list[|list| - 1].tabLevel
    requires Nested(list[|list| - 1]) && Nested(model)
    ensures Decide(model, list).ReplaceInList? && Nested(Decide(model, list).replacement)
  {
    var last := list[|list| - 1];
    DecideReplacesLast(model, list);
    UnderMono(model, last.tabLevel, model.tabLevel);
    var same := LastChildWith(last, model.tabLevel);
    if same.Some? && ParentOf(last, same.value).Some? {
      var p := ParentOf(last, same.value).value;
      var gp := ParentOf(last, p);
      if gp.Some? {
        RebuildUnder(last, p, gp.value, model);
      } else {
        UnderAppend(p, model, last.tabLevel);
      }
    } else {
      var lc := LastChild(last);
      if lc.Some? && ParentOf(last, lc.value).Some? && lc.value.children == [] {
        RebuildUnder(last, lc.value, ParentOf(last, lc.value).value, model);
      } else {
        UnderAppend(last, model, last.tabLevel);
      }
    }
  }

  // ---------------------------------------------------------------------
  // One pass of the loop
  // ---------------------------------------------------------------------

  /** A node no deeper than the last root starts a new root, unchanged. */
  lemma StepAppends(list: seq<Node>, model: Node)
    requires list == [] || model.tabLevel <= list[|list| - 1].tabLevel
    ensures Step(list, model) == list + [model]
  {
  }

  /**
   * A deeper node replaces the last root in place; the earlier roots are
   * untouched, so the fallback append of `normalize(_:)` is never taken.
   */
  lemma StepReplacesLast(list: seq<Node>, model: Node)
    requires list != [] && model.tabLevel > list[|list| - 1].tabLevel
    ensures var r := Step(list, model);
      |r| == |list| && r[..|list| - 1] == list[..|list| - 1] &&
      IsEqualWithoutChildren(r[|list| - 1], list[|list| - 1]) &&
      Size(r[|list| - 1]) == Size(list[|list| - 1]) + Size(model)
  {
    DecideReplacesLast(model, list);
    assert LastIndexOf(list, list[|list| - 1]) == |list| - 1;
  }

  // ---------------------------------------------------------------------
  // The whole fold
  // ---------------------------------------------------------------------

  /** The fold takes the models one at a time, from the front. */
  lemma NormalizedSnoc(models: seq<Node>, m: Node)
    ensures Normalized(models + [m]) == Step(Normalized(models), m)
  {
    assert (models + [m])[..|models|] == models;
  }

  /** Each model adds at most one root, and a non-empty input gives at least one. */
  lemma {:induction false} NormalizedLength(models: seq<Node>)
    ensures |Normalized(models)| <= |models|
    ensures models != [] ==> |Normalized(models)| >= 1
    decreases |models|
  {
    if models != [] {
      var prefix := models[..|models| - 1];
      var m := models[|models| - 1];
      NormalizedLength(prefix);
      var list := Normalized(prefix);
      if list == [] || m.tabLevel <= list[|list| - 1].tabLevel {
        StepAppends(list, m);
      } else {
        StepReplacesLast(list, m);
      }
    }
  }

  /** A list that never goes deeper than the node before is returned unchanged. */
  lemma {:induction false} NormalizedFlat(models: seq<Node>)
    requires forall i :: 0 < i < |models| ==> models[i].tabLevel <= models[i - 1].tabLevel
    ensures Normalized(models) == models
    decreases |models|
  {
    if models != [] {
      var prefix := models[..|models| - 1];
      NormalizedFlat(prefix);
      StepAppends(prefix, models[|models| - 1]);
      FrontAndLast(models);
    }
  }

  /** No node is lost or duplicated: the forest holds as many nodes as the models. */
  lemma {:induction false} NormalizedSize(models: seq<Node>)
    ensures SizeSum(Normalized(models)) == SizeSum(models)
    decreases |models|
  {
    if models != [] {
      var prefix := models[..|models| - 1];
      var m := models[|models| - 1];
      NormalizedSize(prefix);
      var list := Normalized(prefix);
      if list == [] || m.tabLevel <= list[|list| - 1].tabLevel {
        StepAppends(list, m);
        SizeSumAppend(list, m);
      } else {
        DecideReplacesLast(m, list);
        assert LastIndexOf(list, list[|list| - 1]) == |list| - 1;
        SizeSumUpdate(list, |list| - 1, Decide(m, list).replacement);
      }
      SizeSumAppend(prefix, m);
      FrontAndLast(models);
    }
  }

  /** When every model is nested, so is every root of the forest; leaves are. */
  lemma {:induction false} NormalizedNested(models: seq<Node>)
    requires forall i :: 0 <= i < |models| ==> Nested(models[i])
    ensures forall k :: 0 <= k < |Normalized(models)| ==> Nested(Normalized(models)[k])
    decreases |models|
  {
    if models != [] {
      var prefix := models[..|models| - 1];
      var m := models[|models| - 1];
      NormalizedNested(prefix);
      var list := Normalized(prefix);
      if list == [] || m.tabLevel <= list[|list| - 1].tabLevel {
        StepAppends(list, m);
      } else {
        DecideNested(m, list);
        assert LastIndexOf(list, list[|list| - 1]) == |list| - 1;
      }
    }
  }
}
