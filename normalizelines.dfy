/**
 * `normalize(_:)` keeps the lines of the outline: the forest it builds,
 * read node by node, holds exactly the nodes it was given, each as often
 * as it was given, whatever order the climb leaves them in.
 */
module NormalizeLines {
  import opened Wrappers
  import opened Chars
  import opened Kinds
  import opened Nodes
  import opened Initializers
  import opened NormalizeFacts
  import opened NormalizeFixed

  /** The lines of a tree, as a multiset. */
  function LinesOf(n: Node): multiset<Node> {
    multiset(Flatten(n))
  }

  /** The lines of a forest, as a multiset. */
  function LinesOfAll(cs: seq<Node>): multiset<Node> {
    multiset(FlattenAll(cs))
  }

  /** A tree's lines are its own line and the lines of its children. */
  lemma LinesOfNode(n: Node)
    ensures LinesOf(n) == multiset{Strip(n)} + LinesOfAll(n.children)
  {
    assert Flatten(n) == [Strip(n)] + FlattenAll(n.children);
  }

  lemma LinesOfAllSnoc(cs: seq<Node>, x: Node)
    ensures LinesOfAll(cs + [x]) == LinesOfAll(cs) + LinesOf(x)
  {
    FlattenAllSnoc(cs, x);
  }

  /** Swapping `c` for `u` inside a part that swaps `p` for `r`. */
  lemma SwapChain(x: multiset<Node>, p: multiset<Node>, c: multiset<Node>,
                  root: multiset<Node>, r: multiset<Node>, u: multiset<Node>)
    requires x + p == root + r && r + c == p + u
    ensures x + c == root + u
  {
    forall e ensures (x + c)[e] == (root + u)[e] {
      assert (x + p)[e] == (root + r)[e];
      assert (r + c)[e] == (p + u)[e];
    }
  }

  /** Replacing one tree of a forest swaps its lines for those of the replacement. */
  lemma {:induction false} LinesOfAllUpdate(cs: seq<Node>, j: nat, u: Node)
    requires j < |cs|
    ensures LinesOfAll(cs[j := u]) + LinesOf(cs[j]) == LinesOfAll(cs) + LinesOf(u)
    decreases |cs|
  {
    var init, last := cs[..|cs| - 1], cs[|cs| - 1];
    FrontAndLast(cs);
    LinesOfAllSnoc(init, last);
    if j == |cs| - 1 {
      assert cs[j := u] == init + [u];
      LinesOfAllSnoc(init, u);
    } else {
      assert cs[j := u] == init[j := u] + [last];
      assert cs[j] == init[j];
      LinesOfAllSnoc(init[j := u], last);
      LinesOfAllUpdate(init, j, u);
      SwapBefore(LinesOfAll(init[j := u]), LinesOfAll(init), LinesOf(init[j]), LinesOf(u), LinesOf(last));
    }
  }

  /** A swap in the front of a forest is a swap in the whole of it. */
  lemma SwapBefore(a: multiset<Node>, i: multiset<Node>, c: multiset<Node>, lu: multiset<Node>, ll: multiset<Node>)
    requires a + c == i + lu
    ensures a + ll + c == i + ll + lu
  {
    forall e ensures (a + ll + c)[e] == (i + ll + lu)[e] {
      assert (a + c)[e] == (i + lu)[e];
    }
  }

  /** `append(child:)` adds the lines of the appended node. */
  lemma AppendChildLines(n: Node, c: Node)
    ensures LinesOf(AppendChild(n, c)) == LinesOf(n) + LinesOf(c)
  {
    assert Strip(AppendChild(n, c)) == Strip(n);
    LinesOfNode(n);
    LinesOfNode(AppendChild(n, c));
    LinesOfAllSnoc(n.children, c);
  }

  /** `replace(child:with:)` swaps the lines of the replaced child for those of its replacement. */
  lemma ReplaceChildLines(p: Node, child: Node, u: Node)
    requires child in p.children
    ensures LinesOf(ReplaceChild(p, child, u).0) + LinesOf(child) == LinesOf(p) + LinesOf(u)
  {
    var i := FirstIndexOf(p.children, child);
    var r := ReplaceChild(p, child, u).0;
    assert r.children == p.children[i := u];
    assert Strip(r) == Strip(p);
    LinesOfNode(p);
    LinesOfNode(r);
    LinesOfAllUpdate(p.children, i, u);
    var top, a, b := multiset{Strip(p)}, LinesOfAll(r.children), LinesOfAll(p.children);
    forall e ensures (top + a + LinesOf(child))[e] == (top + b + LinesOf(u))[e] {
      assert (a + LinesOf(child))[e] == (b + LinesOf(u))[e];
    }
  }

  /** The climb swaps the lines of the searched node for those of its update. */
  lemma {:induction false} ClimbLines(root: Node, child: Node, u: Node)
    requires child == root || child in RightSpine(root)
    ensures LinesOf(Climb(root, child, u)) + LinesOf(child) == LinesOf(root) + LinesOf(u)
    decreases if Size(child) < Size(root) then Size(root) - Size(child) else 0
  {
    var p := ParentOf(root, child);
    if child == root {
      RootHasNoParent(root);
    } else {
      SpineHasParent(root, child);
      ParentSmaller(root, child, p.value);
      ParentOnPath(root, child);
      var r := ReplaceChild(p.value, child, u).0;
      ReplaceChildLines(p.value, child, u);
      ClimbLines(root, p.value, r);
      SwapChain(LinesOf(Climb(root, p.value, r)), LinesOf(p.value), LinesOf(child), LinesOf(root), LinesOf(r), LinesOf(u));
    }
  }

  /** Appending below `bottom` and climbing from its parent adds the lines of the model. */
  lemma RebuildLines(root: Node, bottom: Node, parentOfBottom: Node, model: Node)
    requires ParentOf(root, bottom) == Some(parentOfBottom)
    ensures LinesOf(Rebuild(root, bottom, parentOfBottom, model)) == LinesOf(root) + LinesOf(model)
  {
    var ub := AppendChild(bottom, model);
    var up := ReplaceChild(parentOfBottom, bottom, ub).0;
    ParentOnPath(root, bottom);
    AppendChildLines(bottom, model);
    ReplaceChildLines(parentOfBottom, bottom, ub);
    ClimbLines(root, parentOfBottom, up);
    var x := LinesOf(Climb(root, parentOfBottom, up));
    SwapChain(x, LinesOf(parentOfBottom), LinesOf(bottom), LinesOf(root), LinesOf(up), LinesOf(ub));
    Cancel(x, LinesOf(root), LinesOf(ub), LinesOf(bottom), LinesOf(model));
  }

  /** A node deeper than the last root is put into it, with all the lines it holds. */
  lemma DecideLines(model: Node, list: seq<Node>)
    requires list != [] && model.tabLevel > list[|list| - 1].tabLevel
    ensures var c := Decide(model, list);
      c.ReplaceInList? && c.original == list[|list| - 1] &&
      LinesOf(c.replacement) == LinesOf(c.original) + LinesOf(model)
  {
    DecideReplacesLast(model, list);
    var last := list[|list| - 1];
    var same := LastChildWith(last, model.tabLevel);
    if same.Some? && ParentOf(last, same.value).Some? {
      var p := ParentOf(last, same.value).value;
      var gp := ParentOf(last, p);
      if gp.Some? {
        RebuildLines(last, p, gp.value, model);
      } else {
        AppendChildLines(p, model);
      }
    } else {
      var lc := LastChild(last);
      if lc.Some? && ParentOf(last, lc.value).Some? && lc.value.children == [] {
        RebuildLines(last, lc.value, ParentOf(last, lc.value).value, model);
      } else {
        AppendChildLines(last, model);
      }
    }
  }

  /** A deeper model replaces the last root by a copy that holds the model's lines too. */
  lemma StepDeeperLines(list: seq<Node>, m: Node)
    requires list != [] && m.tabLevel > list[|list| - 1].tabLevel
    ensures LinesOfAll(Step(list, m)) == LinesOfAll(list) + LinesOf(m)
  {
    var rep := DeeperReplacement(list, m);
    LinesOfAllUpdate(list, |list| - 1, rep);
    Cancel(LinesOfAll(Step(list, m)), LinesOfAll(list), LinesOf(rep), LinesOf(list[|list| - 1]), LinesOf(m));
  }

  /** The copy that a deeper model puts in place of the last root. */
  lemma DeeperReplacement(list: seq<Node>, m: Node) returns (rep: Node)
    requires list != [] && m.tabLevel > list[|list| - 1].tabLevel
    ensures Step(list, m) == list[|list| - 1 := rep]
    ensures LinesOf(rep) == LinesOf(list[|list| - 1]) + LinesOf(m)
  {
    DecideLines(m, list);
    assert LastIndexOf(list, list[|list| - 1]) == |list| - 1;
    rep := Decide(m, list).replacement;
  }

  /** Cancelling the lines of the replaced tree on both sides. */
  lemma Cancel(a: multiset<Node>, b: multiset<Node>, lr: multiset<Node>, ll: multiset<Node>, lm: multiset<Node>)
    requires a + ll == b + lr && lr == ll + lm
    ensures a == b + lm
  {
    forall e ensures a[e] == (b + lm)[e] {
      assert (a + ll)[e] == (b + lr)[e];
    }
  }

  /** One pass of the loop adds the lines of the model. */
  lemma StepLines(list: seq<Node>, m: Node)
    ensures LinesOfAll(Step(list, m)) == LinesOfAll(list) + LinesOf(m)
  {
    if list == [] || m.tabLevel <= list[|list| - 1].tabLevel {
      StepAppends(list, m);
      LinesOfAllSnoc(list, m);
    } else {
      StepDeeperLines(list, m);
    }
  }

  /** No line is lost or duplicated: the forest holds exactly the lines of the models. */
  lemma {:induction false} NormalizedLines(models: seq<Node>)
    ensures LinesOfAll(Normalized(models)) == LinesOfAll(models)
    decreases |models|
  {
    if models != [] {
      var prefix := models[..|models| - 1];
      var m := models[|models| - 1];
      NormalizedLines(prefix);
      StepLines(Normalized(prefix), m);
      FrontAndLast(models);
      LinesOfAllSnoc(prefix, m);
    }
  }

  /** For the one-line models `parse(string:)` gives, the forest holds each line once per occurrence. */
  lemma NormalizedLeaves(models: seq<Node>)
    requires forall i :: 0 <= i < |models| ==> models[i].children == []
    ensures multiset(FlattenAll(Normalized(models))) == multiset(models)
  {
    NormalizedLines(models);
    FlattenLeaves(models);
  }
}
