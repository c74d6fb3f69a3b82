/**
 * `replace(child:with:)` replaces the FIRST child equal to the one searched
 * for.  During the climb of `decideHowToHandle(model:into:)` the node being
 * rebuilt is always the LAST child of its parent, so when an earlier sibling
 * is structurally equal to it (two identical task lines, say), the wrong
 * sibling receives the new node and the outline's line order changes.
 *
 * This module shows that on a four-line outline, and gives the attachment
 * the climb evidently intends, positional along the right spine, with the
 * proof that it keeps every line in its place.
 */
module NormalizeFixed {
  import opened Wrappers
  import opened Chars
  import opened Kinds
  import opened Nodes
  import opened Initializers
  import opened NormalizeFacts
  import opened NormalizeExamples

  // ---------------------------------------------------------------------
  // The outline as a list of lines
  // ---------------------------------------------------------------------

  /** A node without its children: what one line of the outline holds. */
  function Strip(n: Node): Node {
    n.(children := [])
  }

  /** The nodes of a tree in line order: the node, then each child's lines. */
  function Flatten(n: Node): seq<Node>
    decreases n, 1
  {
    [Strip(n)] + FlattenAll(n.children)
  }

  /** The nodes of a forest in line order. */
  function FlattenAll(cs: seq<Node>): seq<Node>
    decreases cs, 0
  {
    if cs == [] then [] else FlattenAll(cs[..|cs| - 1]) + Flatten(cs[|cs| - 1])
  }

  lemma FlattenAllSnoc(cs: seq<Node>, x: Node)
    ensures FlattenAll(cs + [x]) == FlattenAll(cs) + Flatten(x)
  {
    assert (cs + [x])[..|cs|] == cs;
  }

  /** A leaf is one line. */
  lemma FlattenLeaf(n: Node)
    requires n.children == []
    ensures Flatten(n) == [n]
  {
  }

  lemma FlattenOne(n: Node)
    ensures FlattenAll([n]) == Flatten(n)
  {
    assert [n][..0] == [];
  }

  /** A list of leaves is its own line list. */
  lemma {:induction false} FlattenLeaves(ms: seq<Node>)
    requires forall i :: 0 <= i < |ms| ==> ms[i].children == []
    ensures FlattenAll(ms) == ms
    decreases |ms|
  {
    if ms != [] {
      var init := ms[..|ms| - 1];
      FlattenLeaves(init);
      FlattenLeaf(ms[|ms| - 1]);
      FrontAndLast(ms);
    }
  }

  // ---------------------------------------------------------------------
  // The outline as written: a duplicate sibling takes the new node
  // ---------------------------------------------------------------------

  // The outline: a root, two identical leaves below it, and a leaf indented
  // below the second of them.

  /** The second identical leaf becomes a sibling of the first. */
  lemma TwinSiblings(p: Node, t: Node)
    requires p.children == [] && t.children == [] && p.tabLevel < t.tabLevel
    ensures Normalized([p, t, t]) == [AppendChild(AppendChild(p, t), t)]
  {
    FirstChild(p, t);
    NormalizedSnoc([p, t], t);
    assert [p, t] + [t] == [p, t, t];
    SiblingStep(p, t, t);
  }

  /**
   * For any leaves: after two equal children, a deeper leaf is put below
   * the FIRST of them, because the climb replaces the first equal child.
   */
  lemma DuplicateStep(p: Node, t: Node, x: Node)
    requires p.children == [] && t.children == [] && p.tabLevel < t.tabLevel < x.tabLevel
    ensures Step([AppendChild(AppendChild(p, t), t)], x) ==
      [p.(children := [AppendChild(t, x), t])]
  {
    var root := AppendChild(AppendChild(p, t), t);
    var updated := p.(children := [AppendChild(t, x), t]);
    assert root.children == [t, t];
    assert LastChildWith(t, x.tabLevel) == None;
    assert LastChildWith(root, x.tabLevel) == None;
    assert LastChild(root) == Some(t);
    assert ParentOf(root, t) == Some(root);
    assert FirstIndexOf(root.children, t) == 0;
    assert ReplaceChild(root, t, AppendChild(t, x)).0 == updated;
    assert Climb(root, root, updated) == updated by { RootHasNoParent(root); }
  }

  /** The lines of that tree: the deeper leaf now comes before the second child. */
  lemma DuplicateLines(p: Node, t: Node, x: Node)
    requires p.children == [] && t.children == [] && x.children == []
    ensures FlattenAll([p.(children := [AppendChild(t, x), t])]) == [p, t, x, t]
  {
    var tx := AppendChild(t, x);
    var root := p.(children := [tx, t]);
    FlattenOne(x);
    FlattenLeaf(x);
    FlattenAllSnoc([], x);
    assert [] + [x] == [x];
    assert Flatten(tx) == [t, x];
    FlattenOne(tx);
    FlattenAllSnoc([tx], t);
    assert [tx] + [t] == [tx, t];
    FlattenLeaf(t);
    assert FlattenAll([tx, t]) == [t, x, t];
    assert Strip(root) == p;
    FlattenOne(root);
  }

  /**
   * `normalize(_:)` as written puts the deeper leaf below the FIRST of the
   * two equal leaves, although its line follows the second.
   */
  lemma DuplicateSiblingMisplaced(p: Node, t: Node, x: Node)
    requires p.children == [] && t.children == [] && p.tabLevel < t.tabLevel < x.tabLevel
    ensures Normalized([p, t, t, x]) == [p.(children := [AppendChild(t, x), t])]
  {
    NormalizedSnoc([p, t, t], x);
    assert [p, t, t] + [x] == [p, t, t, x];
    TwinSiblings(p, t);
    DuplicateStep(p, t, x);
  }

  /** So the lines come back in a different order: the outline is not kept. */
  lemma DuplicateSiblingReorders(p: Node, t: Node, x: Node)
    requires p.children == [] && t.children == [] && x.children == []
    requires p.tabLevel < t.tabLevel < x.tabLevel
    ensures FlattenAll(Normalized([p, t, t, x])) == [p, t, x, t]
    ensures FlattenAll(Normalized([p, t, t, x])) != [p, t, t, x]
  {
    DuplicateSiblingMisplaced(p, t, x);
    DuplicateLines(p, t, x);
    assert [p, t, x, t][2] == x;
    assert [p, t, t, x][2] == t;
  }

  /**
   * The outline of the fixtures: `Project:`, two `\t- Task` lines and
   * `\t\tText` is flattened back out of order.
   */
  lemma DuplicateSiblingExample(ms: seq<Node>)
    requires ms == [P(), T(), T(), X()]
    ensures FlattenAll(Normalized(ms)) == [P(), T(), X(), T()]
    ensures FlattenAll(Normalized(ms)) != ms
  {
    FixtureLevels();
    DuplicateSiblingReorders(P(), T(), X());
  }

  // ---------------------------------------------------------------------
  // The intended attachment: by position along the right spine
  // ---------------------------------------------------------------------

  /**
   * Attach `m` as the last child of the parent of the first node on the
   * right spine at `m`'s level, or below the deepest node when there is none.
   */
  function Attach(n: Node, m: Node): (r: Node)
    ensures IsEqualWithoutChildren(r, n)
    decreases n
  {
    if n.children == [] || LastOf(n.children).tabLevel == m.tabLevel then AppendChild(n, m)
    else
      var cs := n.children;
      n.(children := cs[..|cs| - 1] + [Attach(LastOf(cs), m)])
  }

  /** One pass of the corrected loop: a new root, or the last root with `m` attached. */
  function StepFixed(list: seq<Node>, m: Node): seq<Node> {
    if list == [] || m.tabLevel <= list[|list| - 1].tabLevel then list + [m]
    else list[..|list| - 1] + [Attach(list[|list| - 1], m)]
  }

  /** The corrected `normalize(_:)`. */
  function NormalizedFixed(models: seq<Node>): seq<Node>
    decreases |models|
  {
    if models == [] then []
    else StepFixed(NormalizedFixed(models[..|models| - 1]), models[|models| - 1])
  }

  /** Attaching puts `m`'s lines after every line of the tree. */
  lemma {:induction false} FlattenAttach(n: Node, m: Node)
    ensures Flatten(Attach(n, m)) == Flatten(n) + Flatten(m)
    decreases n
  {
    var cs := n.children;
    if cs == [] || LastOf(cs).tabLevel == m.tabLevel {
      FlattenAllSnoc(cs, m);
    } else {
      var init := cs[..|cs| - 1];
      FlattenAttach(LastOf(cs), m);
      FlattenAllSnoc(init, Attach(LastOf(cs), m));
      FrontAndLast(cs);
    }
  }

  /** The corrected loop keeps the lines in order: a new root or an attachment adds them at the end. */
  lemma FlattenStepFixed(list: seq<Node>, m: Node)
    ensures FlattenAll(StepFixed(list, m)) == FlattenAll(list) + Flatten(m)
  {
    if list == [] || m.tabLevel <= list[|list| - 1].tabLevel {
      FlattenAllSnoc(list, m);
    } else {
      var init := list[..|list| - 1];
      FlattenAttach(list[|list| - 1], m);
      FlattenAllSnoc(init, Attach(list[|list| - 1], m));
      FrontAndLast(list);
    }
  }

  /** The corrected normaliser keeps every line, in its order. */
  lemma {:induction false} FlattenNormalizedFixed(models: seq<Node>)
    ensures FlattenAll(NormalizedFixed(models)) == FlattenAll(models)
    decreases |models|
  {
    if models != [] {
      var init := models[..|models| - 1];
      FlattenNormalizedFixed(init);
      FlattenStepFixed(NormalizedFixed(init), models[|models| - 1]);
      FlattenAllSnoc(init, models[|models| - 1]);
      FrontAndLast(models);
    }
  }

  /** For parsed lines, which are leaves, the forest's lines are exactly the input. */
  lemma NormalizedFixedKeepsLines(models: seq<Node>)
    requires forall i :: 0 <= i < |models| ==> models[i].children == []
    ensures FlattenAll(NormalizedFixed(models)) == models
  {
    FlattenNormalizedFixed(models);
    FlattenLeaves(models);
  }

  /** On the same outline, the corrected normaliser puts the deeper leaf below the second equal leaf. */
  lemma DuplicateSiblingFixed(p: Node, t: Node, x: Node)
    requires p.children == [] && t.children == [] && p.tabLevel < t.tabLevel < x.tabLevel
    ensures NormalizedFixed([p, t, t, x]) == [p.(children := [t, AppendChild(t, x)])]
  {
    var ms := [p, t, t, x];
    assert ms[..3][..2][..1] == [p];
    assert ms[..3][..2] == [p, t];
    assert ms[..3] == [p, t, t];
    assert NormalizedFixed([p]) == [p];
    assert NormalizedFixed([p, t]) == [AppendChild(p, t)];
    var root := AppendChild(AppendChild(p, t), t);
    assert NormalizedFixed(ms[..3]) == [root];
    assert Attach(t, x) == AppendChild(t, x);
    assert root.children[..1] == [t];
    assert Attach(root, x) == p.(children := [t, AppendChild(t, x)]);
  }
}
