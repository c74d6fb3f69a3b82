/**
 * The forests `normalize(_:)` builds for small outlines: a first child, a
 * grandchild, siblings, a dedent back to a sibling, and new roots at the
 * base level.
 */
module NormalizeExamples {
  import opened Wrappers
  import opened Kinds
  import opened Nodes
  import opened Initializers
  import opened NormalizeFacts

  function P(): Node { Leaf(0, Project("Project")) }
  function T(): Node { Leaf(1, Task("Task")) }
  function X(): Node { Leaf(2, Text("Text")) }
  function X1(): Node { Leaf(1, Text("Text")) }
  function O(): Node { Leaf(1, Task("Other Task")) }
  function Blank(): Node { Leaf(0, Text("")) }
  function Next(): Node { Leaf(0, Project("Subsequent Project")) }
  function Sub(): Node { Leaf(2, Task("Subtask")) }
  function SubText(): Node { Leaf(3, Text("Subtask text")) }

  /** A list at one level is returned as it is. */
  lemma SameLevelUnchanged()
    ensures var ms := [P(), Leaf(0, Task("Task")), Leaf(0, Text("Line 1")), Leaf(0, Text("Line 2"))];
      Normalized(ms) == ms
  {
    NormalizedFlat([P(), Leaf(0, Task("Task")), Leaf(0, Text("Line 1")), Leaf(0, Text("Line 2"))]);
  }

  // The rules, for any leaves at the levels the examples use.

  /** A deeper leaf below a childless root becomes its only child. */
  lemma ChildStep(p: Node, t: Node)
    requires p.children == [] && p.tabLevel < t.tabLevel
    ensures Step([p], t) == [AppendChild(p, t)]
  {
    assert LastChildWith(p, t.tabLevel) == None;
    assert LastChild(p) == None;
  }

  /** A leaf deeper than the root's leaf child goes below that child. */
  lemma GrandchildStep(p: Node, t: Node, x: Node)
    requires p.children == [] && t.children == []
    requires p.tabLevel < t.tabLevel < x.tabLevel
    ensures Step([AppendChild(p, t)], x) == [AppendChild(p, AppendChild(t, x))]
  {
    var root := AppendChild(p, t);
    var updated := AppendChild(p, AppendChild(t, x));
    assert LastChildWith(t, x.tabLevel) == None;
    assert LastChildWith(root, x.tabLevel) == None;
    assert LastChild(root) == Some(t);
    assert ParentOf(root, t) == Some(root);
    assert ReplaceChild(root, t, AppendChild(t, x)).0 == updated;
    assert Climb(root, root, updated) == updated by { RootHasNoParent(root); }
  }

  /** A leaf at the level of the root's only child becomes that child's sibling. */
  lemma SiblingStep(p: Node, c: Node, x: Node)
    requires p.children == [] && p.tabLevel < c.tabLevel == x.tabLevel
    ensures Step([AppendChild(p, c)], x) == [AppendChild(AppendChild(p, c), x)]
  {
    var root := AppendChild(p, c);
    assert LastChildWith(root, x.tabLevel) == Some(c);
    assert ParentOf(root, c) == Some(root);
    assert ParentOf(root, root).None? by { RootHasNoParent(root); }
  }

  /** Three levels down: the new leaf goes below the grandchild and the path is rebuilt. */
  lemma GreatGrandchildStep(p: Node, t: Node, u: Node, x: Node)
    requires p.children == [] && t.children == [] && u.children == []
    requires p.tabLevel < t.tabLevel < u.tabLevel < x.tabLevel
    ensures Step([AppendChild(p, AppendChild(t, u))], x) ==
      [AppendChild(p, AppendChild(t, AppendChild(u, x)))]
  {
    var tu := AppendChild(t, u);
    var root := AppendChild(p, tu);
    var tux := AppendChild(t, AppendChild(u, x));
    var updated := AppendChild(p, tux);
    assert LastChildWith(u, x.tabLevel) == None;
    assert LastChildWith(tu, x.tabLevel) == None;
    assert LastChildWith(root, x.tabLevel) == None;
    assert LastChild(tu) == Some(u);
    assert LastChild(root) == Some(u);
    assert u != tu by { ChildSmaller(tu, u); }
    assert ParentOf(tu, u) == Some(tu);
    assert ParentOf(root, u) == Some(tu);
    assert ReplaceChild(tu, u, AppendChild(u, x)).0 == tux;
    assert ParentOf(root, tu) == Some(root);
    assert ReplaceChild(root, tu, tux).0 == updated;
    assert Climb(root, root, updated) == updated by { RootHasNoParent(root); }
    assert Climb(root, tu, tux) == updated;
  }

  // The outlines, for any leaves at the levels of the fixtures above: `p`
  // at the base level (a project), `t` and `o` one deeper (tasks), `x`
  // deeper still (text), and `b`, `n` back at the base level.

  /** A deeper node below a childless root becomes its child. */
  lemma FirstChild(p: Node, t: Node)
    requires p.children == [] && p.tabLevel < t.tabLevel
    ensures Normalized([p, t]) == [AppendChild(p, t)]
  {
    NormalizedSnoc([p], t);
    assert [p] + [t] == [p, t];
    NormalizedSnoc([], p);
    ChildStep(p, t);
  }

  /** A node deeper still goes below the last child. */
  lemma Grandchild(p: Node, t: Node, x: Node)
    requires p.children == [] && t.children == [] && p.tabLevel < t.tabLevel < x.tabLevel
    ensures Normalized([p, t, x]) == [AppendChild(p, AppendChild(t, x))]
  {
    NormalizedSnoc([p, t], x);
    assert [p, t] + [x] == [p, t, x];
    FirstChild(p, t);
    GrandchildStep(p, t, x);
  }

  /** A node at the level of the last child becomes its sibling. */
  lemma Siblings(p: Node, t: Node, x: Node)
    requires p.children == [] && p.tabLevel < t.tabLevel == x.tabLevel
    ensures Normalized([p, t, x]) == [p.(children := [t, x])]
  {
    NormalizedSnoc([p, t], x);
    assert [p, t] + [x] == [p, t, x];
    FirstChild(p, t);
    SiblingStep(p, t, x);
    assert AppendChild(AppendChild(p, t), x).children == [t, x];
  }

  /** After a grandchild, a node at the child level becomes the next child. */
  lemma DedentToSibling(p: Node, t: Node, x: Node, o: Node)
    requires p.children == [] && t.children == []
    requires p.tabLevel < t.tabLevel == o.tabLevel < x.tabLevel
    ensures Normalized([p, t, x, o]) == [p.(children := [AppendChild(t, x), o])]
  {
    NormalizedSnoc([p, t, x], o);
    assert [p, t, x] + [o] == [p, t, x, o];
    Grandchild(p, t, x);
    SiblingStep(p, AppendChild(t, x), o);
    assert AppendChild(AppendChild(p, AppendChild(t, x)), o).children == [AppendChild(t, x), o];
  }

  /** Nodes back at the base level start new roots. */
  lemma BaseResets(p: Node, t: Node, x: Node, o: Node, b: Node, n: Node)
    requires p.children == [] && t.children == []
    requires p.tabLevel < t.tabLevel == o.tabLevel < x.tabLevel
    requires b.tabLevel <= p.tabLevel && n.tabLevel <= b.tabLevel
    ensures Normalized([p, t, x, o, b, n]) == [p.(children := [AppendChild(t, x), o]), b, n]
  {
    var root := p.(children := [AppendChild(t, x), o]);
    DedentToSibling(p, t, x, o);
    NormalizedSnoc([p, t, x, o], b);
    StepAppends([root], b);
    NormalizedSnoc([p, t, x, o, b], n);
    StepAppends([root, b], n);
    assert [p, t, x, o] + [b] == [p, t, x, o, b];
    assert [p, t, x, o, b] + [n] == [p, t, x, o, b, n];
    assert [root] + [b] == [root, b];
  }

  /** Each level one deeper than the last: a single path from the root. */
  lemma ThreeLevels(p: Node, t: Node, u: Node, x: Node)
    requires p.children == [] && t.children == [] && u.children == []
    requires p.tabLevel < t.tabLevel < u.tabLevel < x.tabLevel
    ensures Normalized([p, t, u, x]) == [AppendChild(p, AppendChild(t, AppendChild(u, x)))]
  {
    NormalizedSnoc([p, t, u], x);
    assert [p, t, u] + [x] == [p, t, u, x];
    Grandchild(p, t, u);
    GreatGrandchildStep(p, t, u, x);
  }

  /** Back from three levels deep to the first child level. */
  lemma ThreeLevelsThenDedent(p: Node, t: Node, u: Node, x: Node, o: Node)
    requires p.children == [] && t.children == [] && u.children == []
    requires p.tabLevel < t.tabLevel == o.tabLevel < u.tabLevel < x.tabLevel
    ensures Normalized([p, t, u, x, o]) ==
      [p.(children := [AppendChild(t, AppendChild(u, x)), o])]
  {
    var deep := AppendChild(t, AppendChild(u, x));
    NormalizedSnoc([p, t, u, x], o);
    assert [p, t, u, x] + [o] == [p, t, u, x, o];
    ThreeLevels(p, t, u, x);
    SiblingStep(p, deep, o);
    assert AppendChild(AppendChild(p, deep), o).children == [deep, o];
  }

  /** Three levels deep, then a dedent, then new roots at the base level. */
  lemma DeeperBaseResets(p: Node, t: Node, u: Node, x: Node, o: Node, b: Node, n: Node)
    requires p.children == [] && t.children == [] && u.children == []
    requires p.tabLevel < t.tabLevel == o.tabLevel < u.tabLevel < x.tabLevel
    requires b.tabLevel <= p.tabLevel && n.tabLevel <= b.tabLevel
    ensures Normalized([p, t, u, x, o, b, n]) ==
      [p.(children := [AppendChild(t, AppendChild(u, x)), o]), b, n]
  {
    var root := p.(children := [AppendChild(t, AppendChild(u, x)), o]);
    ThreeLevelsThenDedent(p, t, u, x, o);
    NormalizedSnoc([p, t, u, x, o], b);
    StepAppends([root], b);
    NormalizedSnoc([p, t, u, x, o, b], n);
    StepAppends([root, b], n);
    assert [p, t, u, x, o] + [b] == [p, t, u, x, o, b];
    assert [p, t, u, x, o, b] + [n] == [p, t, u, x, o, b, n];
    assert [root] + [b] == [root, b];
  }

  /** The fixtures meet the level conditions of the outlines above. */
  lemma FixtureLevels()
    ensures P().children == [] && T().children == [] && Sub().children == []
    ensures P().tabLevel < T().tabLevel == O().tabLevel == X1().tabLevel < X().tabLevel
    ensures T().tabLevel < Sub().tabLevel < SubText().tabLevel
    ensures Blank().tabLevel <= P().tabLevel && Next().tabLevel <= Blank().tabLevel
  {
  }
}
