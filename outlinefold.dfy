/**
 * When `normalize(_:)` folds the lines of a well-nested outline back into a
 * forest, it rebuilds that outline. "Well-nested" means that every child is
 * exactly one level below its parent, and that no two siblings agree apart
 * from their children.  For such trees every step of
 * `decideHowToHandle(model:into:)` reaches the node it means to reach.
 * `lastChild(with:)` and `parent(of:)` walk the right spine level by level.
 * `replace(child:with:)` meets the last child first among its equals,
 * because the siblings before it differ from it.
 */
module OutlineFold {
  import opened Wrappers
  import opened Chars
  import opened Kinds
  import opened Nodes
  import opened Initializers
  import opened NormalizeFacts
  import opened NormalizeFixed

  /** Every child one level below its parent; siblings differ apart from their children. */
  predicate WellNested(n: Node)
    decreases n
  {
    (forall c :: c in n.children ==> c.tabLevel == n.tabLevel + 1 && WellNested(c)) &&
    (forall i, j :: 0 <= i < j < |n.children| ==> !IsEqualWithoutChildren(n.children[i], n.children[j]))
  }

  // ---------------------------------------------------------------------
  // Positions on the right spine
  // ---------------------------------------------------------------------

  /** The length of the chain of last children below `n`. */
  function Depth(n: Node): nat
    decreases n
  {
    if n.children == [] then 0 else 1 + Depth(LastOf(n.children))
  }

  /** `rightSpine` has one node per step of the chain. */
  lemma {:induction false} DepthSpine(n: Node)
    ensures Depth(n) == |RightSpine(n)|
    decreases n
  {
    if n.children != [] {
      DepthSpine(LastOf(n.children));
    }
  }

  /** The node `d` steps down the chain of last children. */
  function SpineAt(n: Node, d: nat): Node
    requires d <= Depth(n)
    decreases d
  {
    if d == 0 then n else SpineAt(LastOf(n.children), d - 1)
  }

  /** `n` with the node `d` steps down its chain of last children replaced by `u`. */
  function Plug(n: Node, d: nat, u: Node): (r: Node)
    requires d <= Depth(n)
    ensures Depth(r) == d + Depth(u)
    decreases d
  {
    if d == 0 then u
    else
      var k := |n.children| - 1;
      n.(children := n.children[k := Plug(n.children[k], d - 1, u)])
  }

  /** The plugged node sits at depth `d`. */
  lemma {:induction false} PlugAt(n: Node, d: nat, u: Node)
    requires d <= Depth(n)
    ensures SpineAt(Plug(n, d, u), d) == u
    decreases d
  {
    if d > 0 {
      PlugAt(LastOf(n.children), d - 1, u);
    }
  }

  /** Above the plugged node the root keeps its line and every child but the last. */
  lemma PlugKeeps(n: Node, d: nat, u: Node)
    requires 1 <= d <= Depth(n)
    ensures var r := Plug(n, d, u);
      IsEqualWithoutChildren(r, n) && |r.children| == |n.children| &&
      r.children[..|r.children| - 1] == n.children[..|n.children| - 1] &&
      LastOf(r.children) == Plug(LastOf(n.children), d - 1, u)
  {
  }

  /** The spine below the node at depth `d` is the rest of the spine. */
  lemma {:induction false} SpineAtSplit(n: Node, d: nat, j: nat)
    requires d + j <= Depth(n)
    ensures Depth(SpineAt(n, d)) == Depth(n) - d
    ensures SpineAt(n, d + j) == SpineAt(SpineAt(n, d), j)
    decreases d
  {
    if d > 0 {
      SpineAtSplit(LastOf(n.children), d - 1, j);
    }
  }

  /** The node one step further down is the last child of the one above. */
  lemma SpineAtNext(n: Node, d: nat)
    requires 1 <= d <= Depth(n)
    ensures SpineAt(n, d - 1).children != []
    ensures SpineAt(n, d) == LastOf(SpineAt(n, d - 1).children)
  {
    SpineAtSplit(n, d - 1, 1);
  }

  /** The end of the spine is the deepest node on it. */
  lemma {:induction false} SpineAtEnd(n: Node)
    requires n.children != []
    ensures SpineAt(n, Depth(n)) == LastOf(RightSpine(n))
    decreases n
  {
    var last := LastOf(n.children);
    if last.children != [] {
      SpineAtEnd(last);
    }
  }

  /** Down a well-nested spine the levels grow by one a step. */
  lemma {:induction false} SpineAtNested(n: Node, d: nat)
    requires WellNested(n) && d <= Depth(n)
    ensures WellNested(SpineAt(n, d))
    ensures SpineAt(n, d).tabLevel == n.tabLevel + d
    decreases d
  {
    if d > 0 {
      SpineAtNested(LastOf(n.children), d - 1);
    }
  }

  // ---------------------------------------------------------------------
  // Plugging a node into the spine
  // ---------------------------------------------------------------------

  /** Plugging in the node that is already there changes nothing. */
  lemma {:induction false} PlugSelf(n: Node, d: nat)
    requires d <= Depth(n)
    ensures Plug(n, d, SpineAt(n, d)) == n
    decreases d
  {
    if d > 0 {
      var k := |n.children| - 1;
      PlugSelf(n.children[k], d - 1);
      assert n.children[k := n.children[k]] == n.children;
    }
  }

  /** The spine below the plugged node is the plugged node's own spine. */
  lemma {:induction false} PlugSpine(n: Node, d: nat, m: Node, j: nat)
    requires d <= Depth(n) && j <= Depth(m)
    ensures SpineAt(Plug(n, d, m), d + j) == SpineAt(m, j)
  {
    SpineAtSplit(Plug(n, d, m), d, j);
    PlugAt(n, d, m);
  }

  /** Plugging deeper into a plugged node is plugging into it first. */
  lemma PlugPlug(n: Node, d: nat, m: Node, j: nat, u: Node)
    requires d <= Depth(n) && j <= Depth(m)
    ensures Plug(Plug(n, d, m), d + j, u) == Plug(n, d, Plug(m, j, u))
  {
    PlugsComposeAll(n, d, m, j, u);
  }

  predicate PlugsCompose(n: Node, d: nat, m: Node, j: nat, u: Node)
    requires d <= Depth(n) && j <= Depth(m)
  {
    Plug(Plug(n, d, m), d + j, u) == Plug(n, d, Plug(m, j, u))
  }

  lemma {:induction false} PlugsComposeAll(n: Node, d: nat, m: Node, j: nat, u: Node)
    requires d <= Depth(n) && j <= Depth(m)
    ensures PlugsCompose(n, d, m, j, u)
    decreases d
  {
    if d == 0 {
      assert Plug(n, d, m) == m;
    } else {
      var last := LastOf(n.children);
      assert Depth(n) == 1 + Depth(last);
      PlugsComposeAll(last, d - 1, m, j, u);
      PlugsComposeStep(n, d, m, j, u);
    }
  }

  /** Plugging twice below the last child is plugging twice in the whole tree. */
  lemma PlugsComposeStep(n: Node, d: nat, m: Node, j: nat, u: Node)
    requires 1 <= d <= Depth(n) && j <= Depth(m) && n.children != [] && Depth(n) == 1 + Depth(LastOf(n.children))
    requires PlugsCompose(LastOf(n.children), d - 1, m, j, u)
    ensures PlugsCompose(n, d, m, j, u)
  {
    var k := |n.children| - 1;
    var last := n.children[k];
    var lm := Plug(last, d - 1, m);
    var x := Plug(m, j, u);
    var p := n.(children := n.children[k := lm]);
    assert IsEqualWithoutChildren(p, n);
    assert Plug(n, d, m) == p;
    assert p.children[k] == lm;
    assert p.children[k := Plug(last, d - 1, x)] == n.children[k := Plug(last, d - 1, x)];
    assert Plug(p, d + j, u) == p.(children := p.children[k := Plug(lm, d - 1 + j, u)]);
    var y := n.children[k := Plug(last, d - 1, x)];
    assert Plug(p, d + j, u) == p.(children := y);
    assert Plug(n, d, x) == n.(children := y);
  }

  /** Plugging at depth `e` is plugging one level down into the node at depth `e - 1`. */
  lemma PlugStep(n: Node, e: nat, u: Node)
    requires 1 <= e <= Depth(n)
    ensures Depth(SpineAt(n, e - 1)) >= 1
    ensures Plug(n, e, u) == Plug(n, e - 1, Plug(SpineAt(n, e - 1), 1, u))
  {
    var p := SpineAt(n, e - 1);
    SpineAtSplit(n, e - 1, 0);
    PlugPlug(n, e - 1, p, 1, u);
    PlugSelf(n, e - 1);
  }

  /** A node plugged into a well-nested tree keeps it well-nested when it agrees with the node it replaces. */
  lemma {:induction false} PlugNested(n: Node, d: nat, u: Node)
    requires WellNested(n) && d <= Depth(n) && WellNested(u)
    requires IsEqualWithoutChildren(u, SpineAt(n, d))
    ensures WellNested(Plug(n, d, u))
    decreases d
  {
    if d > 0 {
      var last := LastOf(n.children);
      PlugNested(last, d - 1, u);
      var r := Plug(n, d, u);
      var k := |n.children| - 1;
      assert IsEqualWithoutChildren(r.children[k], last);
      forall c | c in r.children
        ensures c.tabLevel == r.tabLevel + 1 && WellNested(c)
      {
        var i :| 0 <= i < |r.children| && r.children[i] == c;
        if i < k {
          assert r.children[i] == r.children[..k][i] == n.children[..k][i];
        }
      }
      forall i, j | 0 <= i < j < |r.children|
        ensures !IsEqualWithoutChildren(r.children[i], r.children[j])
      {
        assert r.children[i] == r.children[..k][i] == n.children[..k][i];
        if j < k {
          assert r.children[j] == r.children[..k][j] == n.children[..k][j];
        }
      }
    }
  }

  // ---------------------------------------------------------------------
  // The searches along a well-nested spine
  // ---------------------------------------------------------------------

  /** `replace(child:with:)` on the last child of a well-nested node replaces that one. */
  lemma ReplaceLastChild(g: Node, u: Node)
    requires WellNested(g) && g.children != []
    ensures ReplaceChild(g, LastOf(g.children), u).0 == Plug(g, 1, u)
  {
    var k := |g.children| - 1;
    var r := ReplaceChild(g, LastOf(g.children), u).0;
    assert forall i :: 0 <= i < k ==> g.children[i] != g.children[k];
    assert LastOf(g.children) !in g.children[..k];
    assert r.children == g.children[..k] + [u];
  }

  /** `parent(of:)` finds a spine node's parent one step above it. */
  lemma {:induction false} ParentOfSpine(n: Node, e: nat)
    requires WellNested(n) && 1 <= e <= Depth(n)
    ensures ParentOf(n, SpineAt(n, e)) == Some(SpineAt(n, e - 1))
    decreases e
  {
    var last := LastOf(n.children);
    if e > 1 {
      SpineAtNested(n, e);
      assert SpineAt(n, e) !in n.children;
      ParentOfSpine(last, e - 1);
    }
  }

  /** `lastChild(with:)` finds the spine node at that level, and nothing past the spine's end. */
  lemma LastChildWithSpine(n: Node, e: nat)
    requires WellNested(n) && e >= 1
    ensures e <= Depth(n) ==> LastChildWith(n, n.tabLevel + e) == Some(SpineAt(n, e))
    ensures e > Depth(n) ==> LastChildWith(n, n.tabLevel + e) == None
  {
    if e <= Depth(n) {
      LastChildWithAt(n, e, n.tabLevel + e);
    } else {
      LastChildWithPast(n, e, n.tabLevel + e);
    }
  }

  /** `lastChild(with:)` at a level on the spine finds the spine node there. */
  lemma LastChildWithAt(n: Node, e: nat, level: nat)
    requires WellNested(n) && 1 <= e <= Depth(n) && level == n.tabLevel + e
    ensures LastChildWith(n, level) == Some(SpineAt(n, e))
  {
    FindsSpineAll(n, level, e);
  }

  /** `lastChild(with:)` at a level past the spine's end finds nothing. */
  lemma LastChildWithPast(n: Node, e: nat, level: nat)
    requires WellNested(n) && Depth(n) < e && level == n.tabLevel + e
    ensures LastChildWith(n, level) == None
  {
    FindsSpineAll(n, level, e);
  }

  /** `lastChild(with:)` at `level`, `e` levels below `n`, is the spine node there, if the spine is that long. */
  predicate FindsSpine(n: Node, level: nat, e: nat)
    requires e >= 1
  {
    LastChildWith(n, level) == if e <= Depth(n) then Some(SpineAt(n, e)) else None
  }

  lemma {:induction false} FindsSpineAll(n: Node, level: nat, e: nat)
    requires WellNested(n) && e >= 1 && level == n.tabLevel + e
    ensures FindsSpine(n, level, e)
    decreases n
  {
    if n.children == [] {
      assert Depth(n) == 0;
    } else {
      LastChildNested(n);
      if e == 1 {
        assert SpineAt(n, 1) == LastOf(n.children);
      } else {
        FindsSpineAll(LastOf(n.children), level, e - 1);
        FindsSpineStep(n, level, e);
      }
    }
  }

  /** The last child of a well-nested node: one level down, well nested, one step shorter. */
  lemma LastChildNested(n: Node)
    requires WellNested(n) && n.children != []
    ensures var last := LastOf(n.children);
      last.tabLevel == n.tabLevel + 1 && WellNested(last) && Depth(n) == 1 + Depth(last)
  {
    assert LastOf(n.children) in n.children;
  }

  /** Past the last child, the search goes on one level down the spine. */
  lemma FindsSpineStep(n: Node, level: nat, e: nat)
    requires n.children != [] && e > 1
    requires LastOf(n.children).tabLevel != level && Depth(n) == 1 + Depth(LastOf(n.children))
    requires FindsSpine(LastOf(n.children), level, e - 1)
    ensures FindsSpine(n, level, e)
  {
    SearchPastLast(n, level);
    if e <= Depth(n) {
      assert SpineAt(n, e) == SpineAt(LastOf(n.children), e - 1);
    }
  }

  /** `lastChild(with:)` passes over a last child at another level. */
  lemma SearchPastLast(n: Node, level: nat)
    requires n.children != [] && LastOf(n.children).tabLevel != level
    ensures LastChildWith(n, level) == LastChildWith(LastOf(n.children), level)
  {
  }

  /** `lastChild()` is the node at the end of the spine. */
  lemma LastChildSpine(n: Node)
    requires n.children != []
    ensures LastChild(n) == Some(SpineAt(n, Depth(n)))
  {
    SpineAtEnd(n);
  }

  /** The climb from the spine node at depth `e` plugs its update in at that depth. */
  predicate ClimbPlugs(n: Node, e: nat, u: Node)
    requires e <= Depth(n)
  {
    Climb(n, SpineAt(n, e), u) == Plug(n, e, u)
  }

  /** The climb from a spine node plugs its update in at that depth. */
  lemma ClimbSpine(n: Node, e: nat, u: Node)
    requires WellNested(n) && e <= Depth(n)
    ensures Climb(n, SpineAt(n, e), u) == Plug(n, e, u)
  {
    ClimbSpinePlugs(n, e, u);
  }

  /** A well-nested tree and a depth on its spine. */
  predicate OnSpine(n: Node, e: nat) {
    WellNested(n) && e <= Depth(n)
  }

  lemma {:induction false} ClimbSpinePlugs(n: Node, e: nat, u: Node)
    requires OnSpine(n, e)
    ensures ClimbPlugs(n, e, u)
    decreases e
  {
    if e == 0 {
      ClimbFromRoot(n, u);
    } else {
      var pu := SpineLink(n, e, u);
      ClimbSpinePlugs(n, e - 1, pu);
      ClimbSpineLink(n, e, u, pu);
    }
  }

  /** The update one level up: the node above depth `e` with `u` as its last child; it sits above the spine's end. */
  lemma SpineLink(n: Node, e: nat, u: Node) returns (pu: Node)
    requires OnSpine(n, e) && 1 <= e
    ensures OnSpine(n, e - 1) && Depth(SpineAt(n, e - 1)) >= 1 && pu == Plug(SpineAt(n, e - 1), 1, u)
  {
    SpineAtSplit(n, e - 1, 0);
    pu := Plug(SpineAt(n, e - 1), 1, u);
  }

  /** The climb from depth `e` goes through depth `e - 1`, where plugging one level down is plugging at `e`. */
  lemma ClimbSpineLink(n: Node, e: nat, u: Node, pu: Node)
    requires OnSpine(n, e) && 1 <= e && Depth(SpineAt(n, e - 1)) >= 1 && pu == Plug(SpineAt(n, e - 1), 1, u)
    requires ClimbPlugs(n, e - 1, pu)
    ensures ClimbPlugs(n, e, u)
  {
    PlugStep(n, e, u);
    ClimbSpineStep(n, e, u);
  }

  /** One step of the climb from a spine node: its parent, with the update as its last child. */
  lemma ClimbSpineStep(n: Node, e: nat, u: Node)
    requires WellNested(n) && 1 <= e <= Depth(n)
    ensures Depth(SpineAt(n, e - 1)) >= 1
    ensures Climb(n, SpineAt(n, e), u) == Climb(n, SpineAt(n, e - 1), Plug(SpineAt(n, e - 1), 1, u))
  {
    ParentOfSpine(n, e);
    SpineAtNext(n, e);
    SpineAtNested(n, e - 1);
    SpineAtSplit(n, e - 1, 0);
    ClimbFromLast(n, SpineAt(n, e), SpineAt(n, e - 1), u);
  }

  /** The climb from the last child of a well-nested parent goes on from the parent with `u` plugged in. */
  lemma ClimbFromLast(n: Node, x: Node, p: Node, u: Node)
    requires ParentOf(n, x) == Some(p) && WellNested(p) && p.children != [] && x == LastOf(p.children)
    requires Depth(p) >= 1
    ensures Climb(n, x, u) == Climb(n, p, Plug(p, 1, u))
  {
    ReplaceLastChild(p, u);
    ClimbFromParent(n, x, p, u);
  }

  /** The climb from the root is the update itself. */
  lemma ClimbFromRoot(n: Node, u: Node)
    ensures ClimbPlugs(n, 0, u)
  {
    RootHasNoParent(n);
  }

  /** The climb from a child that has a parent goes on from the updated parent. */
  lemma ClimbFromParent(root: Node, child: Node, p: Node, u: Node)
    requires ParentOf(root, child) == Some(p)
    ensures Climb(root, child, u) == Climb(root, p, ReplaceChild(p, child, u).0)
  {
  }

  /** Appending below a spine node and climbing plugs the grown node in at its depth. */
  lemma RebuildSpine(n: Node, d: nat, x: Node)
    requires WellNested(n) && 1 <= d <= Depth(n)
    ensures Rebuild(n, SpineAt(n, d), SpineAt(n, d - 1), x) == Plug(n, d, AppendChild(SpineAt(n, d), x))
  {
    ParentOfSpine(n, d);
    ClimbSpine(n, d, AppendChild(SpineAt(n, d), x));
  }

  /** A node one level below a root goes straight into the root. */
  lemma DecideAtRoot(x: Node, n: Node)
    requires WellNested(n) && x.tabLevel == n.tabLevel + 1
    ensures DecideBelow(x, n) == ReplaceInList(n, Plug(n, 0, AppendChild(SpineAt(n, 0), x)))
  {
    assert Plug(n, 0, AppendChild(SpineAt(n, 0), x)) == AppendChild(n, x);
    if Depth(n) > 0 {
      LastChildWithSpine(n, 1);
      ParentOfSpine(n, 1);
      RootHasNoParent(n);
    } else {
      assert LastChild(n) == None;
    }
  }

  /** Once the search finds a node with a parent and a grandparent, the root is rebuilt around the parent. */
  lemma DecideFound(x: Node, n: Node, same: Node, p: Node, gp: Node)
    requires x.tabLevel > n.tabLevel && LastChildWith(n, x.tabLevel) == Some(same)
    requires ParentOf(n, same) == Some(p) && ParentOf(n, p) == Some(gp)
    ensures DecideBelow(x, n) == ReplaceInList(n, Rebuild(n, p, gp, x))
  {
  }

  /** Below an inner spine node, the search finds the next spine node. */
  lemma InsideSearch(x: Node, n: Node, d: nat)
    requires WellNested(n) && 1 <= d < Depth(n) && x.tabLevel == n.tabLevel + d + 1
    ensures LastChildWith(n, x.tabLevel) == Some(SpineAt(n, d + 1))
  {
    LastChildWithAt(n, d + 1, x.tabLevel);
  }

  /** The parent of a spine node, with its depth written as one step down. */
  lemma ParentOfSpineBelow(n: Node, d: nat)
    requires WellNested(n) && d + 1 <= Depth(n)
    ensures ParentOf(n, SpineAt(n, d + 1)) == Some(SpineAt(n, d))
  {
    ParentOfSpine(n, d + 1);
  }

  /** A node one level below an inner spine node is appended there, and the root rebuilt. */
  lemma DecideInside(x: Node, n: Node, d: nat)
    requires WellNested(n) && 1 <= d < Depth(n) && x.tabLevel == n.tabLevel + d + 1
    ensures DecideBelow(x, n) == ReplaceInList(n, Plug(n, d, AppendChild(SpineAt(n, d), x)))
  {
    InsideSearch(x, n, d);
    ParentOfSpineBelow(n, d);
    ParentOfSpine(n, d);
    DecideFound(x, n, SpineAt(n, d + 1), SpineAt(n, d), SpineAt(n, d - 1));
    RebuildSpine(n, d, x);
  }

  /** A node one level below the end of the spine is appended there, and the root rebuilt. */
  lemma DecideAtEnd(x: Node, n: Node, d: nat)
    requires WellNested(n) && 1 <= d == Depth(n) && x.tabLevel == n.tabLevel + d + 1
    ensures DecideBelow(x, n) == ReplaceInList(n, Plug(n, d, AppendChild(SpineAt(n, d), x)))
  {
    LastChildWithPast(n, d + 1, x.tabLevel);
    LastChildSpine(n);
    ParentOfSpine(n, d);
    RebuildSpine(n, d, x);
  }

  /**
   * A node one level below the spine node at depth `d` is appended to that
   * node, and the last root is rebuilt around it.
   */
  lemma DecideAttach(x: Node, n: Node, d: nat)
    requires WellNested(n) && d <= Depth(n) && x.tabLevel == n.tabLevel + d + 1
    ensures DecideBelow(x, n) == ReplaceInList(n, Plug(n, d, AppendChild(SpineAt(n, d), x)))
  {
    if d == 0 {
      DecideAtRoot(x, n);
    } else if d < Depth(n) {
      DecideInside(x, n, d);
    } else {
      DecideAtEnd(x, n, d);
    }
  }

  /** One pass of the loop puts the model below the spine node one level above it. */
  lemma StepAttach(pre: seq<Node>, n: Node, x: Node, d: nat)
    requires WellNested(n) && d <= Depth(n) && x.tabLevel == n.tabLevel + d + 1
    ensures Step(pre + [n], x) == pre + [Plug(n, d, AppendChild(SpineAt(n, d), x))]
  {
    DecideAttach(x, n, d);
    assert LastIndexOf(pre + [n], n) == |pre|;
  }

  // ---------------------------------------------------------------------
  // Folding the lines of a well-nested forest
  // ---------------------------------------------------------------------

  /** The loop of `normalize(_:)` run on from `list` over `ms`. */
  function Steps(list: seq<Node>, ms: seq<Node>): seq<Node>
    decreases |ms|
  {
    if ms == [] then list else Step(Steps(list, ms[..|ms| - 1]), ms[|ms| - 1])
  }

  lemma StepsOne(list: seq<Node>, x: Node)
    ensures Steps(list, [x]) == Step(list, x)
  {
    assert [x][..0] == [];
  }

  lemma {:induction false} StepsConcat(list: seq<Node>, a: seq<Node>, b: seq<Node>)
    ensures Steps(list, a + b) == Steps(Steps(list, a), b)
    decreases |b|
  {
    if b == [] {
      assert a + b == a;
    } else {
      assert (a + b)[..|a + b| - 1] == a + b[..|b| - 1];
      StepsConcat(list, a, b[..|b| - 1]);
    }
  }

  /** Normalizing a longer list goes on from the normalized first part. */
  lemma {:induction false} NormalizedConcat(a: seq<Node>, b: seq<Node>)
    ensures Normalized(a + b) == Steps(Normalized(a), b)
    decreases |b|
  {
    if b == [] {
      assert a + b == a;
    } else {
      assert (a + b)[..|a + b| - 1] == a + b[..|b| - 1];
      NormalizedConcat(a, b[..|b| - 1]);
    }
  }

  /** A well-nested node with only its first `k` children. */
  lemma FirstChildrenNested(n: Node, k: nat)
    requires WellNested(n) && k <= |n.children|
    ensures WellNested(n.(children := n.children[..k]))
  {
    var m := n.(children := n.children[..k]);
    forall c | c in m.children ensures c.tabLevel == m.tabLevel + 1 && WellNested(c) {
      assert c in n.children;
    }
  }

  /** A well-nested node with its first `k` children and then the line of the next one. */
  lemma NextLineNested(n: Node, k: nat)
    requires WellNested(n) && k < |n.children|
    ensures WellNested(n.(children := n.children[..k] + [Strip(n.children[k])]))
  {
    var cs := n.children;
    var m := n.(children := cs[..k] + [Strip(cs[k])]);
    forall c | c in m.children ensures c.tabLevel == m.tabLevel + 1 && WellNested(c) {
      if c != Strip(cs[k]) {
        assert c in cs[..k];
        assert c in cs;
      } else {
        assert cs[k] in cs;
      }
    }
    forall i, j | 0 <= i < j < |m.children|
      ensures !IsEqualWithoutChildren(m.children[i], m.children[j])
    {
      assert m.children[i] == cs[i];
      if j < k {
        assert m.children[j] == cs[j];
      }
    }
  }

  /** A line one level below the node plugged at depth `d` is appended to that node. */
  lemma StepBelow(pre: seq<Node>, q: Node, d: nat, m: Node, x: Node)
    requires WellNested(q) && d <= Depth(q) && WellNested(m) && IsEqualWithoutChildren(m, SpineAt(q, d))
    requires x.tabLevel == q.tabLevel + d + 1
    ensures Steps(pre + [Plug(q, d, m)], [x]) == pre + [Plug(q, d, AppendChild(m, x))]
  {
    var q1 := Plug(q, d, m);
    PluggedShape(q, d, m);
    StepBelowAt(pre, q1, d, m, x);
    Replug(q, d, m, AppendChild(m, x));
  }

  /** The tree with `m` plugged in at depth `d` is well-nested, with `m` at that depth and the root's level. */
  lemma PluggedShape(q: Node, d: nat, m: Node)
    requires WellNested(q) && d <= Depth(q) && WellNested(m) && IsEqualWithoutChildren(m, SpineAt(q, d))
    ensures WellNested(Plug(q, d, m)) && d <= Depth(Plug(q, d, m)) && SpineAt(Plug(q, d, m), d) == m
    ensures Plug(q, d, m).tabLevel == q.tabLevel
  {
    SpineAtNested(q, d);
    PlugNested(q, d, m);
    PlugAt(q, d, m);
    if d > 0 {
      PlugKeeps(q, d, m);
    }
  }

  /** A line one level below the spine node `m` at depth `d` is appended to it. */
  lemma StepBelowAt(pre: seq<Node>, q1: Node, d: nat, m: Node, x: Node)
    requires WellNested(q1) && d <= Depth(q1) && SpineAt(q1, d) == m && x.tabLevel == q1.tabLevel + d + 1
    ensures Steps(pre + [q1], [x]) == pre + [Plug(q1, d, AppendChild(m, x))]
  {
    StepAttach(pre, q1, x, d);
    StepsOne(pre + [q1], x);
  }

  /** Plugging twice at the same depth keeps the second node only. */
  lemma Replug(q: Node, d: nat, m: Node, v: Node)
    requires d <= Depth(q)
    ensures Plug(Plug(q, d, m), d, v) == Plug(q, d, v)
  {
    PlugPlug(q, d, m, 0, v);
    assert Plug(m, 0, v) == v;
  }

  /** The line of the next child of `n` goes below `n`, after the children already rebuilt. */
  lemma FoldLine(pre: seq<Node>, q: Node, d: nat, n: Node, j: nat)
    requires WellNested(q) && d <= Depth(q) && SpineAt(q, d) == Strip(n)
    requires WellNested(n) && j < |n.children|
    ensures Steps(pre + [Plug(q, d, n.(children := n.children[..j]))], [Strip(n.children[j])]) ==
            pre + [Plug(q, d, n.(children := n.children[..j] + [Strip(n.children[j])]))]
  {
    var c := n.children[j];
    assert c in n.children;
    var n1 := n.(children := n.children[..j]);
    FirstChildrenNested(n, j);
    SpineAtNested(q, d);
    StepBelow(pre, q, d, n1, Strip(c));
    assert AppendChild(n1, Strip(c)) == n.(children := n.children[..j] + [Strip(c)]);
  }

  /** Once the line of the next child is in place, the spine goes on through it. */
  lemma FoldLineShape(q: Node, d: nat, n: Node, j: nat)
    requires WellNested(q) && d <= Depth(q) && SpineAt(q, d) == Strip(n)
    requires WellNested(n) && j < |n.children|
    ensures var q2 := Plug(q, d, n.(children := n.children[..j] + [Strip(n.children[j])]));
      WellNested(q2) && d + 1 <= Depth(q2) && SpineAt(q2, d + 1) == Strip(n.children[j])
  {
    var n2 := n.(children := n.children[..j] + [Strip(n.children[j])]);
    NextLineNested(n, j);
    PlugNested(q, d, n2);
    assert Depth(n2) == 1;
    PlugSpine(q, d, n2, 1);
  }

  /** The next child rebuilt below the line put in for it completes the first `j + 1` children. */
  lemma FoldShape(q: Node, d: nat, n: Node, j: nat)
    requires d <= Depth(q) && j < |n.children|
    ensures var c := n.children[j];
      var n2 := n.(children := n.children[..j] + [Strip(c)]);
      d + 1 <= Depth(Plug(q, d, n2)) &&
      Plug(Plug(q, d, n2), d + 1, c.(children := c.children[..|c.children|])) == Plug(q, d, n.(children := n.children[..j + 1]))
  {
    var c := n.children[j];
    var n2 := n.(children := n.children[..j] + [Strip(c)]);
    assert Depth(n2) == 1;
    assert c.children[..|c.children|] == c.children;
    assert c.(children := c.children) == c;
    PlugPlug(q, d, n2, 1, c);
    assert n.children[..j] + [c] == n.children[..j + 1];
    assert Plug(n2, 1, c) == n.(children := n.children[..j + 1]);
  }

  /** Three runs of the loop one after the other. */
  lemma StepsChain(l0: seq<Node>, a: seq<Node>, l1: seq<Node>, b: seq<Node>, l2: seq<Node>, c: seq<Node>, l3: seq<Node>)
    requires Steps(l0, a) == l1 && Steps(l1, b) == l2 && Steps(l2, c) == l3
    ensures Steps(l0, a + b + c) == l3
  {
    StepsConcat(l0, a + b, c);
    StepsConcat(l0, a, b);
  }

  /** The lines of the first `j + 1` children: those of the first `j`, the next line, the lines below it. */
  lemma FlattenFirstChildren(cs: seq<Node>, j: nat)
    requires j < |cs|
    ensures FlattenAll(cs[..j + 1]) == FlattenAll(cs[..j]) + [Strip(cs[j])] + FlattenAll(cs[j].children[..|cs[j].children|])
  {
    assert cs[..j + 1] == cs[..j] + [cs[j]];
    FlattenAllSnoc(cs[..j], cs[j]);
    assert cs[j].children[..|cs[j].children|] == cs[j].children;
  }

  /**
   * With the node at depth `d` of the last root holding the first `k`
   * children of `n`, the lines of those children rebuild them in place.
   */
  lemma {:induction false} FoldChildren(pre: seq<Node>, q: Node, d: nat, n: Node, k: nat)
    requires WellNested(q) && d <= Depth(q) && SpineAt(q, d) == Strip(n)
    requires WellNested(n) && k <= |n.children|
    ensures Steps(pre + [q], FlattenAll(n.children[..k])) == pre + [Plug(q, d, n.(children := n.children[..k]))]
    decreases n, k
  {
    var cs := n.children;
    if k == 0 {
      assert cs[..0] == [];
      assert n.(children := cs[..0]) == Strip(n);
      PlugSelf(q, d);
    } else {
      var j := k - 1;
      var c := cs[j];
      assert c in cs;
      var q1 := Plug(q, d, n.(children := cs[..j]));
      var q2 := Plug(q, d, n.(children := cs[..j] + [Strip(c)]));
      FoldChildren(pre, q, d, n, j);
      FoldLine(pre, q, d, n, j);
      FoldLineShape(q, d, n, j);
      FoldChildren(pre, q2, d + 1, c, |c.children|);
      FoldShape(q, d, n, j);
      FlattenFirstChildren(cs, j);
      StepsChain(pre + [q], FlattenAll(cs[..j]), pre + [q1], [Strip(c)], pre + [q2],
                 FlattenAll(c.children[..|c.children|]), pre + [Plug(q, d, n.(children := cs[..k]))]);
    }
  }

  /** A forest of well-nested trees rooted at level 0. */
  predicate NestedForest(f: seq<Node>) {
    forall i :: 0 <= i < |f| ==> f[i].tabLevel == 0 && WellNested(f[i])
  }

  /** `normalize(_:)` rebuilds such a forest from its lines. */
  lemma {:induction false} ForestRebuilt(f: seq<Node>)
    requires NestedForest(f)
    ensures Normalized(FlattenAll(f)) == f
    decreases |f|
  {
    if f != [] {
      var g, r := f[..|f| - 1], f[|f| - 1];
      FrontAndLast(f);
      ForestRebuilt(g);
      FlattenAllSnoc(g, r);
      NormalizedConcat(FlattenAll(g), Flatten(r));
      StepsConcat(g, [Strip(r)], FlattenAll(r.children));
      StepsOne(g, Strip(r));
      StepAppends(g, Strip(r));
      FoldChildren(g, Strip(r), 0, r, |r.children|);
      assert r.children[..|r.children|] == r.children;
      assert r.(children := r.children) == r;
    }
  }
}
