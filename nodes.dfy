/**
 * The outline node (`TMType`): an indentation level, a kind, a list of tags
 * and a list of child nodes.  Swift's struct is a value type, so each
 * `mutating` method is modelled as a function that returns the updated value;
 * Swift's `==` is the structural equality Dafny gives the datatype.
 */
module Nodes {
  import opened Wrappers
  import opened Chars
  import opened Tags
  import opened Kinds

  datatype Node = Node(tabLevel: nat, kind: Kind, tags: seq<Tag>, children: seq<Node>)

  /** A node with no tags and no children, as `TMType(tabLevel:type:)` builds it. */
  function Leaf(level: nat, kind: Kind): Node {
    Node(level, kind, [], [])
  }

  // ---------------------------------------------------------------------
  // Updates (`set(indent:)`, `append(tag:)`, `append(child:)`, `replace`)
  // ---------------------------------------------------------------------

  /** `set(indent:)`: only the level changes. */
  function SetIndent(n: Node, indent: nat): (r: Node)
    ensures r.tabLevel == indent
    ensures r.kind == n.kind && r.tags == n.tags && r.children == n.children
  {
    n.(tabLevel := indent)
  }

  /** `append(tag:)`: one more tag at the end, nothing else changes. */
  function AppendTag(n: Node, t: Tag): (r: Node)
    ensures r.tags == n.tags + [t]
    ensures r.tabLevel == n.tabLevel && r.kind == n.kind && r.children == n.children
  {
    n.(tags := n.tags + [t])
  }

  /** `append(child:)`: one more child at the end, nothing else changes. */
  function AppendChild(n: Node, c: Node): (r: Node)
    ensures r.children == n.children + [c]
    ensures r.tabLevel == n.tabLevel && r.kind == n.kind && r.tags == n.tags
  {
    n.(children := n.children + [c])
  }

  /** `replace(child:at:)`: an index outside the children changes nothing. */
  function ReplaceChildAt(n: Node, c: Node, index: int): (r: Node)
    ensures !(0 <= index < |n.children|) ==> r == n
    ensures r.tabLevel == n.tabLevel && r.kind == n.kind && r.tags == n.tags
    ensures |r.children| == |n.children|
    ensures forall j :: 0 <= j < |n.children| && j != index ==> r.children[j] == n.children[j]
    ensures 0 <= index < |n.children| ==> r.children[index] == c
  {
    if 0 <= index < |n.children| then n.(children := n.children[index := c]) else n
  }

  /**
   * `replace(child:with:)`: replaces the first child structurally equal to
   * `child` and reports whether there was one.
   */
  function ReplaceChild(n: Node, child: Node, updated: Node): (r: (Node, bool))
    ensures r.1 <==> child in n.children
    ensures !r.1 ==> r.0 == n
    ensures r.0.tabLevel == n.tabLevel && r.0.kind == n.kind && r.0.tags == n.tags
    ensures |r.0.children| == |n.children|
    ensures forall j :: 0 <= j < |n.children| ==>
      r.0.children[j] == (if n.children[j] == child && child !in n.children[..j] then updated else n.children[j])
  {
    var i := FirstIndexOf(n.children, child);
    if i == -1 then (n, false)
    else
      assert forall j :: 0 <= j < |n.children| ==> (child in n.children[..j] <==> i < j) by {
        forall j | 0 <= j < |n.children| ensures child in n.children[..j] <==> i < j {
          if i < j { assert n.children[..j][i] == child; }
        }
      }
      (n.(children := n.children[i := updated]), true)
  }

  /** `isEqualWithoutChildren(to:)`: level, kind and tags agree. */
  predicate IsEqualWithoutChildren(a: Node, b: Node) {
    a.tabLevel == b.tabLevel && a.kind == b.kind && a.tags == b.tags
  }

  /** Two nodes that agree apart from their children and have the same children are equal. */
  lemma EqualWithoutChildrenAndSameChildren(a: Node, b: Node)
    requires IsEqualWithoutChildren(a, b) && a.children == b.children
    ensures a == b
  {
  }

  // ---------------------------------------------------------------------
  // The right spine and the searches along it
  // ---------------------------------------------------------------------

  function LastOf(cs: seq<Node>): Node
    requires cs != []
  {
    cs[|cs| - 1]
  }

  /** The nodes met by following the last child, starting below `n`. */
  function RightSpine(n: Node): (sp: seq<Node>)
    ensures n.children == [] <==> sp == []
    ensures sp != [] ==> sp[0] == LastOf(n.children)
    decreases n
  {
    if n.children == [] then [] else [LastOf(n.children)] + RightSpine(LastOf(n.children))
  }

  /** `lastChild()`: the deepest node on the right spine. */
  function LastChild(n: Node): (r: Option<Node>)
    ensures r.None? <==> n.children == []
    ensures r.Some? ==> r.value.children == [] && r.value == LastOf(RightSpine(n))
    decreases n
  {
    if n.children == [] then None
    else
      var last := LastOf(n.children);
      match LastChild(last)
      case Some(d) => Some(d)
      case None => Some(last)
  }

  /** `lastChild(with:)`: the first node on the right spine at level `level`. */
  function LastChildWith(n: Node, level: nat): (r: Option<Node>)
    ensures r.Some? ==> r.value.tabLevel == level && r.value in RightSpine(n)
    ensures r.None? <==> forall x :: x in RightSpine(n) ==> x.tabLevel != level
    decreases n
  {
    if n.children == [] then None
    else
      var last := LastOf(n.children);
      if last.tabLevel == level then Some(last) else LastChildWith(last, level)
  }

  /**
   * `parent(of:)`: `n` itself when `x` is one of its children, otherwise the
   * search continues in the last child only.
   */
  function ParentOf(n: Node, x: Node): (r: Option<Node>)
    ensures r.Some? ==> x in r.value.children && (r.value == n || r.value in RightSpine(n))
    ensures r.None? <==> (x !in n.children && forall s :: s in RightSpine(n) ==> x !in s.children)
    decreases n
  {
    if x in n.children then Some(n)
    else if n.children == [] then None
    else ParentOf(LastOf(n.children), x)
  }

  /** The path `parent(of:)` walks: the node itself, then its chain of last children. */
  function Path(n: Node): seq<Node> {
    [n] + RightSpine(n)
  }

  /** `parent(of:)` gives the topmost holder on the path: no node above it holds `x`. */
  lemma {:induction false} ParentOfTopmost(n: Node, x: Node)
    requires ParentOf(n, x).Some?
    ensures exists i :: 0 <= i < |Path(n)| && Path(n)[i] == ParentOf(n, x).value &&
                        forall j :: 0 <= j < i ==> x !in Path(n)[j].children
    decreases n
  {
    if x in n.children {
      assert Path(n)[0] == n;
    } else {
      var last := LastOf(n.children);
      ParentOfTopmost(last, x);
      var i :| 0 <= i < |Path(last)| && Path(last)[i] == ParentOf(last, x).value &&
        forall j :: 0 <= j < i ==> x !in Path(last)[j].children;
      assert Path(n) == [n] + Path(last);
      assert Path(n)[i + 1] == Path(last)[i];
      forall j | 0 <= j < i + 1
        ensures x !in Path(n)[j].children
      {
        if j > 0 {
          assert Path(n)[j] == Path(last)[j - 1];
        }
      }
    }
  }

  /** `lastChild(with:)` gives the highest node on the chain at that level: none above it has the level. */
  lemma {:induction false} LastChildWithFirst(n: Node, level: nat)
    requires LastChildWith(n, level).Some?
    ensures exists i :: 0 <= i < |RightSpine(n)| && RightSpine(n)[i] == LastChildWith(n, level).value &&
                        forall j :: 0 <= j < i ==> RightSpine(n)[j].tabLevel != level
    decreases n
  {
    var last := LastOf(n.children);
    assert RightSpine(n) == [last] + RightSpine(last);
    if last.tabLevel == level {
      assert RightSpine(n)[0] == last;
    } else {
      LastChildWithFirst(last, level);
      var i :| 0 <= i < |RightSpine(last)| && RightSpine(last)[i] == LastChildWith(last, level).value &&
        forall j :: 0 <= j < i ==> RightSpine(last)[j].tabLevel != level;
      assert RightSpine(n)[i + 1] == RightSpine(last)[i];
      forall j | 0 <= j < i + 1
        ensures RightSpine(n)[j].tabLevel != level
      {
        if j > 0 {
          assert RightSpine(n)[j] == RightSpine(last)[j - 1];
        }
      }
    }
  }

  // ---------------------------------------------------------------------
  // Size, the measure that bounds the climb in the normalizer
  // ---------------------------------------------------------------------

  function Size(n: Node): nat
    decreases n, 1
  {
    1 + ChildrenSize(n, 0)
  }

  function ChildrenSize(n: Node, i: nat): nat
    requires i <= |n.children|
    decreases n, 0, |n.children| - i
  {
    if i == |n.children| then 0 else Size(n.children[i]) + ChildrenSize(n, i + 1)
  }

  lemma {:induction false} ChildrenSizeCovers(n: Node, i: nat, j: nat)
    requires i <= j < |n.children|
    ensures Size(n.children[j]) <= ChildrenSize(n, i)
    decreases j - i
  {
    if i < j { ChildrenSizeCovers(n, i + 1, j); }
  }

  /** A direct child is strictly smaller than its parent. */
  lemma ChildSmaller(n: Node, c: Node)
    requires c in n.children
    ensures Size(c) < Size(n)
  {
    var j :| 0 <= j < |n.children| && n.children[j] == c;
    ChildrenSizeCovers(n, 0, j);
  }

  /** Every node on the right spine is strictly smaller than the node it hangs below. */
  lemma {:induction false} SpineSmaller(n: Node, s: Node)
    requires s in RightSpine(n)
    ensures Size(s) < Size(n)
    decreases n
  {
    var last := LastOf(n.children);
    ChildSmaller(n, last);
    if s != last { SpineSmaller(last, s); }
  }

  /** The right spine of the last child is the tail of the right spine. */
  lemma SpineOfLast(n: Node, s: Node)
    requires n.children != [] && s in RightSpine(LastOf(n.children))
    ensures s in RightSpine(n)
  {
  }

  // ---------------------------------------------------------------------
  // Serialisation (`toString`)
  // ---------------------------------------------------------------------

  /** Append `piece`, with `sep` before it unless the text so far is empty. */
  function Joined(acc: string, sep: string, piece: string): string {
    if acc == [] then piece else acc + sep + piece
  }

  /** The loop shape `toString` uses twice: join each piece onto the text so far. */
  function JoinAll(acc: string, sep: string, pieces: seq<string>): string
    decreases |pieces|
  {
    if pieces == [] then acc else JoinAll(Joined(acc, sep, pieces[0]), sep, pieces[1..])
  }

  function TagTexts(ts: seq<Tag>): (r: seq<string>)
    ensures |r| == |ts| && forall i :: 0 <= i < |ts| ==> r[i] == ts[i].ToString()
  {
    seq(|ts|, i requires 0 <= i < |ts| => ts[i].ToString())
  }

  /** The first line: tabs, the kind's text, then the tags. */
  function HeadLine(n: Node): string {
    JoinAll(Tabs(n.tabLevel) + n.kind.ToString(), " ", TagTexts(n.tags))
  }

  /** `toString`: the first line, then every child's text on lines of its own. */
  function Serialize(n: Node): string
    decreases n, 1
  {
    JoinAll(HeadLine(n), "\n", ChildTexts(n))
  }

  function ChildTexts(n: Node): (r: seq<string>)
    ensures |r| == |n.children|
    decreases n, 0
  {
    seq(|n.children|, i requires 0 <= i < |n.children| => Serialize(n.children[i]))
  }

  /** `toString` as it is written: a `var result` grown by two loops. */
  method Render(n: Node) returns (result: string)
    ensures result == Serialize(n)
    decreases n
  {
    result := Tabs(n.tabLevel);
    result := result + n.kind.ToString();
    ghost var texts := TagTexts(n.tags);
    ghost var head := result;
    var i := 0;
    while i < |n.tags|
      invariant 0 <= i <= |n.tags|
      invariant JoinAll(result, " ", texts[i..]) == JoinAll(head, " ", texts)
    {
      JoinAllStep(result, " ", texts[i..]);
      assert texts[i..][1..] == texts[i + 1..];
      ghost var before := result;
      if result != [] {
        result := result + " ";
      }
      result := result + n.tags[i].ToString();
      assert result == Joined(before, " ", texts[i]);
      i := i + 1;
    }
    assert texts[i..] == [];
    if n.children == [] {
      return;
    }
    ghost var lines := ChildTexts(n);
    var j := 0;
    while j < |n.children|
      invariant 0 <= j <= |n.children|
      invariant JoinAll(result, "\n", lines[j..]) == Serialize(n)
    {
      JoinAllStep(result, "\n", lines[j..]);
      assert lines[j..][1..] == lines[j + 1..];
      ghost var before := result;
      if result != [] {
        result := result + "\n";
      }
      var child := Render(n.children[j]);
      result := result + child;
      assert result == Joined(before, "\n", lines[j]);
      j := j + 1;
    }
    assert lines[j..] == [];
  }

  lemma JoinAllStep(acc: string, sep: string, pieces: seq<string>)
    requires pieces != []
    ensures JoinAll(acc, sep, pieces) == JoinAll(Joined(acc, sep, pieces[0]), sep, pieces[1..])
  {
  }

  // A reference form of the serialisation: when the text so far is not
  // empty, every piece follows its separator.

  function Prefixed(sep: string, pieces: seq<string>): string
    decreases |pieces|
  {
    if pieces == [] then "" else sep + pieces[0] + Prefixed(sep, pieces[1..])
  }

  lemma AppendAssoc(a: string, b: string, c: string)
    ensures a + b + c == a + (b + c)
  {
  }

  lemma {:induction false} JoinAllPrefixed(acc: string, sep: string, pieces: seq<string>)
    requires acc != []
    ensures JoinAll(acc, sep, pieces) == acc + Prefixed(sep, pieces)
    decreases |pieces|
  {
    if pieces != [] {
      JoinAllPrefixed(acc + sep + pieces[0], sep, pieces[1..]);
      AppendAssoc(acc, sep + pieces[0], Prefixed(sep, pieces[1..]));
    }
  }

  /**
   * The serialisation starts with `tabLevel` tabs and the kind's text; when
   * that is not empty, each tag follows with a space before it and each child
   * on a new line.
   */
  lemma SerializeShape(n: Node)
    requires Tabs(n.tabLevel) + n.kind.ToString() != []
    ensures Serialize(n) == Tabs(n.tabLevel) + n.kind.ToString() + Prefixed(" ", TagTexts(n.tags)) + Prefixed("\n", ChildTexts(n))
  {
    var head := Tabs(n.tabLevel) + n.kind.ToString();
    JoinAllPrefixed(head, " ", TagTexts(n.tags));
    JoinAllPrefixed(HeadLine(n), "\n", ChildTexts(n));
  }

  /** A leaf serialises to its first line alone. */
  lemma SerializeLeaf(n: Node)
    requires n.tags == [] && n.children == []
    ensures Serialize(n) == Tabs(n.tabLevel) + n.kind.ToString()
  {
  }
}
