/**
 * `String.toTMType`: one line of outline text to a node.  The whole-line
 * pattern `(\s*)(-?)\s*(.+?)(:?)` is written out as the search the regex
 * engine performs, trying the greedy parts longest first and the reluctant
 * body shortest first.
 */
module LineParser {
  import opened Wrappers
  import opened Chars
  import opened Tags
  import opened Kinds
  import opened Nodes
  import opened TagScan

  // ---------------------------------------------------------------------
  // The body and the optional colon, from position `k` to the end
  // ---------------------------------------------------------------------

  /** A body match: `len` characters, then a colon if `colon`, then the end of the line. */
  datatype BodyMatch = BodyMatch(len: nat, colon: bool)

  /** A body can start at `k`: the rest of the line is non-empty and has no line break. */
  predicate BodyOk(s: string, k: nat) {
    k < |s| && NoNewlineIn(s, k, |s|)
  }

  /** The reluctant body, tried with `b` characters and then longer ones. */
  function BodyFrom(s: string, k: nat, b: nat): (r: Option<BodyMatch>)
    requires 1 <= b && k + b <= |s|
    ensures r.Some? ==> b <= r.value.len && k + r.value.len + (if r.value.colon then 1 else 0) == |s|
    decreases |s| - b
  {
    if k + b + 1 == |s| && s[k + b] == ':' then Some(BodyMatch(b, true))
    else if k + b == |s| then Some(BodyMatch(b, false))
    else if IsNewline(s[k + b]) then None
    else BodyFrom(s, k, b + 1)
  }

  /** The body and colon that follow position `k`, if any. */
  function Body(s: string, k: nat): (r: Option<BodyMatch>)
    requires k <= |s|
    ensures r.Some? ==> 1 <= r.value.len && k + r.value.len + (if r.value.colon then 1 else 0) == |s|
  {
    if k < |s| && !IsNewline(s[k]) then BodyFrom(s, k, 1) else None
  }

  lemma {:induction false} BodyFromCharacterised(s: string, k: nat, b: nat)
    requires 1 <= b && k + b <= |s| && NoNewlineIn(s, k, k + b)
    ensures BodyFrom(s, k, b).Some? <==> NoNewlineIn(s, k, |s|)
    ensures BodyFrom(s, k, b).Some? ==>
      (BodyFrom(s, k, b).value.colon <==> (k + b + 1 <= |s| && s[|s| - 1] == ':'))
    decreases |s| - b
  {
    if k + b + 1 == |s| && s[k + b] == ':' {
    } else if k + b == |s| {
    } else if IsNewline(s[k + b]) {
    } else {
      BodyFromCharacterised(s, k, b + 1);
    }
  }

  /**
   * A body follows `k` exactly when the rest of the line is non-empty and has
   * no line break; the colon is taken exactly when the rest has at least two
   * characters and ends in `:`.
   */
  lemma BodyCharacterised(s: string, k: nat)
    requires k <= |s|
    ensures Body(s, k).Some? <==> BodyOk(s, k)
    ensures Body(s, k).Some? ==> (Body(s, k).value.colon <==> (|s| - k >= 2 && s[|s| - 1] == ':'))
  {
    if k < |s| && !IsNewline(s[k]) {
      BodyFromCharacterised(s, k, 1);
    }
  }

  // ---------------------------------------------------------------------
  // Indent, hyphen and gap, in the order the engine backtracks over them
  // ---------------------------------------------------------------------

  /** What the whole-line match captures. */
  datatype LineMatch = LineMatch(indent: nat, hyphen: bool, gap: nat, body: string, colon: bool)

  function HyphenWidth(hyphen: bool): nat {
    if hyphen then 1 else 0
  }

  /** The gap tried with `j` whitespace characters, then fewer. */
  function TryGap(s: string, i: nat, h: nat, j: nat): (r: Option<LineMatch>)
    requires h <= 1 && i + h + j <= |s|
    ensures r.Some? ==> r.value.indent == i && r.value.hyphen == (h == 1) && r.value.gap <= j
    decreases j
  {
    var k := i + h + j;
    var bm := Body(s, k);
    if bm.Some? then Some(LineMatch(i, h == 1, j, s[k..k + bm.value.len], bm.value.colon))
    else if j == 0 then None
    else TryGap(s, i, h, j - 1)
  }

  /** The optional hyphen: present first, then absent. */
  function TryHyphen(s: string, i: nat): (r: Option<LineMatch>)
    requires i <= |s|
    ensures r.Some? ==> r.value.indent == i
  {
    var dashed := if i < |s| && s[i] == '-' then TryGap(s, i, 1, WhitespaceRun(s, i + 1)) else None;
    if dashed.Some? then dashed else TryGap(s, i, 0, WhitespaceRun(s, i))
  }

  /** The indent tried with `i` whitespace characters, then fewer. */
  function TryIndent(s: string, i: nat): (r: Option<LineMatch>)
    requires i <= |s|
    ensures r.Some? ==> r.value.indent <= i
    decreases i
  {
    var m := TryHyphen(s, i);
    if m.Some? then m else if i == 0 then None else TryIndent(s, i - 1)
  }

  /** `tmTypeSearch.wholeMatch(in:)`. */
  function MatchLine(s: string): Option<LineMatch> {
    TryIndent(s, WhitespaceRun(s, 0))
  }

  /**
   * A way to split the line that the pattern allows: `i` whitespace
   * characters, `h` hyphens (none or one), `j` more whitespace characters,
   * then a body that runs to the end of the line without a line break.
   */
  predicate CanSplit(s: string, i: nat, h: nat, j: nat) {
    h <= 1 && i + h + j < |s| && WhitespaceIn(s, 0, i) && (h == 1 ==> s[i] == '-') &&
    WhitespaceIn(s, i + h, i + h + j) && BodyOk(s, i + h + j)
  }

  /** What a match says about the line it came from. */
  predicate Describes(s: string, m: LineMatch) {
    var k := m.indent + HyphenWidth(m.hyphen) + m.gap;
    CanSplit(s, m.indent, HyphenWidth(m.hyphen), m.gap) &&
    |m.body| >= 1 && k + |m.body| <= |s| && m.body == s[k..k + |m.body|] &&
    (m.colon <==> (|s| - k >= 2 && s[|s| - 1] == ':')) &&
    k + |m.body| + (if m.colon then 1 else 0) == |s|
  }

  lemma DescribesIntro(s: string, m: LineMatch, k: nat)
    requires k == m.indent + HyphenWidth(m.hyphen) + m.gap
    requires CanSplit(s, m.indent, HyphenWidth(m.hyphen), m.gap)
    requires |m.body| >= 1 && k + |m.body| <= |s| && m.body == s[k..k + |m.body|]
    requires m.colon <==> (|s| - k >= 2 && s[|s| - 1] == ':')
    requires k + |m.body| + (if m.colon then 1 else 0) == |s|
    ensures Describes(s, m)
  {
  }

  /** The prefix conditions of a split: indent, hyphen and gap. */
  predicate SplitHead(s: string, i: nat, h: nat, j: nat) {
    h <= 1 && i + h + j <= |s| && WhitespaceIn(s, 0, i) && (h == 1 ==> i < |s| && s[i] == '-') &&
    WhitespaceIn(s, i + h, i + h + j)
  }

  lemma GapValue(s: string, i: nat, h: nat, j: nat)
    requires h <= 1 && i + h + j <= |s| && Body(s, i + h + j).Some?
    ensures TryGap(s, i, h, j) == Some(LineMatch(i, h == 1, j, s[i + h + j..i + h + j + Body(s, i + h + j).value.len],
                                                  Body(s, i + h + j).value.colon))
  {
  }

  /** A gap after which a body follows yields a match that describes the line. */
  lemma GapFound(s: string, i: nat, h: nat, j: nat)
    requires SplitHead(s, i, h, j) && Body(s, i + h + j).Some?
    ensures TryGap(s, i, h, j).Some? && Describes(s, TryGap(s, i, h, j).value)
  {
    var k := i + h + j;
    var bm := Body(s, k).value;
    var m := LineMatch(i, h == 1, j, s[k..k + bm.len], bm.colon);
    GapValue(s, i, h, j);
    BodyCharacterised(s, k);
    assert HyphenWidth(m.hyphen) == h;
    DescribesIntro(s, m, k);
  }

  /** A gap after which no body follows is not a split the pattern allows. */
  lemma GapMissed(s: string, i: nat, h: nat, j: nat)
    requires h <= 1 && i + h + j <= |s|
    requires Body(s, i + h + j).None?
    ensures !CanSplit(s, i, h, j)
  {
    BodyCharacterised(s, i + h + j);
  }

  lemma {:induction false} TryGapCorrect(s: string, i: nat, h: nat, j: nat)
    requires SplitHead(s, i, h, j)
    ensures TryGap(s, i, h, j).Some? ==> Describes(s, TryGap(s, i, h, j).value)
    ensures TryGap(s, i, h, j).None? ==> forall j': nat :: j' <= j ==> !CanSplit(s, i, h, j')
    decreases j
  {
    if Body(s, i + h + j).Some? {
      GapFound(s, i, h, j);
    } else {
      GapMissed(s, i, h, j);
      if j > 0 {
        assert SplitHead(s, i, h, j - 1);
        TryGapCorrect(s, i, h, j - 1);
      }
    }
  }

  /** A split's gap never goes past the run of whitespace the engine starts from. */
  lemma GapBounded(s: string, i: nat, h: nat, j: nat)
    requires CanSplit(s, i, h, j)
    ensures j <= WhitespaceRun(s, i + h)
  {
    WhitespaceRunCovers(s, i + h, i + h + j);
  }

  /** The same for the indent. */
  lemma IndentBounded(s: string, i: nat, h: nat, j: nat)
    requires CanSplit(s, i, h, j)
    ensures i <= WhitespaceRun(s, 0)
  {
    WhitespaceRunCovers(s, 0, i);
  }

  lemma TryHyphenCorrect(s: string, i: nat)
    requires i <= |s| && WhitespaceIn(s, 0, i)
    ensures TryHyphen(s, i).Some? ==> Describes(s, TryHyphen(s, i).value)
    ensures TryHyphen(s, i).None? ==> forall h: nat, j: nat :: !CanSplit(s, i, h, j)
  {
    if i < |s| && s[i] == '-' {
      WhitespaceRunAll(s, i + 1);
      TryGapCorrect(s, i, 1, WhitespaceRun(s, i + 1));
    }
    WhitespaceRunAll(s, i);
    TryGapCorrect(s, i, 0, WhitespaceRun(s, i));
    forall h: nat, j: nat | CanSplit(s, i, h, j)
      ensures j <= WhitespaceRun(s, i + h)
    {
      GapBounded(s, i, h, j);
    }
  }

  lemma {:induction false} TryIndentCorrect(s: string, i: nat)
    requires i <= |s| && WhitespaceIn(s, 0, i)
    ensures TryIndent(s, i).Some? ==> Describes(s, TryIndent(s, i).value)
    ensures TryIndent(s, i).None? ==> forall i': nat, h: nat, j: nat :: i' <= i ==> !CanSplit(s, i', h, j)
    decreases i
  {
    TryHyphenCorrect(s, i);
    if TryHyphen(s, i).None? && i > 0 {
      TryIndentCorrect(s, i - 1);
    }
  }

  /**
   * The whole-line match succeeds exactly when the line can be split as the
   * pattern allows, and what it captures is such a split.
   */
  lemma MatchLineCorrect(s: string)
    ensures MatchLine(s).Some? ==> Describes(s, MatchLine(s).value)
    ensures MatchLine(s).None? <==> forall i: nat, h: nat, j: nat :: !CanSplit(s, i, h, j)
  {
    WhitespaceRunAll(s, 0);
    TryIndentCorrect(s, WhitespaceRun(s, 0));
    forall i: nat, h: nat, j: nat | CanSplit(s, i, h, j)
      ensures i <= WhitespaceRun(s, 0)
    {
      IndentBounded(s, i, h, j);
    }
    if MatchLine(s).Some? {
      var m := MatchLine(s).value;
      assert CanSplit(s, m.indent, HyphenWidth(m.hyphen), m.gap);
    }
  }

  // ---------------------------------------------------------------------
  // Cutting the text before its first tag: `(.+?)\s*@.*`
  // ---------------------------------------------------------------------

  /** The reluctant capture tried with `p` characters, then longer ones. */
  function NormalizeFrom(t: string, p: nat): (r: Option<nat>)
    requires 1 <= p <= |t|
    ensures r.Some? ==> p <= r.value < |t|
    decreases |t| - p
  {
    var w := WhitespaceRun(t, p);
    if p + w < |t| && t[p + w] == '@' && NoNewlineIn(t, p + w + 1, |t|) then Some(p)
    else if p < |t| && !IsNewline(t[p]) then NormalizeFrom(t, p + 1)
    else None
  }

  /**
   * `normalizeText.wholeMatch(in: text)`: the length of the captured text,
   * if the text has the form `text whitespace @ rest`.
   */
  function NormalizeCut(t: string): (r: Option<nat>)
    ensures r.Some? ==> 1 <= r.value < |t|
  {
    if 1 <= |t| && !IsNewline(t[0]) then NormalizeFrom(t, 1) else None
  }

  /** Position `p` can end the kept text: `w` whitespace characters and an `@` follow it. */
  predicate CutAt(t: string, p: nat, w: nat) {
    1 <= p && p + w < |t| && WhitespaceIn(t, p, p + w) && t[p + w] == '@'
  }

  /** Only the whole whitespace run can be followed by the `@`. */
  lemma CutAtRun(t: string, p: nat, w: nat)
    requires CutAt(t, p, w)
    ensures w == WhitespaceRun(t, p)
  {
    WhitespaceRunCovers(t, p, p + w);
    WhitespaceRunAll(t, p);
  }

  lemma CutAtFound(t: string, p: nat)
    requires 1 <= p <= |t| && p + WhitespaceRun(t, p) < |t| && t[p + WhitespaceRun(t, p)] == '@'
    ensures CutAt(t, p, WhitespaceRun(t, p))
  {
    WhitespaceRunAll(t, p);
  }

  lemma {:induction false} NormalizeFromCorrect(t: string, p: nat)
    requires 1 <= p <= |t| && NoNewlineIn(t, 0, |t|)
    ensures NormalizeFrom(t, p).Some? ==>
      CutAt(t, NormalizeFrom(t, p).value, WhitespaceRun(t, NormalizeFrom(t, p).value)) &&
      forall q: nat, w: nat :: p <= q < NormalizeFrom(t, p).value ==> !CutAt(t, q, w)
    ensures NormalizeFrom(t, p).None? ==> forall q: nat, w: nat :: p <= q ==> !CutAt(t, q, w)
    decreases |t| - p
  {
    var w := WhitespaceRun(t, p);
    if p + w < |t| && t[p + w] == '@' {
      CutAtFound(t, p);
    } else {
      forall w': nat | CutAt(t, p, w')
        ensures false
      {
        CutAtRun(t, p, w');
      }
      if p < |t| {
        NormalizeFromCorrect(t, p + 1);
      }
    }
  }

  /**
   * On a line without line breaks, the kept text ends at the first position
   * `p >= 1` after which only whitespace comes before an `@`; there is no cut
   * when no such position exists.
   */
  lemma NormalizeCutCorrect(t: string)
    requires NoNewlineIn(t, 0, |t|)
    ensures NormalizeCut(t).Some? ==>
      CutAt(t, NormalizeCut(t).value, WhitespaceRun(t, NormalizeCut(t).value)) &&
      forall q: nat, w: nat :: q < NormalizeCut(t).value ==> !CutAt(t, q, w)
    ensures NormalizeCut(t).None? <==> forall q: nat, w: nat :: !CutAt(t, q, w)
  {
    if 1 <= |t| {
      NormalizeFromCorrect(t, 1);
    }
  }

  /** An `@` anywhere but at the start always leaves a cut. */
  lemma NormalizeCutAfterAt(t: string, q: nat)
    requires NoNewlineIn(t, 0, |t|) && 1 <= q < |t| && t[q] == '@'
    ensures NormalizeCut(t).Some? && NormalizeCut(t).value <= q
  {
    assert CutAt(t, q, 0);
    NormalizeCutCorrect(t);
  }

  // ---------------------------------------------------------------------
  // The line parser
  // ---------------------------------------------------------------------

  /** The text kept for a body: cut before its first tag, if it has one. */
  function KeptText(body: string): (text: string)
    ensures |text| <= |body| && text == body[..|text|]
    ensures |body| >= 1 ==> |text| >= 1
    ensures '@' !in body ==> text == body
  {
    if '@' in body then
      var c := NormalizeCut(body);
      if c.Some? then body[..c.value] else body
    else body
  }

  /** The tags of a body. */
  function BodyTags(body: string): seq<Tag> {
    if '@' in body then TagsOf(body) else []
  }

  /** The node built from what the whole-line match captured. */
  function NodeOf(m: LineMatch): Node {
    var text := KeptText(m.body);
    var kind := if m.colon then Project(text) else if m.hyphen then Task(text) else Text(text);
    if kind.Text? && AllBlank(text) then Node(m.indent + |text|, Text(""), BodyTags(m.body), [])
    else Node(m.indent, kind, BodyTags(m.body), [])
  }

  /** `toTMType` as a function of the line: the node it builds, or none. */
  function ParseLine(s: string): Option<Node> {
    var m := MatchLine(s);
    if m.None? then None else Some(NodeOf(m.value))
  }

  /** `String.toTMType()`, with the whole-line pattern and the tag search as above. */
  method ToTMType(s: string) returns (r: Option<Node>)
    ensures r == ParseLine(s)
  {
    var result := MatchLine(s);
    if result.None? {
      return None;
    }
    var indentationLevel := result.value.indent;
    var isTask := result.value.hyphen;
    var isProject := result.value.colon;
    var text := result.value.body;
    var tags: seq<Tag> := [];
    if '@' in text {
      tags := ExtractTags(text);
      var normalizedResult := NormalizeCut(text);
      if normalizedResult.Some? {
        text := text[..normalizedResult.value];
      }
    }
    var tpType := if isProject then Project(text) else if isTask then Task(text) else Text(text);
    if tpType.Text? && AllBlank(tpType.name) {
      return Some(Node(indentationLevel + |tpType.name|, Text(""), tags, []));
    }
    return Some(Node(indentationLevel, tpType, tags, []));
  }
}
