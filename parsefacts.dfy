/**
 * What the line parser does with the lines it is given: when it gives up,
 * how the indent, the kind and the text come out, the worked examples, and
 * the round trip through the serialiser for plain entries.
 */
module LineFacts {
  import opened Wrappers
  import opened Chars
  import opened Tags
  import opened Kinds
  import opened Nodes
  import opened TagScan
  import opened LineParser

  /** `toTMType` gives up exactly when no split of the line fits the pattern. */
  lemma ParseLineNone(s: string)
    ensures ParseLine(s).None? <==> forall i: nat, h: nat, j: nat :: !CanSplit(s, i, h, j)
  {
    MatchLineCorrect(s);
  }

  /** The empty line has no body, so it is rejected. */
  lemma ParseEmptyLine()
    ensures ParseLine("") == None
  {
    ParseLineNone("");
  }

  /** The colon taken off the end of a body that starts at `k`. */
  function ColonWidth(s: string, k: nat): nat
    requires k <= |s|
  {
    if |s| - k >= 2 && s[|s| - 1] == ':' then 1 else 0
  }

  /** The match when the body starts at `k`, after indent `i`, hyphen `h` and gap `j`. */
  lemma MatchAt(s: string, i: nat, h: nat, j: nat)
    requires h <= 1 && i + h + j < |s| && NoNewlineIn(s, 0, |s|)
    ensures var k := i + h + j;
      TryGap(s, i, h, j) == Some(LineMatch(i, h == 1, j, s[k..|s| - ColonWidth(s, k)], ColonWidth(s, k) == 1))
  {
    var k := i + h + j;
    BodyCharacterised(s, k);
    GapValue(s, i, h, j);
  }

  // Single steps of the search, each unfolding one function once.

  lemma MatchLineIs(s: string, i: nat)
    requires i == WhitespaceRun(s, 0)
    ensures MatchLine(s) == TryIndent(s, i)
  {
  }

  lemma IndentFirst(s: string, i: nat)
    requires i <= |s| && TryHyphen(s, i).Some?
    ensures TryIndent(s, i) == TryHyphen(s, i)
  {
  }

  lemma IndentBacktracks(s: string, i: nat)
    requires 1 <= i <= |s| && TryHyphen(s, i).None?
    ensures TryIndent(s, i) == TryIndent(s, i - 1)
  {
  }

  lemma HyphenAbsent(s: string, i: nat)
    requires i < |s| && s[i] != '-' && WhitespaceRun(s, i) == 0
    ensures TryHyphen(s, i) == TryGap(s, i, 0, 0)
  {
  }

  lemma HyphenPresent(s: string, i: nat, g: nat)
    requires i < |s| && s[i] == '-' && g == WhitespaceRun(s, i + 1) && TryGap(s, i, 1, g).Some?
    ensures TryHyphen(s, i) == TryGap(s, i, 1, g)
  {
  }

  /** A hyphen at the end of the leading whitespace whose gap search succeeds decides the match. */
  lemma DashedFound(s: string, i: nat, g: nat, m: LineMatch)
    requires i < |s| && i == WhitespaceRun(s, 0) && s[i] == '-' && g == WhitespaceRun(s, i + 1)
    requires TryGap(s, i, 1, g) == Some(m)
    ensures MatchLine(s) == Some(m) && ParseLine(s) == Some(NodeOf(m))
  {
    HyphenPresent(s, i, g);
    IndentFirst(s, i);
    MatchLineIs(s, i);
  }

  /**
   * A line without line breaks whose first non-whitespace character, at `i`,
   * is not a hyphen: the indent is all the leading whitespace and the body
   * is the rest, less a final colon.
   */
  lemma MatchLinePlain(s: string, i: nat, body: string, colon: bool)
    requires NoNewlineIn(s, 0, |s|) && i < |s| && WhitespaceIn(s, 0, i) && !IsWhitespace(s[i]) && s[i] != '-'
    requires colon == (ColonWidth(s, i) == 1) && body == s[i..|s| - ColonWidth(s, i)]
    ensures MatchLine(s) == Some(LineMatch(i, false, 0, body, colon))
    ensures ParseLine(s) == Some(NodeOf(LineMatch(i, false, 0, body, colon)))
  {
    var m := LineMatch(i, false, 0, body, colon);
    WhitespaceRunExact(s, 0, i);
    WhitespaceRunExact(s, i, i);
    MatchAt(s, i, 0, 0);
    assert TryGap(s, i, 0, 0) == Some(m);
    HyphenAbsent(s, i);
    IndentFirst(s, i);
    MatchLineIs(s, i);
    assert MatchLine(s) == Some(m);
  }

  /**
   * A line without line breaks whose first non-whitespace character, at `i`,
   * is a hyphen followed by `g` whitespace characters and then more: a task
   * line, the gap being all the whitespace after the hyphen.
   */
  lemma MatchLineDashed(s: string, i: nat, g: nat, body: string, colon: bool)
    requires NoNewlineIn(s, 0, |s|) && i + 1 + g < |s| && WhitespaceIn(s, 0, i) && s[i] == '-'
    requires WhitespaceIn(s, i + 1, i + 1 + g) && !IsWhitespace(s[i + 1 + g])
    requires colon == (ColonWidth(s, i + 1 + g) == 1) && body == s[i + 1 + g..|s| - ColonWidth(s, i + 1 + g)]
    ensures MatchLine(s) == Some(LineMatch(i, true, g, body, colon))
    ensures ParseLine(s) == Some(NodeOf(LineMatch(i, true, g, body, colon)))
  {
    WhitespaceRunExact(s, 0, i);
    WhitespaceRunExact(s, i + 1, i + 1 + g);
    MatchAt(s, i, 1, g);
    DashedFound(s, i, g, LineMatch(i, true, g, body, colon));
  }

  /** The search tries the whole leading whitespace first, and without the hyphen it always finds a body. */
  lemma MatchLineAtRun(s: string, i: nat)
    requires NoNewlineIn(s, 0, |s|) && i < |s| && WhitespaceIn(s, 0, i) && !IsWhitespace(s[i])
    ensures MatchLine(s).Some? && MatchLine(s) == TryHyphen(s, i)
    ensures !MatchLine(s).value.hyphen ==> MatchLine(s) == TryGap(s, i, 0, 0)
  {
    WhitespaceRunExact(s, 0, i);
    WhitespaceRunExact(s, i, i);
    MatchAt(s, i, 0, 0);
    assert TryHyphen(s, i).Some?;
    IndentFirst(s, i);
    MatchLineIs(s, i);
  }

  /**
   * On a line without line breaks that is not whitespace only, the indent
   * level is the number of leading whitespace characters, tabs and spaces
   * alike.
   */
  lemma IndentIsLeadingWhitespace(s: string, i: nat)
    requires NoNewlineIn(s, 0, |s|) && i < |s| && WhitespaceIn(s, 0, i) && !IsWhitespace(s[i])
    ensures ParseLine(s).Some? && ParseLine(s).value.tabLevel == i
  {
    MatchLineAtRun(s, i);
    var m := MatchLine(s).value;
    if !m.hyphen {
      MatchAt(s, i, 0, 0);
      var text := KeptText(m.body);
      assert text[0] == s[i];
      assert !AllBlank(text);
    }
  }

  /**
   * A line of blanks only: the indent backtracks by one so the body is not
   * empty, and the level is the indent plus the body's length, so every
   * character counts.
   */
  lemma WhitespaceOnlyLine(s: string)
    requires |s| >= 1 && AllBlank(s)
    ensures ParseLine(s) == Some(Node(|s|, Text(""), [], []))
  {
    var n := |s|;
    WhitespaceOnlyMatch(s);
    var m := MatchLine(s).value;
    assert m.body == [s[n - 1]] && !m.colon && !m.hyphen && m.indent == n - 1;
    assert '@' !in m.body;
    assert AllBlank(m.body);
  }

  lemma WhitespaceOnlyMatch(s: string)
    requires |s| >= 1 && AllBlank(s)
    ensures MatchLine(s) == Some(LineMatch(|s| - 1, false, 0, [s[|s| - 1]], false))
  {
    var n := |s|;
    assert NoNewlineIn(s, 0, n) && WhitespaceIn(s, 0, n);
    WhitespaceRunExact(s, 0, n);
    MatchLineIs(s, n);
    WhitespaceOnlyEnd(s);
    IndentBacktracks(s, n);
    WhitespaceOnlyLast(s);
    IndentFirst(s, n - 1);
  }

  /** With the whole line as indent, nothing is left for the body. */
  lemma WhitespaceOnlyEnd(s: string)
    requires |s| >= 1
    ensures TryHyphen(s, |s|).None?
  {
    assert WhitespaceRun(s, |s|) == 0;
    assert Body(s, |s|) == None;
  }

  /** One character fewer of indent leaves that character as the body. */
  lemma WhitespaceOnlyLast(s: string)
    requires |s| >= 1 && AllBlank(s)
    ensures TryHyphen(s, |s| - 1) == Some(LineMatch(|s| - 1, false, 0, [s[|s| - 1]], false))
  {
    var n := |s|;
    assert s[n - 1..n] == [s[n - 1]] by {
      assert |s[n - 1..n]| == 1 && s[n - 1..n][0] == s[n - 1];
    }
    assert ColonWidth(s, n - 1) == 0;
    assert IsWhitespace(s[n - 1]) && s[n - 1] != '-' && !IsNewline(s[n - 1]);
    WhitespaceRunExact(s, n - 1, n);
    assert Body(s, n) == None;
    assert TryGap(s, n - 1, 0, 1) == TryGap(s, n - 1, 0, 0);
    MatchAt(s, n - 1, 0, 0);
  }

  // ---------------------------------------------------------------------
  // Serialise, then parse
  // ---------------------------------------------------------------------

  /** A name the line parser gives back unchanged: no tag, no line break, no leading whitespace or hyphen. */
  predicate PlainName(name: string) {
    |name| >= 1 && '@' !in name && NoNewlineIn(name, 0, |name|) && !IsWhitespace(name[0]) && name[0] != '-'
  }

  /** A kind whose first line parses back to itself: a task or text must not end in a colon. */
  predicate RoundTrips(k: Kind) {
    PlainName(k.name) && (k.Project? || k.name[|k.name| - 1] != ':')
  }

  /** The text of a body without an `@` is kept whole and carries no tags. */
  lemma PlainBody(body: string)
    requires '@' !in body
    ensures KeptText(body) == body && BodyTags(body) == []
  {
  }

  /** The node for a plain body: the kind the colon and hyphen select, at the captured indent. */
  lemma PlainNode(m: LineMatch)
    requires '@' !in m.body && |m.body| >= 1 && !IsBlank(m.body[0])
    ensures NodeOf(m) == Leaf(m.indent, if m.colon then Project(m.body) else if m.hyphen then Task(m.body) else Text(m.body))
  {
    PlainBody(m.body);
  }


  /** A line that is an indent and then a project name and its colon. */
  lemma ProjectLine(s: string, level: nat, name: string)
    requires RoundTrips(Project(name))
    requires |s| == level + |name| + 1 && NoNewlineIn(s, 0, |s|) && WhitespaceIn(s, 0, level)
    requires s[|s| - 1] == ':' && s[level..|s| - 1] == name
    ensures ParseLine(s) == Some(Leaf(level, Project(name)))
  {
    assert s[level] == name[0];
    assert ColonWidth(s, level) == 1;
    MatchLinePlain(s, level, name, true);
    PlainNode(LineMatch(level, false, 0, name, true));
  }

  /** A line that is an indent, a hyphen, a space and then a task name. */
  lemma TaskLine(s: string, level: nat, name: string)
    requires RoundTrips(Task(name))
    requires |s| == level + 2 + |name| && NoNewlineIn(s, 0, |s|) && WhitespaceIn(s, 0, level)
    requires s[level] == '-' && s[level + 1] == ' ' && s[level + 2..] == name
    ensures ParseLine(s) == Some(Leaf(level, Task(name)))
  {
    assert s[level + 2] == name[0] && s[|s| - 1] == name[|name| - 1];
    assert ColonWidth(s, level + 2) == 0;
    MatchLineDashed(s, level, 1, name, false);
    PlainNode(LineMatch(level, true, 1, name, false));
  }

  /** A line that is an indent and then plain text. */
  lemma TextLine(s: string, level: nat, name: string)
    requires RoundTrips(Text(name))
    requires |s| == level + |name| && NoNewlineIn(s, 0, |s|) && WhitespaceIn(s, 0, level)
    requires s[level..] == name
    ensures ParseLine(s) == Some(Leaf(level, Text(name)))
  {
    assert s[level] == name[0] && s[|s| - 1] == name[|name| - 1];
    assert ColonWidth(s, level) == 0;
    MatchLinePlain(s, level, name, false);
    PlainNode(LineMatch(level, false, 0, name, false));
  }

  /** The shape of the line that serialises a project. */
  lemma TabbedProject(level: nat, name: string, s: string)
    requires |name| >= 1 && NoNewlineIn(name, 0, |name|) && s == Tabs(level) + (name + ":")
    ensures |s| == level + |name| + 1 && NoNewlineIn(s, 0, |s|) && WhitespaceIn(s, 0, level)
    ensures s[|s| - 1] == ':' && s[level..|s| - 1] == name
  {
    var rest := name + ":";
    assert rest[0] == name[0] && rest[..|rest| - 1] == name;
    assert NoNewlineIn(rest, 0, |rest|) by {
      assert forall k :: 0 <= k < |name| ==> rest[k] == name[k];
    }
    TabbedFacts(level, rest, 0, 1);
  }

  /** The shape of the line that serialises a task. */
  lemma TabbedTask(level: nat, name: string, s: string)
    requires |name| >= 1 && NoNewlineIn(name, 0, |name|) && s == Tabs(level) + ("- " + name)
    ensures |s| == level + 2 + |name| && NoNewlineIn(s, 0, |s|) && WhitespaceIn(s, 0, level)
    ensures s[level] == '-' && s[level + 1] == ' ' && s[level + 2..] == name
  {
    var rest := "- " + name;
    assert rest[1] == ' ' && rest[2] == name[0] && rest[2..] == name && rest[|rest| - 1] == name[|name| - 1];
    assert NoNewlineIn(rest, 0, |rest|) by {
      assert forall k :: 2 <= k < |rest| ==> rest[k] == name[k - 2];
    }
    TabbedFacts(level, rest, 1, 0);
    TabbedFacts(level, rest, 2, 0);
  }

  /** The shape of the line that serialises a text entry. */
  lemma TabbedText(level: nat, name: string, s: string)
    requires |name| >= 1 && NoNewlineIn(name, 0, |name|) && s == Tabs(level) + name
    ensures |s| == level + |name| && NoNewlineIn(s, 0, |s|) && WhitespaceIn(s, 0, level)
    ensures s[level..] == name
  {
    TabbedFacts(level, name, 0, 0);
  }

  lemma ProjectRoundTrip(level: nat, name: string)
    requires RoundTrips(Project(name))
    ensures ParseLine(Tabs(level) + (name + ":")) == Some(Leaf(level, Project(name)))
  {
    TabbedProject(level, name, Tabs(level) + (name + ":"));
    ProjectLine(Tabs(level) + (name + ":"), level, name);
  }

  lemma TaskRoundTrip(level: nat, name: string)
    requires RoundTrips(Task(name))
    ensures ParseLine(Tabs(level) + ("- " + name)) == Some(Leaf(level, Task(name)))
  {
    TabbedTask(level, name, Tabs(level) + ("- " + name));
    TaskLine(Tabs(level) + ("- " + name), level, name);
  }

  lemma TextRoundTrip(level: nat, name: string)
    requires RoundTrips(Text(name))
    ensures ParseLine(Tabs(level) + name) == Some(Leaf(level, Text(name)))
  {
    TabbedText(level, name, Tabs(level) + name);
    TextLine(Tabs(level) + name, level, name);
  }

  /**
   * A childless, tagless entry with a plain name parses back from its
   * serialised line to itself, at the same level and of the same kind.
   */
  lemma LeafRoundTrip(level: nat, k: Kind)
    requires RoundTrips(k)
    ensures ParseLine(Serialize(Leaf(level, k))) == Some(Leaf(level, k))
  {
    SerializeLeaf(Leaf(level, k));
    match k
    case Project(name) => ProjectRoundTrip(level, name);
    case Task(name) => TaskRoundTrip(level, name);
    case Text(name) => TextRoundTrip(level, name);
  }

  /** An empty text entry below the top level parses back too; at the top level its line is empty. */
  lemma EmptyTextRoundTrip(level: nat)
    ensures level >= 1 ==> ParseLine(Serialize(Leaf(level, Text("")))) == Some(Leaf(level, Text("")))
    ensures level == 0 ==> ParseLine(Serialize(Leaf(level, Text("")))) == None
  {
    SerializeLeaf(Leaf(level, Text("")));
    var s := Tabs(level);
    assert Serialize(Leaf(level, Text(""))) == s;
    if level >= 1 {
      WhitespaceOnlyLine(s);
    } else {
      ParseEmptyLine();
    }
  }
}
