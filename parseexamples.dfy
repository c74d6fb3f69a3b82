/**
 * The line parser on the lines its unit tests feed it: indents of spaces and
 * tabs, the three kinds and their precedence, a line of blanks, tags, and
 * the empty line.
 */
module LineExamples {
  import opened Wrappers
  import opened Chars
  import opened Tags
  import opened Kinds
  import opened Nodes
  import opened TagScan
  import opened LineParser
  import opened LineFacts

  // ---------------------------------------------------------------------
  // Lines without tags
  // ---------------------------------------------------------------------

  /** Two spaces of indent count as two levels; the trailing colon makes a project. */
  lemma IndentedProject()
    ensures ParseLine("  Project:") == Some(Node(2, Project("Project"), [], []))
  {
    IndentedProjectShape("  Project:");
    ProjectLine("  Project:", 2, "Project");
  }

  lemma IndentedProjectShape(s: string)
    requires s == "  Project:"
    ensures RoundTrips(Project("Project"))
    ensures |s| == 2 + |"Project"| + 1 && NoNewlineIn(s, 0, |s|) && WhitespaceIn(s, 0, 2)
    ensures s[|s| - 1] == ':' && s[2..|s| - 1] == "Project"
  {
    var name := "Project";
    assert NoNewlineIn(name, 0, |name|) && '@' !in name;
  }

  /** A tab and a space before the hyphen give level two; the hyphen makes a task. */
  lemma IndentedTask()
    ensures ParseLine("\t - Task") == Some(Node(2, Task("Task"), [], []))
  {
    IndentedTaskShape("\t - Task");
    TaskLine("\t - Task", 2, "Task");
  }

  lemma IndentedTaskShape(s: string)
    requires s == "\t - Task"
    ensures RoundTrips(Task("Task"))
    ensures |s| == 2 + 2 + |"Task"| && NoNewlineIn(s, 0, |s|) && WhitespaceIn(s, 0, 2)
    ensures s[2] == '-' && s[3] == ' ' && s[4..] == "Task"
  {
    var name := "Task";
    assert NoNewlineIn(name, 0, |name|) && '@' !in name;
  }

  /** Five spaces before plain text. */
  lemma IndentedText()
    ensures ParseLine("     Text") == Some(Node(5, Text("Text"), [], []))
  {
    IndentedTextShape("     Text");
    TextLine("     Text", 5, "Text");
  }

  lemma IndentedTextShape(s: string)
    requires s == "     Text"
    ensures RoundTrips(Text("Text"))
    ensures |s| == 5 + |"Text"| && NoNewlineIn(s, 0, |s|) && WhitespaceIn(s, 0, 5) && s[5..] == "Text"
  {
    var name := "Text";
    assert NoNewlineIn(name, 0, |name|) && '@' !in name;
  }

  /** The trailing colon wins over the leading hyphen: `- task:` is a project. */
  lemma ProjectBeatsTask()
    ensures ParseLine("- task:") == Some(Node(0, Project("task"), [], []))
  {
    var s := "- task:";
    ProjectBeatsTaskShape(s);
    MatchLineDashed(s, 0, 1, "task", true);
    PlainNode(LineMatch(0, true, 1, "task", true));
  }

  lemma ProjectBeatsTaskShape(s: string)
    requires s == "- task:"
    ensures NoNewlineIn(s, 0, |s|) && |s| == 7 && WhitespaceIn(s, 0, 0) && s[0] == '-'
    ensures WhitespaceIn(s, 1, 2) && !IsWhitespace(s[2])
    ensures ColonWidth(s, 2) == 1 && s[2..6] == "task"
    ensures '@' !in "task" && !IsBlank("task"[0])
  {
  }

  /** A line of blanks is empty text, its level counting every blank. */
  lemma BlankLine()
    ensures ParseLine(" \t \t ") == Some(Node(5, Text(""), [], []))
  {
    var s := " \t \t ";
    assert AllBlank(s);
    WhitespaceOnlyLine(s);
  }

  /** The empty line has no body, so the parser gives up on it. */
  lemma EmptyLine()
    ensures ParseLine("") == None
  {
    ParseEmptyLine();
  }

  /** A task without tags. */
  lemma BareTask()
    ensures ParseLine("- task") == Some(Node(0, Task("task"), [], []))
  {
    BareTaskShape("- task");
    TaskLine("- task", 0, "task");
  }

  lemma BareTaskShape(s: string)
    requires s == "- task"
    ensures RoundTrips(Task("task"))
    ensures |s| == 0 + 2 + |"task"| && NoNewlineIn(s, 0, |s|) && WhitespaceIn(s, 0, 0)
    ensures s[0] == '-' && s[1] == ' ' && s[2..] == "task"
  {
    var name := "task";
    assert NoNewlineIn(name, 0, |name|) && '@' !in name;
  }

  // ---------------------------------------------------------------------
  // Lines with tags
  // ---------------------------------------------------------------------

  /** The match of a task line `- body` whose body has no final colon. */
  lemma DashedLine(s: string, body: string)
    requires |s| >= 3 && s[0] == '-' && s[1] == ' ' && !IsWhitespace(s[2]) && s[|s| - 1] != ':'
    requires NoNewlineIn(s, 0, |s|) && body == s[2..]
    ensures ParseLine(s) == Some(NodeOf(LineMatch(0, true, 1, body, false)))
  {
    assert WhitespaceIn(s, 0, 0) && WhitespaceIn(s, 1, 2);
    assert ColonWidth(s, 2) == 0;
    MatchLineDashed(s, 0, 1, body, false);
  }

  /** The node of a task body whose kept text and tags are known. */
  lemma TaskNode(m: LineMatch, text: string, tags: seq<Tag>)
    requires m.hyphen && !m.colon && KeptText(m.body) == text && BodyTags(m.body) == tags
    ensures NodeOf(m) == Node(m.indent, Task(text), tags, [])
  {
  }

  /** The shape of a task line `- body`. */
  lemma DashedShape(s: string, body: string)
    requires |body| >= 1 && s == "- " + body && NoNewlineIn(body, 0, |body|)
    requires !IsWhitespace(body[0]) && body[|body| - 1] != ':'
    ensures |s| >= 3 && s[0] == '-' && s[1] == ' ' && !IsWhitespace(s[2]) && s[|s| - 1] != ':'
    ensures NoNewlineIn(s, 0, |s|) && body == s[2..]
  {
    assert forall k :: 2 <= k < |s| ==> s[k] == body[k - 2];
  }

  /** The text of `task @tag...` is cut before the space that precedes the tag. */
  lemma CutBeforeTag(t: string)
    requires |t| >= 6 && t[..6] == "task @" && NoNewlineIn(t, 0, |t|)
    ensures NormalizeCut(t) == Some(4) && KeptText(t) == "task"
  {
    assert t[0] == 't' && t[1] == 'a' && t[2] == 's' && t[3] == 'k' && t[4] == ' ' && t[5] == '@';
    assert WhitespaceRun(t, 1) == 0 && WhitespaceRun(t, 2) == 0 && WhitespaceRun(t, 3) == 0;
    assert WhitespaceRun(t, 4) == 1 by {
      assert WhitespaceRun(t, 5) == 0;
    }
    assert NormalizeFrom(t, 4) == Some(4);
    assert NormalizeFrom(t, 3) == Some(4);
    assert NormalizeFrom(t, 2) == Some(4);
    assert NormalizeFrom(t, 1) == Some(4);
    assert '@' in t by {
      assert t[5] == '@';
    }
    assert t[..4] == "task";
  }

  /** In `task @tag...` the scans first meet a tag at position 5, and its name is `tag`. */
  lemma TagAtFive(t: string)
    requires |t| >= 10 && t[..9] == "task @tag" && !IsWordChar(t[9])
    ensures BareScan(t, 0) == BareScan(t, 5) && PayloadScan(t, 0) == PayloadScan(t, 5)
    ensures TagStartsAt(t, 5) && NameAt(t, 5) == "tag"
  {
    assert forall k :: 0 <= k < 9 ==> t[k] == "task @tag"[k];
    BareScanSkips(t, 0, 5);
    PayloadScanSkips(t, 0, 5);
    WordRunExact(t, 6, 9);
    assert t[6..9] == "tag";
  }

  /** The bare scan of `task @tag`. */
  lemma BareOfTag(t: string)
    requires t == "task @tag"
    ensures BareScan(t, 0) == [BareTag("tag")] && PayloadScan(t, 0) == []
  {
    assert forall k :: 0 <= k < 5 ==> t[k] == "task "[k];
    BareScanSkips(t, 0, 5);
    PayloadScanSkips(t, 0, 5);
    WordRunExact(t, 6, 9);
    assert t[6..9] == "tag";
    assert WhitespaceRun(t, 9) == 0;
    BareScanAtTag(t, 5, "tag", 9);
    assert PayloadAt(t, 5) == None;
    PayloadScanNeedsAt(t, 6);
  }

  /** The tags of `task @tag`. */
  lemma TagsOfBare(t: string)
    requires t == "task @tag"
    ensures TagsOf(t) == [BareTag("tag")] && BodyTags(t) == [BareTag("tag")]
  {
    BareOfTag(t);
    assert t[5] == '@';
  }

  /** `- task @tag`: the text stops before the tag, which is kept as a bare tag. */
  lemma TaskWithTag()
    ensures ParseLine("- task @tag") == Some(Node(0, Task("task"), [BareTag("tag")], []))
  {
    var body := "task @tag";
    assert NoNewlineIn(body, 0, |body|) && body[..6] == "task @";
    DashedShape("- task @tag", body);
    DashedLine("- task @tag", body);
    CutBeforeTag(body);
    TagsOfBare(body);
    TaskNode(LineMatch(0, true, 1, body, false), "task", [BareTag("tag")]);
  }

  /** The payload match of `task @tag(payload)`. */
  lemma PayloadOfTag(t: string)
    requires t == "task @tag(payload)" && NameAt(t, 5) == "tag"
    ensures PayloadAt(t, 5) == Some(PayloadMatch("tag", "payload", 18))
  {
    CloseFromFinds(t, 10, 1, 7);
    assert t[10..17] == "payload";
    assert WhitespaceRun(t, 18) == 0;
    PayloadAtFromPartsOf(t, 5, PayloadMatch("tag", "payload", 18));
  }

  /** The two scans of `task @tag(payload)`. */
  lemma ScansOfPayload(t: string)
    requires t == "task @tag(payload)"
    ensures BareScan(t, 0) == [BareTag("tag")] && PayloadScan(t, 0) == [PayloadTag("tag", "payload")]
  {
    assert t[..9] == "task @tag";
    TagAtFive(t);
    BareOfPayload(t);
    PayloadOfTag(t);
    PayloadScanNeedsAt(t, 18);
  }

  lemma BareOfPayload(t: string)
    requires t == "task @tag(payload)" && TagStartsAt(t, 5) && NameAt(t, 5) == "tag"
    ensures BareScan(t, 5) == [BareTag("tag")]
  {
    assert WhitespaceRun(t, 9) == 0;
    BareScanAtTag(t, 5, "tag", 9);
    BareScanNeedsAt(t, 9);
  }

  /** The tags of `task @tag(payload)`: the payload tag takes the bare tag's place. */
  lemma TagsOfPayload(t: string)
    requires t == "task @tag(payload)"
    ensures TagsOf(t) == [PayloadTag("tag", "payload")] && BodyTags(t) == [PayloadTag("tag", "payload")]
  {
    ScansOfPayload(t);
    assert FirstIndexOf([BareTag("tag")], BareTag("tag")) == 0;
    assert Merge([BareTag("tag")], [PayloadTag("tag", "payload")]) == [PayloadTag("tag", "payload")];
    assert t[5] == '@';
  }

  /** `- task @tag(payload)`: the same text, now with a payload tag. */
  lemma TaskWithPayloadTag()
    ensures ParseLine("- task @tag(payload)") == Some(Node(0, Task("task"), [PayloadTag("tag", "payload")], []))
  {
    var body := "task @tag(payload)";
    assert NoNewlineIn(body, 0, |body|) && body[..6] == "task @";
    DashedShape("- task @tag(payload)", body);
    DashedLine("- task @tag(payload)", body);
    CutBeforeTag(body);
    TagsOfPayload(body);
    TaskNode(LineMatch(0, true, 1, body, false), "task", [PayloadTag("tag", "payload")]);
  }

  /** The three task lines of the unit test all give the kind `task("task")`. */
  lemma TasksWithIdenticalText()
    ensures ParseLine("- task").Some? && ParseLine("- task").value.kind == Task("task")
    ensures ParseLine("- task @tag").Some? && ParseLine("- task @tag").value.kind == Task("task")
    ensures ParseLine("- task @tag(payload)").Some? && ParseLine("- task @tag(payload)").value.kind == Task("task")
  {
    BareTask();
    TaskWithTag();
    TaskWithPayloadTag();
  }

  /** `@tag` has no text before its tag, so nothing is cut from it. */
  lemma NothingBeforeTag(t: string)
    requires t == "@tag"
    ensures KeptText(t) == t
  {
    assert NoNewlineIn(t, 0, |t|);
    NormalizeCutCorrect(t);
    assert forall q: nat, w: nat :: !CutAt(t, q, w);
    assert t[0] == '@';
  }

  /** The tags of `@tag`. */
  lemma TagsOfLeadingTag(t: string)
    requires t == "@tag"
    ensures BodyTags(t) == [BareTag("tag")]
  {
    WordRunExact(t, 1, 4);
    assert t[1..4] == "tag";
    BareScanAtTag(t, 0, "tag", 4);
    assert PayloadAt(t, 0) == None;
    PayloadScanNeedsAt(t, 1);
    assert t[0] == '@';
  }

  /** A body that starts with its tag keeps the tag text in the name and still yields the tag. */
  lemma TaskThatIsATag()
    ensures ParseLine("- @tag") == Some(Node(0, Task("@tag"), [BareTag("tag")], []))
  {
    var body := "@tag";
    assert NoNewlineIn(body, 0, |body|);
    DashedShape("- @tag", body);
    DashedLine("- @tag", body);
    NothingBeforeTag(body);
    TagsOfLeadingTag(body);
    TaskNode(LineMatch(0, true, 1, body, false), "@tag", [BareTag("tag")]);
  }
}
