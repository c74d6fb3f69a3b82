/**
 * `TMType.TestSampleModel`, the forest the tests compare `normalize(_:)`
 * of the parsed sample file against, and its round trip: its text, read
 * back line by line and folded, is the forest again.
 *
 * The longer names are spelled in short pieces joined by `+`; the string
 * is the same, and the facts about its characters are proved piece by
 * piece.
 */
module SampleModel {
  import opened Chars
  import opened Tags
  import opened Kinds
  import opened Nodes
  import opened TagScan
  import opened LineFacts
  import opened Initializers
  import opened OutlineFold
  import opened OutlineText

  // ---------------------------------------------------------------------
  // The entries of the first project
  // ---------------------------------------------------------------------

  function NotesText(): Node { Leaf(1, Text("Notes on " + "a project.")) }
  function OwnershipText(): Node {
    Leaf(1, Text("TaskPaper uses a " + "hierarchical " + "structure to keep " + "track of parents " + "and ownership."))
  }
  function BelowText(): Node { Leaf(1, Text("ie; all of the " + "below items are " + "within this project.")) }
  function NoteAboutItem(): Node { Leaf(3, Text("Note about " + "that item.")) }
  function ChildItem(): Node { Node(2, Task("Child item " + "with a note."), [], [NoteAboutItem()]) }
  function ItemTask(): Node { Node(1, Task("Item for " + "that project."), [], [ChildItem()]) }
  function TaggedItem(): Node { Node(1, Task("Tagged Item"), [BareTag("tag")], []) }
  function PayloadItem(): Node {
    Node(1, Task("Tagged Item " + "where the tag " + "has a payload"), [PayloadTag("tag", "payload")], [])
  }
  function FormatsText(): Node {
    Leaf(1, Text("Let's illustrate " + "some of the time " + "formats that " + "we've worked " + "so hard on."))
  }
  function CompletedTask(): Node {
    Node(1, Task("Something " + "completed"),
      [BareTag("test"), PayloadTag("due", "2024-11-23"), PayloadTag("done", "2024-11-23")], [])
  }
  function DueTask(): Node {
    Node(1, Task("Something with " + "a set due date " + "and time"),
      [BareTag("test"), PayloadTag("due", "2024-11-24 10:00")], [])
  }
  function AppointmentTask(): Node {
    Node(1, Task("An appointment"), [BareTag("test"), PayloadTag("due", "2024-11-24 " + "10:00-10:30")], [])
  }
  function SpanningTask(): Node {
    Node(1, Task("A spanning " + "appointment"),
      [BareTag("test"), PayloadTag("due", "2024-11-23 11:00" + " thru " + "2024-11-24 10:00")], [])
  }

  function ProjectItems(): seq<Node> {
    [NotesText(), OwnershipText(), BelowText(), ItemTask(), TaggedItem(), PayloadItem(),
     FormatsText(), CompletedTask(), DueTask(), AppointmentTask(), SpanningTask()]
  }

  function FirstProject(): Node { Node(0, Project("Project"), [], ProjectItems()) }
  function OtherItem(): Node { Leaf(1, Task("Item for the " + "other project")) }
  function OtherProject(): Node { Node(0, Project("Other " + "Project"), [], [OtherItem()]) }
  function EmptyLine(): Node { Leaf(0, Text("")) }

  /** The sample forest: a project, an empty line, another project and a last empty line. */
  function TestSampleModel(): seq<Node> {
    [FirstProject(), EmptyLine(), OtherProject(), EmptyLine()]
  }

  // ---------------------------------------------------------------------
  // Characters
  // ---------------------------------------------------------------------

  /** A stretch of text with no line break, no `@` and no `)`. */
  predicate Quiet(s: string) {
    forall k :: 0 <= k < |s| ==> !IsNewline(s[k]) && s[k] != '@' && s[k] != ')'
  }

  lemma QuietConcat(a: string, b: string)
    requires Quiet(a) && Quiet(b)
    ensures Quiet(a + b)
  {
    forall k | 0 <= k < |a + b|
      ensures !IsNewline((a + b)[k]) && (a + b)[k] != '@' && (a + b)[k] != ')'
    {
      if k < |a| {
        assert (a + b)[k] == a[k];
      } else {
        assert (a + b)[k] == b[k - |a|];
      }
    }
  }

  /** A quiet name that starts with neither whitespace nor a hyphen is plain. */
  lemma QuietPlain(s: string)
    requires Quiet(s) && |s| >= 1 && !IsWhitespace(s[0]) && s[0] != '-'
    ensures PlainName(s)
  {
    forall k | 0 <= k < |s|
      ensures s[k] != '@'
    {
    }
  }

  /** A quiet, non-empty payload under a name of word characters is well formed. */
  lemma QuietPayload(name: string, payload: string)
    requires |name| >= 1 && (forall k :: 0 <= k < |name| ==> IsWordChar(name[k]))
    requires Quiet(payload) && |payload| >= 1
    ensures WellFormed(PayloadTag(name, payload))
  {
  }

  // ---------------------------------------------------------------------
  // Each entry reads back as itself
  // ---------------------------------------------------------------------

  /** A childless text line with a plain name that does not end in a colon. */
  lemma TextReadsBack(x: Node)
    requires x.kind.Text? && x.tags == [] && x.children == []
    requires PlainName(x.kind.name) && x.kind.name[|x.kind.name| - 1] != ':'
    ensures AllReadBack(x)
  {
  }

  /** A task with plain name, well-formed unshadowed tags and no whitespace before them. */
  lemma TaskReadsBack(x: Node)
    requires x.kind.Task? && PlainName(x.kind.name)
    requires x.kind.name[|x.kind.name| - 1] != ':' && !IsWhitespace(x.kind.name[|x.kind.name| - 1])
    requires (forall k :: 0 <= k < |x.tags| ==> WellFormed(x.tags[k])) && Unshadowed(x.tags)
    ensures ReadsBack(x)
  {
  }

  lemma NotesReadsBack()
    ensures AllReadBack(NotesText())
  {
    var a, b := "Notes on ", "a project.";
    assert Quiet(a) && Quiet(b);
    QuietConcat(a, b);
    QuietPlain(a + b);
    TextReadsBack(NotesText());
  }

  lemma OwnershipName(a: string, b: string, c: string, d: string, e: string)
    requires a == "TaskPaper uses a " && b == "hierarchical " && c == "structure to keep "
    requires d == "track of parents " && e == "and ownership."
    ensures Quiet(a + b + c + d + e)
  {
    assert Quiet(a) && Quiet(b) && Quiet(c) && Quiet(d) && Quiet(e);
    QuietConcat(a, b);
    QuietConcat(a + b, c);
    QuietConcat(a + b + c, d);
    QuietConcat(a + b + c + d, e);
  }

  lemma OwnershipReadsBack()
    ensures AllReadBack(OwnershipText())
  {
    var a, b, c, d, e := "TaskPaper uses a ", "hierarchical ", "structure to keep ", "track of parents ", "and ownership.";
    OwnershipName(a, b, c, d, e);
    QuietPlain(a + b + c + d + e);
    TextReadsBack(OwnershipText());
  }

  lemma BelowReadsBack()
    ensures AllReadBack(BelowText())
  {
    var a, b, c := "ie; all of the ", "below items are ", "within this project.";
    assert Quiet(a) && Quiet(b) && Quiet(c);
    QuietConcat(a, b);
    QuietConcat(a + b, c);
    QuietPlain(a + b + c);
    TextReadsBack(BelowText());
  }

  lemma NoteAboutReadsBack()
    ensures AllReadBack(NoteAboutItem())
  {
    var a, b := "Note about ", "that item.";
    assert Quiet(a) && Quiet(b);
    QuietConcat(a, b);
    QuietPlain(a + b);
    TextReadsBack(NoteAboutItem());
  }

  lemma ChildReadsBack()
    ensures AllReadBack(ChildItem())
  {
    NoteAboutReadsBack();
    var c, d := "Child item ", "with a note.";
    assert Quiet(c) && Quiet(d);
    QuietConcat(c, d);
    QuietPlain(c + d);
    TaskReadsBack(ChildItem());
  }

  lemma ItemReadsBack()
    ensures AllReadBack(ItemTask())
  {
    ChildReadsBack();
    var e, f := "Item for ", "that project.";
    assert Quiet(e) && Quiet(f);
    QuietConcat(e, f);
    QuietPlain(e + f);
    TaskReadsBack(ItemTask());
  }

  lemma TaggedReadsBack()
    ensures AllReadBack(TaggedItem())
  {
    assert Quiet("Tagged Item");
    QuietPlain("Tagged Item");
    TaskReadsBack(TaggedItem());
  }

  lemma PayloadReadsBack()
    ensures AllReadBack(PayloadItem())
  {
    var a, b, c := "Tagged Item ", "where the tag ", "has a payload";
    assert Quiet(a) && Quiet(b) && Quiet(c);
    QuietConcat(a, b);
    QuietConcat(a + b, c);
    QuietPlain(a + b + c);
    assert Quiet("payload");
    QuietPayload("tag", "payload");
    TaskReadsBack(PayloadItem());
  }

  lemma FormatsName(a: string, b: string, c: string, d: string, e: string)
    requires a == "Let's illustrate " && b == "some of the time " && c == "formats that "
    requires d == "we've worked " && e == "so hard on."
    ensures Quiet(a + b + c + d + e)
  {
    assert Quiet(a) && Quiet(b) && Quiet(c) && Quiet(d) && Quiet(e);
    QuietConcat(a, b);
    QuietConcat(a + b, c);
    QuietConcat(a + b + c, d);
    QuietConcat(a + b + c + d, e);
  }

  lemma FormatsReadsBack()
    ensures AllReadBack(FormatsText())
  {
    var a, b, c, d, e := "Let's illustrate ", "some of the time ", "formats that ", "we've worked ", "so hard on.";
    FormatsName(a, b, c, d, e);
    QuietPlain(a + b + c + d + e);
    TextReadsBack(FormatsText());
  }

  lemma CompletedReadsBack()
    ensures AllReadBack(CompletedTask())
  {
    var a, b := "Something ", "completed";
    assert Quiet(a) && Quiet(b);
    QuietConcat(a, b);
    QuietPlain(a + b);
    assert Quiet("2024-11-23");
    QuietPayload("due", "2024-11-23");
    QuietPayload("done", "2024-11-23");
    TaskReadsBack(CompletedTask());
  }

  lemma DueName(a: string, b: string, c: string)
    requires a == "Something with " && b == "a set due date " && c == "and time"
    ensures PlainName(a + b + c)
  {
    assert Quiet(a) && Quiet(b) && Quiet(c);
    QuietConcat(a, b);
    QuietConcat(a + b, c);
    QuietPlain(a + b + c);
  }

  lemma DueReadsBack()
    ensures AllReadBack(DueTask())
  {
    DueName("Something with ", "a set due date ", "and time");
    assert Quiet("2024-11-24 10:00");
    QuietPayload("due", "2024-11-24 10:00");
    TaskReadsBack(DueTask());
  }

  lemma AppointmentReadsBack()
    ensures AllReadBack(AppointmentTask())
  {
    assert Quiet("An appointment");
    QuietPlain("An appointment");
    var a, b := "2024-11-24 ", "10:00-10:30";
    assert Quiet(a) && Quiet(b);
    QuietConcat(a, b);
    QuietPayload("due", a + b);
    TaskReadsBack(AppointmentTask());
  }

  lemma SpanningReadsBack()
    ensures AllReadBack(SpanningTask())
  {
    var a, b := "A spanning ", "appointment";
    assert Quiet(a) && Quiet(b);
    QuietConcat(a, b);
    QuietPlain(a + b);
    var c, d, e := "2024-11-23 11:00", " thru ", "2024-11-24 10:00";
    assert Quiet(c) && Quiet(d) && Quiet(e);
    QuietConcat(c, d);
    QuietConcat(c + d, e);
    QuietPayload("due", c + d + e);
    TaskReadsBack(SpanningTask());
  }

  lemma OtherReadsBack()
    ensures AllReadBack(OtherProject())
  {
    var a, b := "Item for the ", "other project";
    assert Quiet(a) && Quiet(b);
    QuietConcat(a, b);
    QuietPlain(a + b);
    TaskReadsBack(OtherItem());
    var c, d := "Other ", "Project";
    assert Quiet(c) && Quiet(d);
    QuietConcat(c, d);
    QuietPlain(c + d);
  }

  lemma FirstReadsBack()
    ensures AllReadBack(FirstProject())
  {
    NotesReadsBack();
    OwnershipReadsBack();
    BelowReadsBack();
    ItemReadsBack();
    TaggedReadsBack();
    PayloadReadsBack();
    FormatsReadsBack();
    CompletedReadsBack();
    DueReadsBack();
    AppointmentReadsBack();
    SpanningReadsBack();
    assert Quiet("Project");
    QuietPlain("Project");
  }

  // ---------------------------------------------------------------------
  // Nesting
  // ---------------------------------------------------------------------

  /** The first project's entries differ pairwise apart from their children. */
  lemma ItemsDistinct()
    ensures forall i, j :: 0 <= i < j < |ProjectItems()| ==>
      !IsEqualWithoutChildren(ProjectItems()[i], ProjectItems()[j])
  {
    var cs := ProjectItems();
    var lengths := [19, 79, 51, 22, 11, 39, 71, 19, 38, 14, 22];
    assert forall i :: 0 <= i < 11 ==> |cs[i].kind.name| == lengths[i];
  }

  /** Each entry of the first project sits one level below it, with its own children nested. */
  lemma ItemsNested()
    ensures forall i :: 0 <= i < |ProjectItems()| ==>
      ProjectItems()[i].tabLevel == 1 && WellNested(ProjectItems()[i])
  {
    var cs := ProjectItems();
    forall i | 0 <= i < |cs|
      ensures cs[i].tabLevel == 1 && WellNested(cs[i])
    {
      if i == 3 {
        assert WellNested(NoteAboutItem());
        assert WellNested(ChildItem());
      } else {
        assert cs[i].children == [];
      }
    }
  }

  lemma FirstNested()
    ensures WellNested(FirstProject())
  {
    ItemsNested();
    ItemsDistinct();
    var cs := ProjectItems();
    forall c | c in cs
      ensures c.tabLevel == 1 && WellNested(c)
    {
      var i :| 0 <= i < |cs| && cs[i] == c;
    }
  }

  lemma OtherNested()
    ensures WellNested(OtherProject())
  {
    assert WellNested(OtherItem());
  }

  lemma SampleNested()
    ensures NestedForest(TestSampleModel())
  {
    var f := TestSampleModel();
    forall i | 0 <= i < |f|
      ensures f[i].tabLevel == 0 && WellNested(f[i])
    {
      if i == 0 {
        FirstNested();
      } else if i == 2 {
        OtherNested();
      } else {
        assert f[i] == EmptyLine();
      }
    }
  }

  /** The sample forest is an outline that survives the round trip. */
  lemma SampleIsOutline()
    ensures Outline(TestSampleModel())
  {
    SampleNested();
    var f := TestSampleModel();
    FirstReadsBack();
    OtherReadsBack();
    assert AllReadBack(EmptyLine());
    forall i | 0 <= i < |f|
      ensures AllReadBack(f[i]) && (f[i].kind.name == [] ==> f[i].children == [])
    {
    }
  }

  /**
   * The tests' round trip: the roots' `toString`, joined by line breaks,
   * parsed and normalized, is `TestSampleModel` again.
   */
  lemma TestSampleRoundTrip()
    ensures Normalized(ParsedModels(FileText(TestSampleModel()))) == TestSampleModel()
  {
    SampleIsOutline();
    OutlineRoundTrip(TestSampleModel());
  }
}
