# TaskPaper outline engine, modelled in Dafny

This project models the text-to-outline engine of the TaskManager sample apps. The engine reads TaskPaper-style text: each line is a project (`Name:`), a task (`- Name`) or plain text. A line may carry tags `@name` or `@name(payload)`, and it is indented by tabs or spaces.

The model covers:

- **Display forms.** `TPType`, `Tag` and `TMType` each have a `toString`. `TMType.toString` renders a whole subtree.
- **Line parser.** `String.toTMType` is the whole-line regular expression plus the text normalisation. `String.extractTags` is the tag scan.
- **Tree edits.** These are the `mutating` methods and queries of the `TMType` node (`set(indent:)`, `append(child:)`, `replace(child:with:)`, `lastChild(with:)`, `parent(of:)` and the rest).
- **Parse and fold.** `TMType.parse(string:)` splits the text into one node per line. `TMType.normalize(_:)` and `decideHowToHandle(model:into:)` fold that flat list into a forest by tab level.
- **Date payloads.** `Tag.toTMDateType()` turns a tag payload into a single date or a date range. It uses `DateParameters` and its relatives and their `toDateType()` conversions. `TMDateType.toFormattedDateString` is the way back.
- **Calendar search.** This is the rule of `EventParameters.matches(searchType:)` and `EventResult.matches(searchType:)`, and the `dateFormat` of a set of calendar fields.
- **Master/detail view model.** `TaskMasterAndDetailView.ViewModel` adds, selects and processes the detail view's responses. `Array.subscript(safe:)` is the bounds-checked read.

How the Swift maps to Dafny:

- Swift structs and enums are values, so they become datatypes. Each `mutating` method becomes a function that returns the updated value.
- Swift's synthesised `==` is Dafny's structural equality.
- Code that loops becomes a `method` proved equal to a specification function:
  - `toString` is `Nodes.Render`;
  - `extractTags` is `TagScan.ExtractTags`;
  - `parse` is `Initializers.Parse`;
  - `normalize` is `Initializers.Normalize`;
  - `decideHowToHandle` is `Initializers.DecideHowToHandle`;
  - `matches` is `Events.SearchMatches`.
- Code that only computes becomes a function of the same name, whose properties are the lemmas in the table:
  - `Tag.toTMDateType` is `DatePayload.ToTMDateType`;
  - `TMDateType.toFormattedDateString` is `Dates.ToFormattedDateString`;
  - `DetailMode.isEditing` is `MasterDetail.DetailMode.IsEditing`.
- The view model is a reference type whose fields its methods update, so it becomes a `class`.
- A function that returns nil, a value or throws returns an `Option` of a `Converted` (a value or a `DateError`).
- Regular expressions are written out as the search their engine performs. Greedy parts are tried longest first and reluctant parts shortest first. The lemmas then say what that search finds.

Two behaviours of the code are easy to misread:

- The text kept before the tags starts at the body's second character or later. The prefix in `(.+?)\s*@` is reluctant but non-empty. So a task whose body starts with a tag keeps the tag in its text: `- @tag` is `Task("@tag")` with the tag `tag` (`LineExamples.TaskThatIsATag`).
- `normalize` attaches a node by rebuilding the path with `replace(child:with:)`, which replaces the **first** child equal to the one it looks for. The climb is meant to append below the last entry one level up: once the code knows "where we're appending and their parent" it walks "our way back up" (TMTypeInitializers.swift:106 and 113). The first equal child and the last one differ when two equal siblings are followed by a deeper line; see "## Findings".

## Model

| member | source | states |
|---|---|---|
| Kinds.Kind.ToString | posts/projects/TestingArchitect-2025-07-06/MVVM-Combine/TaskManager/TaskManager/Models/TPType.swift:16-25 | a project displays as its name and a colon, a task as a hyphen, a space and its name, text as itself |
| Tags.Tag.Name | posts/projects/TestingArchitect-2025-07-06/TCA/TaskManager/TaskManager/Models/Tag.swift:31-37 | the name is the same field for a bare tag and a payload tag |
| Tags.Tag.Payload | posts/projects/TestingArchitect-2025-07-06/TCA/TaskManager/TaskManager/Models/Tag.swift:39-43 | the payload is absent exactly for a bare tag, and otherwise is the payload text |
| Tags.ToStringShape | posts/projects/TestingArchitect-2025-07-06/TCA/TaskManager/TaskManager/Models/Tag.swift:46-53 | the display form is `@`, then the name, then nothing for a bare tag or the payload between parentheses |
| Tags.MakeTag | posts/projects/TestingArchitect-2025-07-06/TCA/TaskManager/TaskManager/Models/Tag.swift:16-24 | `Tag(_:payload:)` keeps the name; a missing or empty payload gives a bare tag, and any other payload is kept |
| Tags.MakeTagFromAccessors | posts/projects/TestingArchitect-2025-07-06/TCA/TaskManager/TaskManager/Models/Tag.swift:16-43 | rebuilding a tag from its name and payload accessors gives the same tag, for every tag whose payload is not empty |
| Nodes.SetIndent | posts/projects/Architect-2025-05-25/MVVM/TaskManager/TaskManager/Models/TMType.swift:31-33 | only the tab level changes |
| Nodes.AppendTag | posts/projects/Architect-2025-05-25/MVVM/TaskManager/TaskManager/Models/TMType.swift:35-37 | the tag goes at the end of the tags and nothing else changes |
| Nodes.AppendChild | posts/projects/Architect-2025-05-25/MVVM/TaskManager/TaskManager/Models/TMType.swift:39-41 | the child goes at the end of the children and nothing else changes |
| Nodes.ReplaceChildAt | posts/projects/Architect-2025-05-25/MVVM/TaskManager/TaskManager/Models/TMType.swift:43-48 | an index outside the children changes nothing; otherwise only that child is replaced, and the length is kept |
| Nodes.ReplaceChild | posts/projects/Architect-2025-05-25/MVVM/TaskManager/TaskManager/Models/TMType.swift:50-57 | replaces the first child equal to the one given, reports whether there was one, and leaves the node alone when there was not |
| Nodes.EqualWithoutChildrenAndSameChildren | posts/projects/Architect-2025-05-25/MVVM/TaskManager/TaskManager/Models/TMType.swift:60-64 | two nodes equal without their children and with the same children are equal |
| Nodes.RightSpine | posts/projects/Architect-2025-05-25/MVVM/TaskManager/TaskManager/Models/TMType.swift:66-81 | the chain of last children is empty exactly for a node without children, and starts at the last child |
| Nodes.LastChild | posts/projects/Architect-2025-05-25/MVVM/TaskManager/TaskManager/Models/TMType.swift:66-70 | absent exactly without children; otherwise the childless node at the end of the chain of last children |
| Nodes.LastChildWith | posts/projects/Architect-2025-05-25/MVVM/TaskManager/TaskManager/Models/TMType.swift:72-81 | a node on the chain of last children with the level asked for, and absent exactly when that chain has none |
| Nodes.ParentOf | posts/projects/Architect-2025-05-25/MVVM/TaskManager/TaskManager/Models/TMType.swift:83-90 | a node on the path (the root or the chain of last children) that holds the node as a child, and absent exactly when none does |
| Nodes.ParentOfTopmost | posts/projects/Architect-2025-05-25/MVVM/TaskManager/TaskManager/Models/TMType.swift:83-90 | the node found is the topmost holder on the path: no node above it on the path holds the node as a child, because each node is checked before its last child |
| Nodes.LastChildWithFirst | posts/projects/Architect-2025-05-25/MVVM/TaskManager/TaskManager/Models/TMType.swift:72-81 | the node found is the highest on the chain of last children with that level: no node above it on the chain has the level |
| Nodes.ChildSmaller | posts/projects/Architect-2025-05-25/MVVM/TaskManager/TaskManager/Models/TMType.swift:83-90 | a child is smaller than its parent, so the recursive searches end |
| Nodes.SpineSmaller | posts/projects/Architect-2025-05-25/MVVM/TaskManager/TaskManager/Models/TMType.swift:66-90 | every node on the chain of last children is smaller than the root |
| Nodes.TagTexts | posts/projects/Architect-2025-05-25/MVVM/TaskManager/TaskManager/Models/TMType.swift:93-111 | one display form per tag, in the tags' order |
| Nodes.Render | posts/projects/Architect-2025-05-25/MVVM/TaskManager/TaskManager/Models/TMType.swift:93-111 | the loops of `toString` build exactly the recursive serialisation |
| Nodes.SerializeShape | posts/projects/Architect-2025-05-25/MVVM/TaskManager/TaskManager/Models/TMType.swift:93-111 | the text is the tabs, the kind's display form, each tag after a space, and each child's text after a newline |
| Nodes.SerializeLeaf | posts/projects/Architect-2025-05-25/MVVM/TaskManager/TaskManager/Models/TMType.swift:93-111 | a node with no tags and no children is its tabs followed by its kind's display form |
| Chars.WhitespaceRun | posts/projects/SwiftUI-2025-05-11/TaskManager/TaskManager/Utilities/Extensions/StringExtensions.swift:63-90 | a greedy `\s*` stops at the end or at the first character that is not whitespace |
| Chars.WordRun | posts/projects/SwiftUI-2025-05-11/TaskManager/TaskManager/Utilities/Extensions/StringExtensions.swift:157-176 | a greedy `\w+` stops at the end or at the first character that is not a word character |
| Chars.IsSubstringAt | posts/projects/Architect-2025-05-25/MVVM/TaskManager/TaskManager/Models/EventParameters.swift:96-98 | the substring relation under `contains` holds exactly when the needle occurs at some position of the text |
| Chars.FirstIndexOf | posts/projects/Architect-2025-05-25/MVVM/TaskManager/TaskManager/Models/TMType.swift:50-57 | -1 exactly when the element is absent; otherwise an index holding it, with no earlier one |
| Chars.LastIndexOf | posts/projects/Architect-2025-05-25/MVVM-Combine/TaskManager/TaskManager/Models/TMTypeInitializers.swift:53-58 | -1 exactly when the element is absent; otherwise an index holding it, with no later one |
| LineParser.BodyCharacterised | posts/projects/SwiftUI-2025-05-11/TaskManager/TaskManager/Utilities/Extensions/StringExtensions.swift:63-93 | the reluctant body and the optional colon match exactly when the rest of the line is non-empty and has no newline; the colon is taken exactly when the line ends in one after at least one body character |
| LineParser.TryGapCorrect | posts/projects/SwiftUI-2025-05-11/TaskManager/TaskManager/Utilities/Extensions/StringExtensions.swift:63-93 | trying the gap longest first finds a split, and when it finds none no shorter gap splits the line |
| LineParser.TryHyphenCorrect | posts/projects/SwiftUI-2025-05-11/TaskManager/TaskManager/Utilities/Extensions/StringExtensions.swift:63-93 | trying the hyphen before its absence finds a split at this indent, and when it finds none there is none at this indent |
| LineParser.TryIndentCorrect | posts/projects/SwiftUI-2025-05-11/TaskManager/TaskManager/Utilities/Extensions/StringExtensions.swift:63-93 | backtracking the indent from the longest finds a split, and when it finds none there is none with a shorter indent |
| LineParser.MatchLineCorrect | posts/projects/SwiftUI-2025-05-11/TaskManager/TaskManager/Utilities/Extensions/StringExtensions.swift:63-97 | the whole-line match describes a valid split of the line, and fails exactly when the line has no split at all |
| LineParser.NormalizeCutCorrect | posts/projects/SwiftUI-2025-05-11/TaskManager/TaskManager/Utilities/Extensions/StringExtensions.swift:53-62 | the cut is the first position (after the first character) from which only whitespace precedes an `@`, and no earlier position qualifies |
| LineParser.NormalizeCutAfterAt | posts/projects/SwiftUI-2025-05-11/TaskManager/TaskManager/Utilities/Extensions/StringExtensions.swift:53-62 | any `@` after the first character forces a cut at or before it |
| LineParser.KeptText | posts/projects/SwiftUI-2025-05-11/TaskManager/TaskManager/Utilities/Extensions/StringExtensions.swift:99-112 | the kept text is a prefix of the body, not empty when the body is not, and the whole body when it has no `@` |
| LineParser.ToTMType | posts/projects/SwiftUI-2025-05-11/TaskManager/TaskManager/Utilities/Extensions/StringExtensions.swift:45-142 | the method computes the line's node as the parse function defines it |
| LineFacts.ParseLineNone | posts/projects/SwiftUI-2025-05-11/TaskManager/TaskManager/Utilities/Extensions/StringExtensions.swift:93-97 | `toTMType` gives nil exactly when the line has no split |
| LineFacts.ParseEmptyLine | posts/projects/SwiftUI-2025-05-11/TaskManager/TaskManager/Utilities/Extensions/StringExtensions.swift:93-97 | the empty line gives nil |
| LineFacts.IndentIsLeadingWhitespace | posts/projects/SwiftUI-2025-05-11/TaskManager/TaskManager/Utilities/Extensions/StringExtensions.swift:63-97 | a line with a non-whitespace character parses, and its tab level is the count of leading whitespace characters (tabs and spaces alike) |
| LineFacts.WhitespaceOnlyLine | posts/projects/SwiftUI-2025-05-11/TaskManager/TaskManager/Utilities/Extensions/StringExtensions.swift:125-133 | a line of blanks becomes empty text whose level counts every blank |
| LineFacts.PlainNode | posts/projects/SwiftUI-2025-05-11/TaskManager/TaskManager/Utilities/Extensions/StringExtensions.swift:114-123 | without tags, a trailing colon makes a project, else a hyphen makes a task, else text |
| LineFacts.ProjectRoundTrip | posts/projects/SwiftUI-2025-05-11/TaskManager/TaskManager/Utilities/Extensions/StringExtensions.swift:45-142 | parsing a serialised project line gives the project back at its level |
| LineFacts.TaskRoundTrip | posts/projects/SwiftUI-2025-05-11/TaskManager/TaskManager/Utilities/Extensions/StringExtensions.swift:45-142 | parsing a serialised task line gives the task back at its level |
| LineFacts.TextRoundTrip | posts/projects/SwiftUI-2025-05-11/TaskManager/TaskManager/Utilities/Extensions/StringExtensions.swift:45-142 | parsing a serialised text line gives the text back at its level |
| LineFacts.LeafRoundTrip | posts/projects/Architect-2025-05-25/MVVM/TaskManager/TaskManager/Models/TMType.swift:93-111 | `toTMType` inverts `toString` on every untagged leaf of a kind whose name can be read back |
| LineFacts.EmptyTextRoundTrip | posts/projects/SwiftUI-2025-05-11/TaskManager/TaskManager/Utilities/Extensions/StringExtensions.swift:125-133 | empty text comes back with its level when indented, and gives nil at level 0 |
| LineExamples.IndentedProject | posts/projects/SwiftUI-2025-05-11/TaskManager/TaskManagerTests/StringExtensionsTests.swift:15-20 | `  Project:` is a project at level 2 |
| LineExamples.IndentedTask | posts/projects/SwiftUI-2025-05-11/TaskManager/TaskManager/Utilities/Extensions/StringExtensions.swift:63-97 | a tab and a space before `- Task` give a task at level 2 |
| LineExamples.IndentedText | posts/projects/SwiftUI-2025-05-11/TaskManager/TaskManagerTests/StringExtensionsTests.swift:115-120 | `     Text` is text at level 5 |
| LineExamples.ProjectBeatsTask | posts/projects/SwiftUI-2025-05-11/TaskManager/TaskManager/Utilities/Extensions/StringExtensions.swift:114-123 | `- task:` is a project named `task`: the colon decides before the hyphen |
| LineExamples.BlankLine | posts/projects/SwiftUI-2025-05-11/TaskManager/TaskManagerTests/StringExtensionsTests.swift:134-138 | ` \t \t ` is empty text at level 5 |
| LineExamples.EmptyLine | posts/projects/SwiftUI-2025-05-11/TaskManager/TaskManager/Utilities/Extensions/StringExtensions.swift:93-97 | the empty line is nil |
| LineExamples.BareTask | posts/projects/SwiftUI-2025-05-11/TaskManager/TaskManagerTests/StringExtensionsTests.swift:29-33 | `- task` is a task with no tags |
| LineExamples.TaskWithTag | posts/projects/SwiftUI-2025-05-11/TaskManager/TaskManagerTests/StringExtensionsTests.swift:35-39 | `- task @tag` is the task `task` with the bare tag `tag` |
| LineExamples.TaskWithPayloadTag | posts/projects/SwiftUI-2025-05-11/TaskManager/TaskManagerTests/StringExtensionsTests.swift:41-46 | `- task @tag(payload)` is the task `task` with one payload tag, and no bare tag of the same name |
| LineExamples.TasksWithIdenticalText | posts/projects/SwiftUI-2025-05-11/TaskManager/TaskManagerTests/StringExtensionsTests.swift:104-112 | the three lines with and without tags all give the kind `Task("task")` |
| LineExamples.TaskThatIsATag | posts/projects/SwiftUI-2025-05-11/TaskManager/TaskManager/Utilities/Extensions/StringExtensions.swift:53-62 | a body that starts with a tag keeps it as its text and also as a tag |
| TagScan.NameAt | posts/projects/SwiftUI-2025-05-11/TaskManager/TaskManager/Utilities/Extensions/StringExtensions.swift:170-176 | a tag name is at least one character and lies inside the text |
| TagScan.CloseFromShortest | posts/projects/SwiftUI-2025-05-11/TaskManager/TaskManager/Utilities/Extensions/StringExtensions.swift:157-168 | the reluctant payload ends at the first `)` after at least one character, with no newline before it |
| TagScan.PayloadAtSpans | posts/projects/SwiftUI-2025-05-11/TaskManager/TaskManager/Utilities/Extensions/StringExtensions.swift:157-168 | a payload match covers `@`, the name, `(`, the payload and `)` in the text |
| TagScan.BareScanTags | posts/projects/SwiftUI-2025-05-11/TaskManager/TaskManager/Utilities/Extensions/StringExtensions.swift:178-187 | the bare scan gives only bare tags with non-empty names |
| TagScan.PayloadScanTags | posts/projects/SwiftUI-2025-05-11/TaskManager/TaskManager/Utilities/Extensions/StringExtensions.swift:188-202 | the payload scan gives only payload tags with non-empty names and payloads |
| TagScan.Place | posts/projects/SwiftUI-2025-05-11/TaskManager/TaskManager/Utilities/Extensions/StringExtensions.swift:188-202 | a payload tag takes the place of the first bare tag of its name and changes nothing else, or goes at the end when there is none; either way it ends up in the list |
| TagScan.RemoveThenInsert | posts/projects/SwiftUI-2025-05-11/TaskManager/TaskManager/Utilities/Extensions/StringExtensions.swift:193-198 | removing at an index and inserting there is replacing at that index |
| TagScan.ExtractTags | posts/projects/SwiftUI-2025-05-11/TaskManager/TaskManager/Utilities/Extensions/StringExtensions.swift:148-205 | the loops of `extractTags` compute exactly the scan-and-merge function |
| TagScan.NoAtNoTags | posts/projects/SwiftUI-2025-05-11/TaskManager/TaskManager/Utilities/Extensions/StringExtensions.swift:149 | text without `@` has no tags |
| TagScan.MergeKeepsPositions | posts/projects/SwiftUI-2025-05-11/TaskManager/TaskManager/Utilities/Extensions/StringExtensions.swift:188-202 | merging keeps every bare tag's name at its position, either as it was or as a payload tag |
| TagScan.MergeKeepsPayloads | posts/projects/SwiftUI-2025-05-11/TaskManager/TaskManager/Utilities/Extensions/StringExtensions.swift:188-202 | every payload tag found ends up in the result |
| TagScan.MergeStep | posts/projects/SwiftUI-2025-05-11/TaskManager/TaskManager/Utilities/Extensions/StringExtensions.swift:188-202 | placing a payload tag whose name still has a bare tag left upgrades the bare tag of that name with the same rank |
| TagScan.MergeUpgrades | posts/projects/SwiftUI-2025-05-11/TaskManager/TaskManager/Utilities/Extensions/StringExtensions.swift:188-202 | when no name has more payload tags than bare tags, the merge upgrades the r-th bare tag of each name to the r-th payload tag of that name and appends nothing |
| TagScan.BareScanLater | posts/projects/SwiftUI-2025-05-11/TaskManager/TaskManager/Utilities/Extensions/StringExtensions.swift:170-186 | starting the bare scan later finds no more tags of any name |
| TagScan.PayloadsBelowBares | posts/projects/SwiftUI-2025-05-11/TaskManager/TaskManager/Utilities/Extensions/StringExtensions.swift:157-188 | every payload match starts where a bare match of the same name starts, so no name has more payload matches than bare ones |
| TagScan.TagsOfShape | posts/projects/SwiftUI-2025-05-11/TaskManager/TaskManager/Utilities/Extensions/StringExtensions.swift:148-205 | the result has exactly one entry per bare match, in text order; the r-th bare match of a name is the r-th payload match of that name when there is one and is bare otherwise, so each payload match lands on the bare match of its name with its own rank |
| TagScan.TwoTagsExample | posts/projects/SwiftUI-2025-05-11/TaskManager/TaskManagerTests/StringExtensionsTests.swift:48-53 | `@tag @test(pay load)` gives the bare tag `tag` and then the payload tag `test(pay load)` |
| TagScan.TagRoundTrip | posts/projects/TestingArchitect-2025-07-06/TCA/TaskManager/TaskManager/Models/Tag.swift:46-53 | scanning a well-formed tag's display form gives that tag back |
| TagScan.PayloadTagRoundTrip | posts/projects/SwiftUI-2025-05-11/TaskManager/TaskManager/Utilities/Extensions/StringExtensions.swift:157-202 | a well-formed payload tag's display form scans back to exactly that tag, with no bare duplicate |
| Initializers.Lines | posts/projects/Architect-2025-05-25/MVVM-Combine/TaskManager/TaskManager/Models/TMTypeInitializers.swift:26-27 | splitting keeps empty pieces: at least one line, none holding a newline |
| Initializers.JoinLinesOfLines | posts/projects/Architect-2025-05-25/MVVM-Combine/TaskManager/TaskManager/Models/TMTypeInitializers.swift:26-27 | joining the lines with newlines gives the text back |
| Initializers.LinesOfJoinLines | posts/projects/Architect-2025-05-25/MVVM-Combine/TaskManager/TaskManager/Models/TMTypeInitializers.swift:26-27 | splitting newline-joined lines gives the lines back |
| Initializers.LinesCount | posts/projects/Architect-2025-05-25/MVVM-Combine/TaskManager/TaskManager/Models/TMTypeInitializers.swift:26-27 | there is one more line than there are newlines |
| Initializers.Parse | posts/projects/Architect-2025-05-25/MVVM-Combine/TaskManager/TaskManager/Models/TMTypeInitializers.swift:24-40 | one node per line, in order, each the line's parse or its fallback |
| Initializers.EmptyLineNode | posts/projects/Architect-2025-05-25/MVVM-Combine/TaskManager/TaskManager/Models/TMTypeInitializers.swift:31-35 | an empty line is kept as empty text at level 0 |
| Initializers.RejectedLineNode | posts/projects/Architect-2025-05-25/MVVM-Combine/TaskManager/TaskManager/Models/TMTypeInitializers.swift:31-35 | a line the pattern rejects is kept whole as text at level 0 |
| Initializers.ParentSmaller | posts/projects/Architect-2025-05-25/MVVM-Combine/TaskManager/TaskManager/Models/TMTypeInitializers.swift:113-123 | each step up the path reaches a larger node inside the root, so the climb ends |
| Initializers.DecideBelow | posts/projects/Architect-2025-05-25/MVVM-Combine/TaskManager/TaskManager/Models/TMTypeInitializers.swift:71-125 | below the last entry, a node is appended exactly when it is not deeper, and then unchanged |
| Initializers.Decide | posts/projects/Architect-2025-05-25/MVVM-Combine/TaskManager/TaskManager/Models/TMTypeInitializers.swift:65-126 | the node is appended exactly when the list is empty or the node is no deeper than the last entry |
| Initializers.DecideHowToHandle | posts/projects/Architect-2025-05-25/MVVM-Combine/TaskManager/TaskManager/Models/TMTypeInitializers.swift:65-126 | the method, with its climbing loop, makes exactly the choice the function defines |
| Initializers.Normalize | posts/projects/Architect-2025-05-25/MVVM-Combine/TaskManager/TaskManager/Models/TMTypeInitializers.swift:42-63 | the `forEach` fold computes exactly the normalised list |
| NormalizeFacts.SpineHasParent | posts/projects/Architect-2025-05-25/MVVM/TaskManager/TaskManager/Models/TMType.swift:83-90 | every node on the chain of last children has a parent |
| NormalizeFacts.RootHasNoParent | posts/projects/Architect-2025-05-25/MVVM/TaskManager/TaskManager/Models/TMType.swift:83-90 | the root is not its own child, so the climb stops at it |
| NormalizeFacts.ParentOnPath | posts/projects/Architect-2025-05-25/MVVM/TaskManager/TaskManager/Models/TMType.swift:83-90 | a parent found is the root or on the chain of last children |
| NormalizeFacts.SizeIsSum | posts/projects/Architect-2025-05-25/MVVM/TaskManager/TaskManager/Models/TMType.swift:14-18 | a node counts itself and its children's nodes |
| NormalizeFacts.AppendChildSize | posts/projects/Architect-2025-05-25/MVVM/TaskManager/TaskManager/Models/TMType.swift:39-41 | appending a child adds exactly its nodes |
| NormalizeFacts.ReplaceChildSize | posts/projects/Architect-2025-05-25/MVVM/TaskManager/TaskManager/Models/TMType.swift:50-57 | replacing a child trades its nodes for the replacement's |
| NormalizeFacts.ClimbShape | posts/projects/Architect-2025-05-25/MVVM-Combine/TaskManager/TaskManager/Models/TMTypeInitializers.swift:113-125 | the rebuilt root equals the old root apart from its children |
| NormalizeFacts.ClimbSize | posts/projects/Architect-2025-05-25/MVVM-Combine/TaskManager/TaskManager/Models/TMTypeInitializers.swift:113-125 | the climb trades the replaced subtree's nodes for the new one's |
| NormalizeFacts.ClimbUnder | posts/projects/Architect-2025-05-25/MVVM-Combine/TaskManager/TaskManager/Models/TMTypeInitializers.swift:113-125 | the climb keeps every descendant deeper than the root |
| NormalizeFacts.RebuildFacts | posts/projects/Architect-2025-05-25/MVVM-Combine/TaskManager/TaskManager/Models/TMTypeInitializers.swift:106-125 | attaching below the path keeps the root apart from its children and adds exactly the model's nodes |
| NormalizeFacts.DecideReplacesLast | posts/projects/Architect-2025-05-25/MVVM-Combine/TaskManager/TaskManager/Models/TMTypeInitializers.swift:71-125 | a deeper node always replaces the last entry with one equal apart from its children and larger by the model |
| NormalizeFacts.DecideNested | posts/projects/Architect-2025-05-25/MVVM-Combine/TaskManager/TaskManager/Models/TMTypeInitializers.swift:71-125 | attaching a nested node below a nested last entry gives a nested replacement |
| NormalizeFacts.StepAppends | posts/projects/Architect-2025-05-25/MVVM-Combine/TaskManager/TaskManager/Models/TMTypeInitializers.swift:50-51 | a node no deeper than the last entry is appended |
| NormalizeFacts.StepReplacesLast | posts/projects/Architect-2025-05-25/MVVM-Combine/TaskManager/TaskManager/Models/TMTypeInitializers.swift:52-58 | a deeper node changes only the last entry, which stays equal apart from its children; the fallback append never happens |
| NormalizeFacts.NormalizedSnoc | posts/projects/Architect-2025-05-25/MVVM-Combine/TaskManager/TaskManager/Models/TMTypeInitializers.swift:47-60 | normalising one more node is one more fold step |
| NormalizeFacts.NormalizedLength | posts/projects/Architect-2025-05-25/MVVM-Combine/TaskManager/TaskManager/Models/TMTypeInitializers.swift:42-63 | never more roots than nodes, and at least one when there are nodes |
| NormalizeFacts.NormalizedFlat | posts/projects/Architect-2025-05-25/MVVM-Combine/TaskManager/TaskManager/Models/TMTypeInitializers.swift:42-75 | a list that never gets deeper is left as it is |
| NormalizeFacts.NormalizedSize | posts/projects/Architect-2025-05-25/MVVM-Combine/TaskManager/TaskManager/Models/TMTypeInitializers.swift:42-126 | folding keeps the count of nodes |
| NormalizeLines.LinesOfAllUpdate | posts/projects/Architect-2025-05-25/MVVM-Combine/TaskManager/TaskManager/Models/TMTypeInitializers.swift:52-58 | replacing one root swaps its lines for those of the replacement |
| NormalizeLines.AppendChildLines | posts/projects/Architect-2025-05-25/MVVM/TaskManager/TaskManager/Models/TMType.swift:39-41 | appending a child adds exactly its lines |
| NormalizeLines.ReplaceChildLines | posts/projects/Architect-2025-05-25/MVVM/TaskManager/TaskManager/Models/TMType.swift:50-57 | replacing a child swaps its lines for those of the replacement |
| NormalizeLines.ClimbLines | posts/projects/Architect-2025-05-25/MVVM-Combine/TaskManager/TaskManager/Models/TMTypeInitializers.swift:113-125 | the climb swaps the lines of the replaced subtree for those of its update |
| NormalizeLines.RebuildLines | posts/projects/Architect-2025-05-25/MVVM-Combine/TaskManager/TaskManager/Models/TMTypeInitializers.swift:106-125 | attaching below the path adds exactly the model's lines to the root |
| NormalizeLines.DecideLines | posts/projects/Architect-2025-05-25/MVVM-Combine/TaskManager/TaskManager/Models/TMTypeInitializers.swift:71-125 | a deeper node replaces the last entry by one holding its lines and the model's |
| NormalizeLines.StepLines | posts/projects/Architect-2025-05-25/MVVM-Combine/TaskManager/TaskManager/Models/TMTypeInitializers.swift:47-60 | each fold step adds exactly the model's lines |
| NormalizeLines.NormalizedLines | posts/projects/Architect-2025-05-25/MVVM-Combine/TaskManager/TaskManager/Models/TMTypeInitializers.swift:42-126 | the forest holds, as a multiset, exactly the lines of the input: no line is lost or duplicated |
| NormalizeLines.NormalizedLeaves | posts/projects/Architect-2025-05-25/MVVM-Combine/TaskManager/TaskManager/Models/TMTypeInitializers.swift:24-63 | for the one-line nodes that parsing gives, the forest's lines are those nodes, each as often as it occurs |
| NormalizeFacts.NormalizedNested | posts/projects/Architect-2025-05-25/MVVM-Combine/TaskManager/TaskManager/Models/TMTypeInitializers.swift:42-126 | in the forest every child is deeper than its parent |
| NormalizeExamples.SameLevelUnchanged | posts/projects/Architect-2025-05-25/MVVM/TaskManager/TaskManagerTests/TMTypeTests.swift:161-170 | nodes at one level are left as they are |
| NormalizeExamples.FirstChild | posts/projects/Architect-2025-05-25/MVVM/TaskManager/TaskManagerTests/TMTypeTests.swift:172-185 | a deeper second node becomes the first node's child |
| NormalizeExamples.Grandchild | posts/projects/Architect-2025-05-25/MVVM/TaskManager/TaskManagerTests/TMTypeTests.swift:187-204 | each deeper node goes below the previous one |
| NormalizeExamples.Siblings | posts/projects/Architect-2025-05-25/MVVM/TaskManager/TaskManagerTests/TMTypeTests.swift:206-222 | two nodes at one deeper level become siblings under the first |
| NormalizeExamples.DedentToSibling | posts/projects/Architect-2025-05-25/MVVM/TaskManager/TaskManagerTests/TMTypeTests.swift:224-243 | a node back at the child level becomes the next sibling, and keeps the grandchild where it was |
| NormalizeExamples.BaseResets | posts/projects/Architect-2025-05-25/MVVM/TaskManager/TaskManagerTests/TMTypeTests.swift:245-268 | nodes back at the base level start new roots |
| NormalizeExamples.ThreeLevels | posts/projects/Architect-2025-05-25/MVVM-Combine/TaskManager/TaskManager/Models/TMTypeInitializers.swift:92-125 | four ever deeper nodes make a single chain |
| NormalizeExamples.ThreeLevelsThenDedent | posts/projects/Architect-2025-05-25/MVVM-Combine/TaskManager/TaskManager/Models/TMTypeInitializers.swift:80-91 | a node at an existing level is attached beside the last node of that level |
| NormalizeExamples.DeeperBaseResets | posts/projects/Architect-2025-05-25/MVVM/TaskManager/TaskManagerTests/TMTypeTests.swift:270-297 | the deeper outline keeps its chain, then the base-level nodes start new roots |
| NormalizeFixed.TwinSiblings | posts/projects/Architect-2025-05-25/MVVM-Combine/TaskManager/TaskManager/Models/TMTypeInitializers.swift:80-91 | two equal child lines become two equal children |
| NormalizeFixed.DuplicateSiblingMisplaced | posts/projects/Architect-2025-05-25/MVVM-Combine/TaskManager/TaskManager/Models/TMTypeInitializers.swift:106-111 | as written, a deeper line after two equal siblings is attached to the first of them |
| NormalizeFixed.DuplicateSiblingReorders | posts/projects/Architect-2025-05-25/MVVM-Combine/TaskManager/TaskManager/Models/TMTypeInitializers.swift:106-111 | as written, reading that forest back in order gives the lines in another order |
| NormalizeFixed.DuplicateSiblingExample | posts/projects/Architect-2025-05-25/MVVM/TaskManager/TaskManagerTests/TMTypeTests.swift:187-204 | `Project:`, `- Task` twice, then deeper `Text` come back out of order |
| NormalizeFixed.Attach | posts/projects/Architect-2025-05-25/MVVM-Combine/TaskManager/TaskManager/Models/TMTypeInitializers.swift:80-125 | attaching at the intended place keeps the node equal apart from its children |
| NormalizeFixed.FlattenAttach | posts/projects/Architect-2025-05-25/MVVM-Combine/TaskManager/TaskManager/Models/TMTypeInitializers.swift:80-125 | with the intended attachment, the new node comes last in reading order |
| NormalizeFixed.FlattenStepFixed | posts/projects/Architect-2025-05-25/MVVM-Combine/TaskManager/TaskManager/Models/TMTypeInitializers.swift:47-60 | each corrected fold step adds the node at the end of the reading order |
| NormalizeFixed.FlattenNormalizedFixed | posts/projects/Architect-2025-05-25/MVVM-Combine/TaskManager/TaskManager/Models/TMTypeInitializers.swift:42-63 | the corrected fold keeps the reading order of all nodes |
| NormalizeFixed.NormalizedFixedKeepsLines | posts/projects/Architect-2025-05-25/MVVM-Combine/TaskManager/TaskManager/Models/TMTypeInitializers.swift:24-63 | reading the corrected forest of parsed lines gives the lines back in order |
| NormalizeFixed.DuplicateSiblingFixed | posts/projects/Architect-2025-05-25/MVVM-Combine/TaskManager/TaskManager/Models/TMTypeInitializers.swift:106-111 | the corrected fold attaches the deeper line to the second of two equal siblings |
| OutlineFold.ReplaceLastChild | posts/projects/Architect-2025-05-25/MVVM/TaskManager/TaskManager/Models/TMType.swift:50-57 | in a well-nested node no earlier child equals the last, so `replace(child:with:)` on the last child replaces that one |
| OutlineFold.ParentOfSpine | posts/projects/Architect-2025-05-25/MVVM/TaskManager/TaskManager/Models/TMType.swift:83-90 | `parent(of:)` of the node at some depth on the chain of last children is the node one step above it |
| OutlineFold.LastChildWithSpine | posts/projects/Architect-2025-05-25/MVVM/TaskManager/TaskManager/Models/TMType.swift:72-81 | `lastChild(with:)` of a level below a well-nested node is the node at that depth on the chain of last children, and absent past the chain's end |
| OutlineFold.ClimbSpine | posts/projects/Architect-2025-05-25/MVVM-Combine/TaskManager/TaskManager/Models/TMTypeInitializers.swift:113-125 | climbing from the node at some depth with its update rebuilds the root with the update in that place |
| OutlineFold.DecideAttach | posts/projects/Architect-2025-05-25/MVVM-Combine/TaskManager/TaskManager/Models/TMTypeInitializers.swift:71-125 | a node one level below a node on the last root's chain is appended to that node, and the root is rebuilt around it |
| OutlineFold.StepAttach | posts/projects/Architect-2025-05-25/MVVM-Combine/TaskManager/TaskManager/Models/TMTypeInitializers.swift:47-60 | one pass of the loop replaces the last root by the rebuilt one and keeps the roots before it |
| OutlineFold.NormalizedConcat | posts/projects/Architect-2025-05-25/MVVM-Combine/TaskManager/TaskManager/Models/TMTypeInitializers.swift:42-63 | the fold of a longer list goes on from the fold of its first part |
| OutlineFold.FoldChildren | posts/projects/Architect-2025-05-25/MVVM-Combine/TaskManager/TaskManager/Models/TMTypeInitializers.swift:42-125 | the lines of a node's first children, folded below a copy of the node, rebuild those children in place |
| OutlineFold.ForestRebuilt | posts/projects/Architect-2025-05-25/MVVM-Combine/TaskManager/TaskManager/Models/TMTypeInitializers.swift:42-63 | `normalize(_:)` of the lines of a forest whose children sit one level below their parents and whose siblings differ gives the forest back |
| OutlineText.ScanWrittenTags | posts/projects/SwiftUI-2025-05-11/TaskManager/TaskManager/Utilities/Extensions/StringExtensions.swift:148-205 | the scans of the text the tags display as find exactly those tags: each name as a bare tag, and the payload tags in order |
| OutlineText.MergeWritten | posts/projects/SwiftUI-2025-05-11/TaskManager/TaskManager/Utilities/Extensions/StringExtensions.swift:188-205 | merging the scans of written tags gives the tags back, when no bare tag comes before a payload tag of its name |
| OutlineText.KeptName | posts/projects/SwiftUI-2025-05-11/TaskManager/TaskManager/Utilities/Extensions/StringExtensions.swift:53-62 | a plain name followed by written tags keeps exactly the name, with no line break in the line |
| OutlineText.BodyTagsWritten | posts/projects/SwiftUI-2025-05-11/TaskManager/TaskManager/Utilities/Extensions/StringExtensions.swift:99-205 | the tags read from a name followed by written tags are those tags |
| OutlineText.TaggedTaskLine | posts/projects/SwiftUI-2025-05-11/TaskManager/TaskManager/Utilities/Extensions/StringExtensions.swift:63-142 | the displayed line of a tagged task at any level parses to that task with its tags |
| OutlineText.TaggedTextLine | posts/projects/SwiftUI-2025-05-11/TaskManager/TaskManager/Utilities/Extensions/StringExtensions.swift:63-142 | the displayed line of tagged text at any level parses to that text with its tags |
| OutlineText.LineRoundTrip | posts/projects/SwiftUI-2025-05-11/TaskManager/TaskManager/Utilities/Extensions/StringExtensions.swift:45-142 | the first line of an entry's `toString` has no line break and parses to the entry without children |
| OutlineText.SerializeLines | posts/projects/Architect-2025-05-25/MVVM/TaskManager/TaskManager/Models/TMType.swift:93-111 | a node's `toString` is the first lines of its entries in reading order, joined by line breaks |
| OutlineText.FileLines | posts/projects/Architect-2025-05-25/MVVM/TaskManager/TaskManagerTests/TMTypeTests.swift:37-42 | the roots' `toString`, joined by line breaks, is the first lines of all entries in reading order, joined by line breaks |
| OutlineText.ParsedFlattened | posts/projects/Architect-2025-05-25/MVVM-Combine/TaskManager/TaskManager/Models/TMTypeInitializers.swift:24-40 | `parse(string:)` of that text gives the outline's entries in reading order, without children |
| OutlineText.OutlineRoundTrip | posts/projects/Architect-2025-05-25/MVVM/TaskManager/TaskManagerTests/TMTypeTests.swift:382-386 | the roots' `toString`, joined by line breaks, parsed and normalized, gives the outline back, for every outline whose entries read back as themselves |
| SampleModel.SampleIsOutline | posts/projects/SwiftUI-2025-05-11/TaskManager/TaskManagerTests/TestFiles/TMTypeExtension.swift:12-45 | `TestSampleModel` is nested level by level, has no equal siblings, and every entry reads back as itself |
| SampleModel.TestSampleRoundTrip | posts/projects/Architect-2025-05-25/MVVM/TaskManager/TaskManagerTests/TMTypeTests.swift:37-42 | `normalize(parse(string:))` of the text `TestSampleModel` serialises to is `TestSampleModel` again |
| Dates.Pow10 | posts/projects/Architect-2025-05-25/MVVM/TaskManager/TaskManager/Models/DateParameters.swift:119-124 | the width bound is at least one |
| Dates.FixedDigits | posts/projects/Architect-2025-05-25/MVVM/TaskManager/TaskManager/Models/DateParameters.swift:119-124 | a fixed-width field has that width and only digits |
| Dates.ValueOfFixed | posts/projects/Architect-2025-05-25/MVVM/TaskManager/TaskManager/Models/DateParameters.swift:119-124 | reading a zero-padded field gives the number back when it fits |
| Dates.NumDigitsBound | posts/projects/Architect-2025-05-25/MVVM/TaskManager/TaskManager/Models/DateParameters.swift:119-124 | a number below the width's power of ten has no more digits than the width |
| Dates.LeadingZeroFits | posts/projects/Architect-2025-05-25/MVVM/TaskManager/TaskManager/Models/DateParameters.swift:119-124 | `leadingZeroString` pads a fitting number to exactly the width and reads back to the number |
| Dates.BeforeOrder | posts/projects/Architect-2025-05-25/MVVM/TaskManager/TaskManager/Models/DateParameters.swift:198-200 | the comparison of instants is a strict total order |
| Dates.TMDateType.StartDate | posts/projects/Architect-2025-05-25/MVVM/TaskManager/TaskManager/Models/DateParameters.swift:16-35 | the start is the date or the range's start |
| Dates.TMDateType.EndDate | posts/projects/Architect-2025-05-25/MVVM/TaskManager/TaskManager/Models/DateParameters.swift:16-35 | the end is absent exactly for a single date, otherwise the range's end |
| Dates.FormatFrom | posts/projects/Architect-2025-05-25/MVVM/TaskManager/TaskManager/Models/DateParameters.swift:77-98 | the text form is chosen by length alone: 10, 16, 22 to 32, 33 to 41, and none otherwise |
| Dates.Separator.ToString | posts/projects/Architect-2025-05-25/MVVM/TaskManager/TaskManager/Models/DateParameters.swift:102-111 | the separator's raw value, with one space either side exactly when asked |
| Dates.DateToDateType | posts/projects/Architect-2025-05-25/MVVM/TaskManager/TaskManager/Models/DateParameters.swift:137-143 | a calendar date converts to that day at midnight; anything else throws with the formatted text |
| Dates.DateTimeToDateType | posts/projects/Architect-2025-05-25/MVVM/TaskManager/TaskManager/Models/DateParameters.swift:155-170 | a calendar date and time converts to that single instant; anything else throws with the formatted text |
| Dates.RangeToDateType | posts/projects/Architect-2025-05-25/MVVM/TaskManager/TaskManager/Models/DateParameters.swift:191-224 | two legal instants in strict order make a range; an illegal one throws the text; an end not after the start throws both instants |
| Dates.DateTimeEndTimeToDateType | posts/projects/Architect-2025-05-25/MVVM/TaskManager/TaskManager/Models/DateParameters.swift:172-204 | a start and an end time on one day convert to a valid range that begins and ends on that day |
| Dates.DateTimeDateTimeToDateType | posts/projects/Architect-2025-05-25/MVVM/TaskManager/TaskManager/Models/DateParameters.swift:206-225 | two date-times convert only to a valid range |
| Dates.FormatSingle | posts/projects/Architect-2025-05-25/MVVM/TaskManager/TaskManager/Models/DateParameters.swift:38-67 | a single date formats exactly in the date and date-time forms, as those texts |
| Dates.FormatRange | posts/projects/Architect-2025-05-25/MVVM/TaskManager/TaskManager/Models/DateParameters.swift:38-67 | a range formats as two date-times, or as a date-time and an end time exactly when both ends have the same date text |
| Dates.DateTextShape | posts/projects/Architect-2025-05-25/MVVM/TaskManager/TaskManager/Models/DateParameters.swift:127-135 | a date is written `yyyy-MM-dd`, ten characters |
| Dates.TimeTextShape | posts/projects/Architect-2025-05-25/MVVM/TaskManager/TaskManager/Models/DateParameters.swift:146-153 | a time is written `HH:mm`, five characters |
| Dates.LegalFits | posts/projects/Architect-2025-05-25/MVVM/TaskManager/TaskManager/Models/DateParameters.swift:155-170 | the parameters of a legal instant before year 10000 fit their fields and convert back to it |
| Dates.DividerIsSeparator | posts/projects/Architect-2025-05-25/MVVM/TaskManager/TaskManager/Models/DateParameters.swift:173-179 | the compact output writes `-` and the expanded output writes ` thru ` |
| DatePayload.MatchDate | posts/projects/TestingArchitect-2025-07-06/TCA/TaskManager/TaskManager/Models/Tag.swift:83-108 | a date match consumes exactly ten characters |
| DatePayload.MatchTime | posts/projects/TestingArchitect-2025-07-06/TCA/TaskManager/TaskManager/Models/Tag.swift:110-127 | a time match consumes exactly five characters |
| DatePayload.DropWhitespace | posts/projects/TestingArchitect-2025-07-06/TCA/TaskManager/TaskManager/Models/Tag.swift:175-183 | dropping the optional whitespace leaves nothing or a non-whitespace character first |
| DatePayload.NoShapeIsNil | posts/projects/TestingArchitect-2025-07-06/TCA/TaskManager/TaskManager/Models/Tag.swift:64-65 | a payload of any other length is not a date: nil, not an error |
| DatePayload.ParsedIsValid | posts/projects/TestingArchitect-2025-07-06/TCA/TaskManager/TaskManager/Models/Tag.swift:215-278 | every converted payload is a legal date or a legal range in strict order |
| DatePayload.MatchSeparatorOf | posts/projects/TestingArchitect-2025-07-06/TCA/TaskManager/TaskManager/Models/Tag.swift:175-183 | each separator, spaced or not, is read before a digit |
| DatePayload.ParseDateParameters | posts/projects/TestingArchitect-2025-07-06/TCA/TaskManager/TaskManager/Models/Tag.swift:216-225 | a formatted date reads back to its own conversion |
| DatePayload.ParseDateTimeParameters | posts/projects/TestingArchitect-2025-07-06/TCA/TaskManager/TaskManager/Models/Tag.swift:227-239 | a formatted date-time reads back to its own conversion |
| DatePayload.ParseDateTimeEndTimeParameters | posts/projects/TestingArchitect-2025-07-06/TCA/TaskManager/TaskManager/Models/Tag.swift:241-256 | a formatted date-time with an end time reads back to its conversion, in the compact output form |
| DatePayload.ParseDateTimeDateTimeParameters | posts/projects/TestingArchitect-2025-07-06/TCA/TaskManager/TaskManager/Models/Tag.swift:258-277 | a formatted pair of date-times reads back to its conversion |
| DatePayload.RangeTextLengths | posts/projects/Architect-2025-05-25/MVVM/TaskManager/TaskManager/Models/DateParameters.swift:77-98 | the two range texts, with any separator, fall into their length bands |
| DatePayload.DateTextSameDay | posts/projects/Architect-2025-05-25/MVVM/TaskManager/TaskManager/Models/DateParameters.swift:38-67 | two fitting instants have the same date text exactly when they fall on the same day |
| DatePayload.DateTimeRoundTrip | posts/projects/TestingArchitect-2025-07-06/TCA/TaskManager/TaskManager/Models/Tag.swift:64-279 | the date-time text of a legal instant reads back to that instant |
| DatePayload.DateRoundTrip | posts/projects/TestingArchitect-2025-07-06/TCA/TaskManager/TaskManager/Models/Tag.swift:64-279 | the date text of a legal instant reads back to its midnight |
| DatePayload.FormattedDateStringRoundTrip | posts/projects/Architect-2025-05-25/MVVM/TaskManager/TaskManager/Models/DateParameters.swift:38-67 | every text `toFormattedDateString` gives, other than the date-only form, reads back to the same value |
| DatePayload.EndTimeFormRefused | posts/projects/Architect-2025-05-25/MVVM/TaskManager/TaskManager/Models/DateParameters.swift:38-67 | the end-time form is refused exactly when the ends fall on different days |
| DatePayload.IllegalDateThrows | posts/projects/TestingArchitect-2025-07-06/TCA/TaskManager/TaskManager/Models/Tag.swift:216-225 | a well-shaped date that is not on the calendar throws with its text |
| DatePayload.OutOfOrderRangeThrows | posts/projects/TestingArchitect-2025-07-06/TCA/TaskManager/TaskManager/Models/Tag.swift:258-277 | a range whose end is not after its start throws both instants |
| DateExamples.HalloweenNoonToNightCompact | posts/projects/TextModels-2024-12-01/TaskManager/TaskManagerTests/DateParametersTests.swift:94-97 | the compact end-time text is `2024-10-31 12:00-18:30` |
| DateExamples.HalloweenNoonToNightExpanded | posts/projects/TextModels-2024-12-01/TaskManager/TaskManagerTests/DateParametersTests.swift:99-102 | the expanded end-time text is `2024-10-31 12:00 thru 18:30` |
| DateExamples.StPatricksToHalloween | posts/projects/TextModels-2024-12-01/TaskManager/TaskManagerTests/DateParametersTests.swift:104-109 | two date-times are joined by ` thru ` |
| DateExamples.DatePayloadExample | posts/projects/SwiftUI-2025-05-11/TaskManager/TaskManagerTests/StringExtensionsTests.swift:168-175 | `2024-10-31` is that day, has no end, and formats back to the same text |
| DateExamples.EndTimePayloadExample | posts/projects/SwiftUI-2025-05-11/TaskManager/TaskManagerTests/StringExtensionsTests.swift:186-196 | `2024-11-30 11:30-23:30` is 11:30 to 23:30 on that day |
| DateExamples.EndTimeThroughPayloadExample | posts/projects/SwiftUI-2025-05-11/TaskManager/TaskManagerTests/StringExtensionsTests.swift:246-256 | the same span with ` through ` |
| DateExamples.EndSeparated | posts/projects/SwiftUI-2025-05-11/TaskManager/TaskManagerTests/StringExtensionsTests.swift:186-256 | the same span with any separator, spaced or not |
| DateExamples.RangePayloadExample | posts/projects/SwiftUI-2025-05-11/TaskManager/TaskManagerTests/StringExtensionsTests.swift:270-280 | `2024-11-30 11:30 - 2024-12-02 23:30` is the span between the two |
| DateExamples.RangeThruPayloadExample | posts/projects/SwiftUI-2025-05-11/TaskManager/TaskManagerTests/StringExtensionsTests.swift:282-292 | the same span written with `thru` and no spaces |
| DateExamples.RangeSeparated | posts/projects/SwiftUI-2025-05-11/TaskManager/TaskManagerTests/StringExtensionsTests.swift:258-328 | the same span with any separator, spaced or not |
| DateExamples.ThirteenthMonthThrows | posts/projects/TestingArchitect-2025-07-06/TCA/TaskManager/TaskManager/Models/Tag.swift:216-225 | `2024-13-31` throws with its own text |
| DateExamples.BackwardsEndTimeThrows | posts/projects/TextModels-2024-12-01/TaskManager/TaskManagerTests/DateParametersTests.swift:55-73 | an end time before the start time on the same day throws both instants |
| Events.Keys | posts/projects/Architect-2025-05-25/MVVM/TaskManager/TaskManager/Models/EventParameters.swift:54-67 | a key is collected exactly when the search gives that field; the date format is never a key |
| Events.KeysToSearch | posts/projects/Architect-2025-05-25/MVVM/TaskManager/TaskManager/Models/EventParameters.swift:54-67 | the inserts build exactly the set of keys given |
| Events.EventParameters.ToSearchable | posts/projects/Architect-2025-05-25/MVVM/TaskManager/TaskManager/Models/EventParameters.swift:36-42 | the search carries every field of the event |
| Events.EventParameters.Matches | posts/projects/Architect-2025-05-25/MVVM/TaskManager/TaskManager/Models/EventParameters.swift:48-52 | a search by identifier never matches an event without one |
| Events.SearchMatches | posts/projects/Architect-2025-05-25/MVVM/TaskManager/TaskManager/Models/EventParameters.swift:48-121 | collecting the keys and switching on them decides as the rule does |
| Events.EventResult.Matches | posts/projects/Architect-2025-05-25/MVVM/TaskManager/TaskManager/Models/EventParameters.swift:132-139 | by identifier exactly when the identifiers are equal; by values exactly when the event matches |
| Events.NothingMatchesNothing | posts/projects/Architect-2025-05-25/MVVM/TaskManager/TaskManager/Models/EventParameters.swift:117-118 | a search with no field matches no event |
| Events.TitleAloneIsContained | posts/projects/Architect-2025-05-25/MVVM/TaskManager/TaskManager/Models/EventParameters.swift:96-98 | a title alone matches exactly when it is non-empty and occurs in the event's title; an empty title matches nothing |
| Events.NotesAloneAreContained | posts/projects/Architect-2025-05-25/MVVM/TaskManager/TaskManager/Models/EventParameters.swift:113-116 | notes alone match nothing when the event has none or the searched notes are empty, and otherwise exactly when they occur in the event's notes |
| Events.StartAndEndMatchNothing | posts/projects/Architect-2025-05-25/MVVM/TaskManager/TaskManager/Models/EventParameters.swift:69-119 | a start and an end date alone fall to the default and match nothing |
| Events.OtherCombinationsAreExact | posts/projects/Architect-2025-05-25/MVVM/TaskManager/TaskManager/Models/EventParameters.swift:69-112 | every other combination matches exactly when each field given equals the event's |
| Events.DateFormatIgnored | posts/projects/Architect-2025-05-25/MVVM/TaskManager/TaskManager/Models/EventParameters.swift:48-121 | neither date format ever changes the answer |
| Events.EventMatchesItself | posts/projects/Architect-2025-05-25/MVVM/TaskManager/TaskManager/Models/EventParameters.swift:36-121 | an event matches its own search type |
| Events.ResultMatchesOnlyItself | posts/projects/Architect-2025-05-25/MVVM/TaskManager/TaskManager/Models/EventParameters.swift:124-139 | a result matches its own search type, and another result matches it exactly when it has the same identifier |
| Events.DateComponents.DateFormat | posts/projects/Architect-2025-05-25/MVVM/TaskManager/TaskManager/Models/EventParameters.swift:178-189 | no format without a year, month and day; a whole day exactly when the hour or minute is missing; a date-time exactly when all five are given |
| SafeArray.SafeGet | posts/projects/Architect-2025-05-25/TCA/TaskManager/TaskManager/Utilities/Extensions/ArrayExtenions.swift:11-15 | nil exactly outside the bounds, otherwise the element at the index |
| SafeArray.SafeGetFinds | posts/projects/Architect-2025-05-25/TCA/TaskManager/TaskManager/Utilities/Extensions/ArrayExtenions.swift:11-15 | a value is in the array exactly when some safe read gives it |
| SafeArray.SafeGetAppend | posts/projects/Architect-2025-05-25/TCA/TaskManager/TaskManager/Utilities/Extensions/ArrayExtenions.swift:11-15 | appending does not change what is read below the old end |
| MasterDetail.DetailMode.IsEditing | posts/projects/Architect-2025-05-25/MVVM/TaskManager/TaskManager/Views/TaskFeature/TaskMasterAndDetailView.swift:43-45 | the detail view is editing exactly when its mode is not add |
| MasterDetail.IdentifiedNode.Update | posts/projects/Architect-2025-05-25/MVVM/TaskManager/TaskManager/Views/TaskFeature/TaskMasterAndDetailView.swift:20-22 | the node is replaced and the identifier kept |
| MasterDetail.IdentifiedNode.Duplicate | posts/projects/Architect-2025-05-25/MVVM/TaskManager/TaskManager/Views/TaskFeature/TaskMasterAndDetailView.swift:24-27 | the copy keeps the identifier and holds the new node; updating it with the old node gives the original back |
| MasterDetail.FirstIndexWithId | posts/projects/Architect-2025-05-25/MVVM/TaskManager/TaskManager/Views/TaskFeature/TaskMasterAndDetailView.swift:106-115 | none exactly when no item has the identifier; otherwise the first item that has it |
| MasterDetail.RemovedAt | posts/projects/Architect-2025-05-25/MVVM/TaskManager/TaskManager/Views/TaskFeature/TaskMasterAndDetailView.swift:104-113 | one item fewer, the items before the index and after it kept in order |
| MasterDetail.ViewModel.constructor | posts/projects/Architect-2025-05-25/MVVM/TaskManager/TaskManager/Views/TaskFeature/TaskMasterAndDetailView.swift:66-80 | the four fields hold the values given |
| MasterDetail.ViewModel.AddItem | posts/projects/Architect-2025-05-25/MVVM/TaskManager/TaskManager/Views/TaskFeature/TaskMasterAndDetailView.swift:83-87 | a new text item at level 0 with the text or an empty one is appended and selected; nothing else changes |
| MasterDetail.ViewModel.Select | posts/projects/Architect-2025-05-25/MVVM/TaskManager/TaskManager/Views/TaskFeature/TaskMasterAndDetailView.swift:89-92 | the item is selected for editing; the items are kept |
| MasterDetail.ViewModel.Process | posts/projects/Architect-2025-05-25/MVVM/TaskManager/TaskManager/Views/TaskFeature/TaskMasterAndDetailView.swift:94-119 | no response changes nothing; a response updates the items by its kind, then clears the selection and returns to adding |
| MasterDetail.CancelRemovesOnlyWhileAdding | posts/projects/TestingArchitect-2025-07-06/MVVM/TaskManager/TaskManagerTests/MVVMTests/TaskMasterAndDetailViewTests.swift:62-91 | cancelling a listed item removes it while adding and keeps it while editing |
| MasterDetail.UnknownIdKeeps | posts/projects/TestingArchitect-2025-07-06/MVVM/TaskManager/TaskManagerTests/MVVMTests/TaskMasterAndDetailViewTests.swift:74-130 | no response changes the items when no item has its identifier |
| MasterDetail.RemovesFirstWithId | posts/projects/Architect-2025-05-25/MVVM/TaskManager/TaskManager/Views/TaskFeature/TaskMasterAndDetailView.swift:104-113 | removal drops exactly the first item with the identifier, keeping the rest in order and as a multiset |
| MasterDetail.SaveReplacesInPlace | posts/projects/Architect-2025-05-25/MVVM/TaskManager/TaskManager/Views/TaskFeature/TaskMasterAndDetailView.swift:114-117 | a save keeps the length and replaces only the first item with the identifier |
| MasterDetail.SaveThenFind | posts/projects/TestingArchitect-2025-07-06/MVVM/TaskManager/TaskManagerTests/MVVMTests/TaskMasterAndDetailViewTests.swift:112-120 | after a save the saved item is found first under its identifier, at the same place |
| MasterDetail.AddedIsFound | posts/projects/TestingArchitect-2025-07-06/MVVM/TaskManager/TaskManagerTests/MVVMTests/TaskMasterAndDetailViewTests.swift:38-45 | an added item with a fresh identifier is found at the end |
| MasterDetail.AddThenCancel | posts/projects/TestingArchitect-2025-07-06/MVVM/TaskManager/TaskManagerTests/MVVMTests/TaskMasterAndDetailViewTests.swift:62-72 | adding an item and cancelling it while adding gives the list back |

## Left out

- Characters are Dafny `char`s, not Swift grapheme clusters. So `count`, the indices and a `\r\n` pair are counted per code unit, and there is no Unicode normalisation.
- Regex `\w` and `\d` are ASCII only in the model: letters, digits and `_` for `\w`, and the ASCII digits for `\d`. Unicode letters and non-ASCII digits are not modelled. `\s` follows the Unicode White_Space property in full (`Chars.IsWhitespace`).
- Dates are calendar fields (`Instant`) checked by the Gregorian calendar. They are not `Foundation.Date`, and there are no time zones, daylight saving or locale. `DateFormatter` is modelled as the fields' legality check plus zero-padded formatting.
- Dates.Before: instants are compared field by field; two wall-clock times that a time zone change maps to one moment are not identified.
- DatePayload.DateTimeRoundTrip: the round trips are stated for years below 10000, where the four-digit year field fits; a larger year does not fit the `\d{4}` pattern.
- DatePayload.FormattedDateStringRoundTrip: the date-only form of a single date drops its time of day, so it reads back as midnight of that day (DatePayload.DateRoundTrip) rather than as the same value; a range has no date-only form.
- A Foundation `Date` in the calendar search is an opaque integer time interval, with no floating point; the rule only compares dates for equality.
- Chars.Contains: Foundation's `contains` is modelled as a non-empty needle occurring as a run of code units, not of grapheme clusters, and with no Unicode normalisation.
- `DateComponents` fields are kept as optional integers; the rest of Calendar's arithmetic is not modelled.
- The field widths of `Int` are unbounded `nat`s. Negative hours or minutes cannot arise from the digit patterns, and 64-bit overflow cannot be reached by four-digit fields.
- EventKit itself, the calendar store, its authorisation and the fetch are not modelled; only the matching rule is.
- The UI is not modelled: the SwiftUI views, the Combine publishers and the Composable Architecture reducers. The same rules there are duplicated from the files modelled here.
- MasterDetail.ViewModel.AddItem: `UUID()` is taken as an identifier parameter, since randomness is outside the model; the property is stated for an identifier not yet in the list.
- The `errorDescription` strings of `TMError` are not modelled; the errors are kept as data.
- OutlineText.OutlineRoundTrip: the round trip is proved for outlines whose entries the line parser reads back as themselves; `Outline` excludes:
  - a project with tags, since `Name: @tag` has no colon at its end and parses as text;
  - a bare tag before a payload tag of the same name, since the scan upgrades the first bare tag of that name to hold the payload;
  - two siblings equal apart from their children, which `replace(child:with:)` confuses (see "## Findings");
  - a name that starts with whitespace or a hyphen or holds an `@` or a line break, a task or text name that ends in a colon, and a tagged name that ends in whitespace;
  - tags whose names are not word characters, and payloads that are empty or hold a line break, a `)` or an `@`;
  - an empty name on anything but untagged text, an empty root with children, and the empty forest.
- The normalisation test at lines 343-380 of `TMTypeTests.swift` asserts nothing, so it states no property to model.
- `TMType` initialisers that only store their arguments, `Identifiable` conformances and `Codable` are not modelled.

## Findings

| source | as written | input that shows it | evidently intended | confidence | as-written member | corrected member |
|---|---|---|---|---|---|---|
| posts/projects/Architect-2025-05-25/MVVM-Combine/TaskManager/TaskManager/Models/TMTypeInitializers.swift:106-111 | the climb replaces the bottom node in its parent with `replace(child:with:)`, which replaces the first equal child | the lines `Project:`, `\t- Task`, `\t- Task`, `\t\tText` | the deeper line goes below the last `- Task`, so reading the outline back gives the lines in their order | not executed | NormalizeFixed.DuplicateSiblingReorders | NormalizeFixed.FlattenNormalizedFixed |
