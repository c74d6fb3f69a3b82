/**
 * Character classes and small sequence helpers shared by the line, tag and
 * date grammars.  Swift's regex `.whitespace` is the Unicode White_Space
 * property, `.anyNonNewline` excludes the vertical line separators, and
 * Foundation's `CharacterSet.whitespaces` holds the horizontal blanks only.
 */
module Chars {

  /** The characters Swift's `.anyNonNewline` refuses. */
  predicate IsNewline(c: char) {
    c == '\n' || c == '\r' || c == '\U{000B}' || c == '\U{000C}' ||
    c == '\U{0085}' || c == '\U{2028}' || c == '\U{2029}'
  }

  /** `CharacterSet.whitespaces`: the tab and the Unicode space separators. */
  predicate IsBlank(c: char) {
    c == ' ' || c == '\t' || c == '\U{00A0}' || c == '\U{1680}' ||
    ('\U{2000}' <= c <= '\U{200A}') || c == '\U{202F}' || c == '\U{205F}' ||
    c == '\U{3000}'
  }

  /** The regex class `.whitespace`: blanks and line separators. */
  predicate IsWhitespace(c: char) {
    IsBlank(c) || IsNewline(c)
  }

  /** The regex class `.word`, restricted to ASCII. */
  predicate IsWordChar(c: char) {
    ('a' <= c <= 'z') || ('A' <= c <= 'Z') || ('0' <= c <= '9') || c == '_'
  }

  predicate IsDigit(c: char) {
    '0' <= c <= '9'
  }

  predicate NoNewline(s: string) {
    forall i :: 0 <= i < |s| ==> !IsNewline(s[i])
  }

  /** Only `.whitespace` characters at positions `from` up to `to`. */
  predicate WhitespaceIn(s: string, from: nat, to: nat)
    requires from <= to <= |s|
  {
    forall i :: from <= i < to ==> IsWhitespace(s[i])
  }

  /** No line break among the characters at positions `from` up to `to`. */
  predicate NoNewlineIn(s: string, from: nat, to: nat)
    requires from <= to <= |s|
  {
    forall i :: from <= i < to ==> !IsNewline(s[i])
  }

  /** What `trimmingCharacters(in: .whitespaces).isEmpty` tests. */
  predicate AllBlank(s: string) {
    forall i :: 0 <= i < |s| ==> IsBlank(s[i])
  }

  /** Length of the run of `.whitespace` characters that starts at `from`. */
  function WhitespaceRun(s: string, from: nat): (n: nat)
    requires from <= |s|
    ensures from + n <= |s|
    ensures from + n == |s| || !IsWhitespace(s[from + n])
    decreases |s| - from
  {
    if from == |s| || !IsWhitespace(s[from]) then 0
    else 1 + WhitespaceRun(s, from + 1)
  }

  /** Every character of the run is whitespace. */
  lemma {:induction false} WhitespaceRunAll(s: string, from: nat)
    requires from <= |s|
    ensures forall k :: from <= k < from + WhitespaceRun(s, from) ==> IsWhitespace(s[k])
    decreases |s| - from
  {
    if from < |s| && IsWhitespace(s[from]) { WhitespaceRunAll(s, from + 1); }
  }

  /** A whitespace stretch that stops at `to` is exactly the run. */
  lemma {:induction false} WhitespaceRunExact(s: string, from: nat, to: nat)
    requires from <= to <= |s| && forall k :: from <= k < to ==> IsWhitespace(s[k])
    requires to == |s| || !IsWhitespace(s[to])
    ensures WhitespaceRun(s, from) == to - from
    decreases |s| - from
  {
    if from < to { WhitespaceRunExact(s, from + 1, to); }
  }

  /** The run is the longest one: a whitespace stretch ending at `to` gives a run at least that long. */
  lemma {:induction false} WhitespaceRunCovers(s: string, from: nat, to: nat)
    requires from <= to <= |s| && forall k :: from <= k < to ==> IsWhitespace(s[k])
    ensures to <= from + WhitespaceRun(s, from)
    decreases |s| - from
  {
    if from < to { WhitespaceRunCovers(s, from + 1, to); }
  }

  /** Length of the run of word characters that starts at `from`. */
  function WordRun(s: string, from: nat): (n: nat)
    requires from <= |s|
    ensures from + n <= |s|
    ensures from + n == |s| || !IsWordChar(s[from + n])
    decreases |s| - from
  {
    if from == |s| || !IsWordChar(s[from]) then 0
    else 1 + WordRun(s, from + 1)
  }

  /** Every character of the run is a word character. */
  lemma {:induction false} WordRunAll(s: string, from: nat)
    requires from <= |s|
    ensures forall k :: from <= k < from + WordRun(s, from) ==> IsWordChar(s[k])
    decreases |s| - from
  {
    if from < |s| && IsWordChar(s[from]) { WordRunAll(s, from + 1); }
  }

  /** A stretch of word characters that stops at `to` is exactly the run. */
  lemma {:induction false} WordRunExact(s: string, from: nat, to: nat)
    requires from <= to <= |s| && forall k :: from <= k < to ==> IsWordChar(s[k])
    requires to == |s| || !IsWordChar(s[to])
    ensures WordRun(s, from) == to - from
    decreases |s| - from
  {
    if from < to { WordRunExact(s, from + 1, to); }
  }

  /** A stretch of word characters ending at `to` is covered by the run. */
  lemma {:induction false} WordRunCovers(s: string, from: nat, to: nat)
    requires from <= to <= |s| && forall k :: from <= k < to ==> IsWordChar(s[k])
    ensures to <= from + WordRun(s, from)
    decreases |s| - from
  {
    if from < to { WordRunCovers(s, from + 1, to); }
  }

  /** Swift's `String.contains(_:)` on strings: `t` occurs in `s`. */
  predicate IsSubstring(t: string, s: string)
    decreases |s|
  {
    t <= s || (|s| > 0 && IsSubstring(t, s[1..]))
  }

  /**
   * Foundation's `StringProtocol.contains(_:)`: a non-empty `t` occurs in
   * `s`; the empty string is contained in no text.
   */
  predicate Contains(s: string, t: string) {
    |t| > 0 && IsSubstring(t, s)
  }

  /** `t` is the stretch of `s` that starts at `i`. */
  predicate OccursAt(t: string, s: string, i: int) {
    0 <= i <= |s| - |t| && s[i..i + |t|] == t
  }

  /** `t` occurs in `s` exactly when some stretch of `s` is `t`. */
  lemma {:induction false} IsSubstringAt(t: string, s: string)
    ensures IsSubstring(t, s) <==> exists i :: OccursAt(t, s, i)
    decreases |s|
  {
    if t <= s {
      assert OccursAt(t, s, 0);
    } else if |s| > 0 {
      IsSubstringAt(t, s[1..]);
      if IsSubstring(t, s) {
        var j :| OccursAt(t, s[1..], j);
        assert OccursAt(t, s, j + 1);
      }
      if exists i :: OccursAt(t, s, i) {
        var i :| OccursAt(t, s, i);
        if i > 0 {
          assert OccursAt(t, s[1..], i - 1);
        }
      }
    }
  }

  /** `String(repeating: "\t", count: n)`. */
  function Tabs(n: nat): (r: string)
    ensures |r| == n
    ensures forall i :: 0 <= i < n ==> r[i] == '\t'
  {
    if n == 0 then "" else Tabs(n - 1) + "\t"
  }

  /**
   * A line of `level` tabs followed by `rest`: where its indent ends, its
   * last character, and the slice of it that `rest[from..|rest| - cut]` is.
   */
  lemma TabbedFacts(level: nat, rest: string, from: nat, cut: nat)
    requires NoNewlineIn(rest, 0, |rest|) && from + cut <= |rest|
    ensures |Tabs(level) + rest| == level + |rest|
    ensures WhitespaceIn(Tabs(level) + rest, 0, level)
    ensures NoNewlineIn(Tabs(level) + rest, 0, |Tabs(level) + rest|)
    ensures (Tabs(level) + rest)[level + from..|Tabs(level) + rest| - cut] == rest[from..|rest| - cut]
    ensures |rest| >= 1 ==> (Tabs(level) + rest)[level] == rest[0]
    ensures |rest| >= 1 ==> (Tabs(level) + rest)[|Tabs(level) + rest| - 1] == rest[|rest| - 1]
    ensures from < |rest| ==> (Tabs(level) + rest)[level + from] == rest[from]
  {
    var s := Tabs(level) + rest;
    forall k | 0 <= k < |s|
      ensures !IsNewline(s[k])
    {
      if k >= level {
        assert s[k] == rest[k - level];
      }
    }
    assert s[level..] == rest;
    assert s[level + from..|s| - cut] == rest[from..|rest| - cut];
  }

  /** Nothing appended leaves a sequence as it was. */
  lemma AppendNothing<T>(s: seq<T>)
    ensures s + [] == s
  {
  }

  /** A non-empty sequence is its front followed by its last element. */
  lemma FrontAndLast<T>(s: seq<T>)
    requires |s| > 0
    ensures s[..|s| - 1] + [s[|s| - 1]] == s
  {
  }

  /** A text cut around one of its line breaks. */
  lemma SplitAtNewline(s: string, i: nat)
    requires i < |s| && s[i] == '\n'
    ensures s == s[..i] + "\n" + s[i + 1..]
  {
    var t := s[..i] + "\n" + s[i + 1..];
    assert |t| == |s|;
    forall k | 0 <= k < |s|
      ensures t[k] == s[k]
    {
    }
  }

  /** Two texts joined by a line break, the first without one. */
  lemma JoinedAtNewline(a: string, b: string)
    requires '\n' !in a
    ensures FirstIndexOf(a + "\n" + b, '\n') == |a|
    ensures (a + "\n" + b)[..|a|] == a
    ensures (a + "\n" + b)[|a| + 1..] == b
  {
    var s := a + "\n" + b;
    assert s[|a|] == '\n';
    assert forall j :: 0 <= j < |a| ==> s[j] == a[j];
  }

  /** The smallest index holding `x`, as `firstIndex(of:)` finds it. */
  function FirstIndexOf<T(==)>(s: seq<T>, x: T): (r: int)
    ensures -1 <= r < |s|
    ensures r == -1 <==> x !in s
    ensures 0 <= r ==> s[r] == x && forall j :: 0 <= j < r ==> s[j] != x
  {
    if |s| == 0 then -1
    else if s[0] == x then 0
    else
      var k := FirstIndexOf(s[1..], x);
      if k == -1 then -1 else k + 1
  }

  /** The largest index holding `x`, as `lastIndex(of:)` finds it. */
  function LastIndexOf<T(==)>(s: seq<T>, x: T): (r: int)
    ensures -1 <= r < |s|
    ensures r == -1 <==> x !in s
    ensures 0 <= r ==> s[r] == x && forall j :: r < j < |s| ==> s[j] != x
  {
    if |s| == 0 then -1
    else if s[|s| - 1] == x then |s| - 1
    else LastIndexOf(s[..|s| - 1], x)
  }
}
