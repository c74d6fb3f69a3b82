/**
 * Writing an outline out and reading it back. Each root's `toString`,
 * joined by line breaks, is split by `parse(string:)` into one node per
 * line, and `normalize(_:)` folds those back into the same forest -- for
 * every outline whose entries are written in a form the line parser reads
 * back to themselves.
 */
module OutlineText {
  import opened Wrappers
  import opened Chars
  import opened Tags
  import opened Kinds
  import opened Nodes
  import opened TagScan
  import opened LineParser
  import opened LineFacts
  import opened Initializers
  import opened NormalizeFixed
  import opened OutlineFold

  // ---------------------------------------------------------------------
  // Scanning written tags
  // ---------------------------------------------------------------------

  /** What the first loop of `extractTags` finds for written tags `ts`: each name, as a bare tag. */
  function Bares(ts: seq<Tag>): seq<Tag> {
    seq(|ts|, k requires 0 <= k < |ts| => BareTag(ts[k].tagName))
  }

  /** What the second loop finds: the payload tags, in order. */
  function Payloads(ts: seq<Tag>): seq<Tag>
    decreases |ts|
  {
    if ts == [] then [] else (if ts[0].PayloadTag? then [ts[0]] else []) + Payloads(ts[1..])
  }

  /** The characters of a tag written at position `a` of `t`. */
  lemma TagChars(t: string, a: nat, x: Tag)
    requires a + |x.ToString()| <= |t| && t[a..a + |x.ToString()|] == x.ToString()
    ensures t[a] == '@' && t[a + 1..a + 1 + |x.tagName|] == x.tagName
    ensures forall k :: 0 <= k < |x.tagName| ==> t[a + 1 + k] == x.tagName[k]
    ensures x.BareTag? ==> |x.ToString()| == 1 + |x.tagName|
    ensures x.PayloadTag? ==>
      var e := a + 1 + |x.tagName|;
      |x.ToString()| == 3 + |x.tagName| + |x.payloadText| && t[e] == '(' &&
      t[e + 1..e + 1 + |x.payloadText|] == x.payloadText && t[e + 1 + |x.payloadText|] == ')' &&
      forall k :: 0 <= k < |x.payloadText| ==> t[e + 1 + k] == x.payloadText[k]
  {
    ToStringShape(x);
    TagNameChars(t, a, x.ToString(), x.tagName);
    if x.PayloadTag? {
      TagPayloadChars(t, a, x.ToString(), x.tagName, x.payloadText);
    }
  }

  /** A stretch of `t` equal to `s`, which is `@` and the name first: `t` has them there too. */
  lemma TagNameChars(t: string, a: nat, s: string, n: string)
    requires a + |s| <= |t| && t[a..a + |s|] == s
    requires |s| >= 1 + |n| && s[0] == '@' && s[1..1 + |n|] == n
    ensures t[a] == '@' && t[a + 1..a + 1 + |n|] == n
    ensures forall k :: 0 <= k < |n| ==> t[a + 1 + k] == n[k]
  {
    assert t[a] == t[a..a + |s|][0];
    SliceOfSlice(t, a, |s|, 1, 1 + |n|);
    SliceChars(t, a + 1, n);
  }

  /** A stretch of `t` equal to `s`, which ends in `(payload)` after the name: `t` has that there too. */
  lemma TagPayloadChars(t: string, a: nat, s: string, n: string, pl: string)
    requires a + |s| <= |t| && t[a..a + |s|] == s
    requires |s| >= 1 + |n| && s[1 + |n|..] == "(" + pl + ")"
    ensures var e := a + 1 + |n|;
      |s| == 3 + |n| + |pl| && t[e] == '(' &&
      t[e + 1..e + 1 + |pl|] == pl && t[e + 1 + |pl|] == ')' &&
      forall k :: 0 <= k < |pl| ==> t[e + 1 + k] == pl[k]
  {
    var e := a + 1 + |n|;
    var rest := "(" + pl + ")";
    SliceOfSlice(t, a, |s|, 1 + |n|, |s|);
    assert t[e..a + |s|] == rest;
    assert t[e] == t[e..a + |s|][0];
    SliceOfSlice(t, e, |rest|, 1, 1 + |pl|);
    assert rest[1..1 + |pl|] == pl;
    SliceChars(t, e + 1, pl);
    assert t[e + 1 + |pl|] == t[e..a + |s|][1 + |pl|];
  }

  /** A stretch of a stretch is a stretch of the whole. */
  lemma SliceOfSlice(t: string, a: nat, m: nat, i: nat, j: nat)
    requires a + m <= |t| && i <= j <= m
    ensures t[a..a + m][i..j] == t[a + i..a + j]
  {
    var u, v := t[a..a + m][i..j], t[a + i..a + j];
    forall k | 0 <= k < |u|
      ensures u[k] == v[k]
    {
      assert u[k] == t[a + i + k];
    }
  }

  /** A stretch equal to `w`, character by character. */
  lemma SliceChars(t: string, a: nat, w: string)
    requires a + |w| <= |t| && t[a..a + |w|] == w
    ensures forall k :: 0 <= k < |w| ==> t[a + k] == w[k]
  {
    forall k | 0 <= k < |w|
      ensures t[a + k] == w[k]
    {
      assert t[a..a + |w|][k] == t[a + k];
    }
  }

  /** The whitespace after a match holds no `@`, so both scans step over it. */
  lemma ScansSkipRun(t: string, q: nat)
    requires q <= |t|
    ensures BareScan(t, q + WhitespaceRun(t, q)) == BareScan(t, q)
    ensures PayloadScan(t, q + WhitespaceRun(t, q)) == PayloadScan(t, q)
  {
    WhitespaceRunAll(t, q);
    BareScanSkips(t, q, q + WhitespaceRun(t, q));
    PayloadScanSkips(t, q, q + WhitespaceRun(t, q));
  }

  /** The characters a written tag leaves at `a`, stated without its display form. */
  predicate WrittenAt(t: string, a: nat, x: Tag, q: nat) {
    var n := x.tagName;
    var e := a + 1 + |n|;
    q <= |t| && a < e <= q && t[a] == '@' && (forall k :: 0 <= k < |n| ==> t[a + 1 + k] == n[k]) &&
    (x.BareTag? ==> q == e) &&
    (x.PayloadTag? ==>
      var pl := x.payloadText;
      q == e + 2 + |pl| && t[e] == '(' && t[e + 1..e + 1 + |pl|] == pl && t[e + 1 + |pl|] == ')' &&
      forall k :: 0 <= k < |pl| ==> t[e + 1 + k] == pl[k]) &&
    (q == |t| || t[q] == ' ')
  }

  /** The name of a written tag is a run of word characters that its end stops. */
  lemma WrittenName(t: string, a: nat, x: Tag, q: nat)
    requires WellFormed(x) && WrittenAt(t, a, x, q)
    ensures TagStartsAt(t, a) && NameAt(t, a) == x.tagName
  {
    var n := x.tagName;
    var e := a + 1 + |n|;
    forall k | a + 1 <= k < e
      ensures IsWordChar(t[k])
    {
      assert t[k] == n[k - a - 1];
    }
    assert e == |t| || !IsWordChar(t[e]);
    WordRunExact(t, a + 1, e);
    assert t[a + 1..e] == n;
  }

  /** A written bare tag followed by the end or a space: both scans step over it. */
  lemma ScanBareTagAt(t: string, a: nat, x: Tag, q: nat)
    requires WellFormed(x) && x.BareTag? && WrittenAt(t, a, x, q)
    ensures BareScan(t, a) == [BareTag(x.tagName)] + BareScan(t, q)
    ensures PayloadScan(t, a) == PayloadScan(t, q)
  {
    var n := x.tagName;
    WrittenName(t, a, x, q);
    ScansSkipRun(t, q);
    BareScanAtTag(t, a, n, q + WhitespaceRun(t, q));
    assert PayloadAt(t, a) == None;
    forall k | a + 1 <= k < q
      ensures t[k] != '@'
    {
      assert t[k] == n[k - a - 1];
    }
    PayloadScanSkips(t, a + 1, q);
  }

  /** The payload match of a written payload tag: its name, its payload, and the end of the tag. */
  lemma WrittenPayloadMatch(t: string, a: nat, x: Tag, q: nat)
    requires WellFormed(x) && x.PayloadTag? && WrittenAt(t, a, x, q)
    ensures PayloadAt(t, a) == Some(PayloadMatch(x.tagName, x.payloadText, q + WhitespaceRun(t, q)))
  {
    WrittenName(t, a, x, q);
    WrittenPayloadClose(t, a, x, q);
    PayloadAtWritten(t, a, x.tagName, x.payloadText, a + 1 + |x.tagName|, q);
  }

  /** The `)` that closes a written payload is the first one after its `(`. */
  lemma WrittenPayloadClose(t: string, a: nat, x: Tag, q: nat)
    requires WellFormed(x) && x.PayloadTag? && WrittenAt(t, a, x, q)
    ensures var e := a + 1 + |x.tagName|;
      e + 2 + |x.payloadText| == q && t[e] == '(' && t[e + 1..e + 1 + |x.payloadText|] == x.payloadText &&
      CloseFrom(t, e + 1, 1) == Some(|x.payloadText|)
  {
    var n, pl := x.tagName, x.payloadText;
    var e := a + 1 + |n|;
    forall k | e + 1 <= k < e + 1 + |pl|
      ensures !IsNewline(t[k]) && t[k] != ')'
    {
      assert t[k] == pl[k - e - 1];
    }
    CloseFromFinds(t, e + 1, 1, |pl|);
  }

  /** A tag start, its name, a `(`, the payload up to the first `)`: the payload match of `@name(payload)`. */
  lemma PayloadAtWritten(t: string, a: nat, n: string, pl: string, e: nat, q: nat)
    requires a < |t| && TagStartsAt(t, a) && NameAt(t, a) == n && e == a + 1 + |n|
    requires e + 2 + |pl| == q <= |t| && t[e] == '('
    requires t[e + 1..e + 1 + |pl|] == pl && CloseFrom(t, e + 1, 1) == Some(|pl|)
    ensures PayloadAt(t, a) == Some(PayloadMatch(n, pl, q + WhitespaceRun(t, q)))
  {
    PayloadAtClose(t, a, e, |pl|, e + 1 + |pl|);
  }

  /** `@name(` with its first `)` at `close`: the payload match that ends past the spaces after `)`. */
  lemma PayloadAtClose(t: string, p: nat, e: nat, c: nat, close: nat)
    requires p <= |t| && TagStartsAt(t, p)
    requires e == p + 1 + |NameAt(t, p)| && e < |t| && t[e] == '(' && e + 1 < |t|
    requires CloseFrom(t, e + 1, 1) == Some(c) && close == e + 1 + c
    ensures PayloadAt(t, p) == Some(PayloadMatch(NameAt(t, p), t[e + 1..close], close + 1 + WhitespaceRun(t, close + 1)))
  {
  }

  /** Past the name of a written payload tag: a `(` and no `@` before the tag's end. */
  lemma WrittenPayloadNoAt(t: string, a: nat, x: Tag, q: nat)
    requires WellFormed(x) && x.PayloadTag? && WrittenAt(t, a, x, q)
    ensures a < |t| && a + 1 + |x.tagName| <= q <= |t|
    ensures WhitespaceRun(t, a + 1 + |x.tagName|) == 0
    ensures forall k :: a + 1 + |x.tagName| <= k < q ==> t[k] != '@'
  {
    var e, pl := a + 1 + |x.tagName|, x.payloadText;
    forall k | e <= k < q
      ensures t[k] != '@'
    {
      if e + 1 <= k < e + 1 + |pl| {
        assert t[k] == pl[k - e - 1];
      }
    }
  }

  /** The bare scan takes the name of a tag and steps over the `@`-free rest of it. */
  lemma BareScanOverTag(t: string, a: nat, n: string, q: nat)
    requires a < |t| && TagStartsAt(t, a) && n == NameAt(t, a)
    requires WhitespaceRun(t, a + 1 + |n|) == 0 && a + 1 + |n| <= q <= |t|
    requires forall k :: a + 1 + |n| <= k < q ==> t[k] != '@'
    ensures BareScan(t, a) == [BareTag(n)] + BareScan(t, q)
  {
    var e := a + 1 + |n|;
    BareScanAtTag(t, a, n, e);
    BareScanSkips(t, e, q);
    assert BareScan(t, e) == BareScan(t, q);
  }

  /** The payload scan takes a payload match and goes on where it ends. */
  lemma PayloadScanOverMatch(t: string, a: nat, x: Tag, r: nat, q: nat)
    requires a < |t| && x.PayloadTag? && r <= |t| && q <= |t|
    requires PayloadAt(t, a) == Some(PayloadMatch(x.tagName, x.payloadText, r))
    requires PayloadScan(t, r) == PayloadScan(t, q)
    ensures PayloadScan(t, a) == [x] + PayloadScan(t, q)
  {
  }

  /** A written payload tag followed by the end or a space: both scans step over it. */
  lemma ScanPayloadTagAt(t: string, a: nat, x: Tag, q: nat)
    requires WellFormed(x) && x.PayloadTag? && WrittenAt(t, a, x, q)
    ensures BareScan(t, a) == [BareTag(x.tagName)] + BareScan(t, q)
    ensures PayloadScan(t, a) == [x] + PayloadScan(t, q)
  {
    WrittenName(t, a, x, q);
    WrittenPayloadMatch(t, a, x, q);
    WrittenPayloadNoAt(t, a, x, q);
    PayloadTagScans(t, a, x, q);
  }

  /** A payload match at `a` that ends in whitespace after `q`, with no `@` past its name: both scans step over it. */
  lemma PayloadTagScans(t: string, a: nat, x: Tag, q: nat)
    requires a < |t| && x.PayloadTag? && TagStartsAt(t, a) && NameAt(t, a) == x.tagName
    requires a + 1 + |x.tagName| <= q <= |t| && WhitespaceRun(t, a + 1 + |x.tagName|) == 0
    requires forall k :: a + 1 + |x.tagName| <= k < q ==> t[k] != '@'
    requires PayloadAt(t, a) == Some(PayloadMatch(x.tagName, x.payloadText, q + WhitespaceRun(t, q)))
    ensures BareScan(t, a) == [BareTag(x.tagName)] + BareScan(t, q)
    ensures PayloadScan(t, a) == [x] + PayloadScan(t, q)
  {
    BareScanOverTag(t, a, x.tagName, q);
    PayloadScanOverRun(t, a, x, q);
  }

  /** The payload scan takes a payload match that ends in the whitespace after `q`. */
  lemma PayloadScanOverRun(t: string, a: nat, x: Tag, q: nat)
    requires a < |t| && x.PayloadTag? && q <= |t|
    requires PayloadAt(t, a) == Some(PayloadMatch(x.tagName, x.payloadText, q + WhitespaceRun(t, q)))
    ensures PayloadScan(t, a) == [x] + PayloadScan(t, q)
  {
    var r := q + WhitespaceRun(t, q);
    WhitespaceRunAll(t, q);
    PayloadScanSkips(t, q, r);
    PayloadScanOverMatch(t, a, x, r, q);
  }

  /** A tag written at `a` and followed by the end or a space leaves the characters above. */
  lemma WrittenTagAt(t: string, a: nat, x: Tag, s: string)
    requires s == x.ToString() && a + |s| <= |t| && t[a..a + |s|] == s
    requires a + |s| == |t| || t[a + |s|] == ' '
    ensures WrittenAt(t, a, x, a + |s|)
  {
    TagChars(t, a, x);
  }

  /** Either kind of written tag: both scans step over it. */
  lemma ScanTagAt(t: string, a: nat, x: Tag, q: nat)
    requires WellFormed(x) && WrittenAt(t, a, x, q)
    ensures BareScan(t, a) == [BareTag(x.tagName)] + BareScan(t, q)
    ensures PayloadScan(t, a) == (if x.PayloadTag? then [x] else []) + PayloadScan(t, q)
  {
    if x.BareTag? {
      ScanBareTagAt(t, a, x, q);
    } else {
      ScanPayloadTagAt(t, a, x, q);
    }
  }

  /** The first written tag: a space, then the tag, then the end or the next space. */
  lemma WrittenTagsHead(t: string, p: nat, ts: seq<Tag>)
    requires p <= |t| && t[p..] == Prefixed(" ", TagTexts(ts)) && ts != []
    ensures p < |t| && t[p] == ' '
    ensures WrittenAt(t, p + 1, ts[0], p + 1 + |ts[0].ToString()|)
    ensures t[p + 1 + |ts[0].ToString()|..] == Prefixed(" ", TagTexts(ts[1..]))
  {
    var x := ts[0];
    var s := x.ToString();
    var rest := Prefixed(" ", TagTexts(ts[1..]));
    PrefixedTagsHead(ts);
    SpaceSplit(t, p, s, rest);
    WrittenTagAt(t, p + 1, x, s);
  }

  /** The written tags are a space, the first tag, and the rest, which is empty or starts with a space. */
  lemma PrefixedTagsHead(ts: seq<Tag>)
    requires ts != []
    ensures Prefixed(" ", TagTexts(ts)) == " " + ts[0].ToString() + Prefixed(" ", TagTexts(ts[1..]))
    ensures var rest := Prefixed(" ", TagTexts(ts[1..])); rest == [] || rest[0] == ' '
  {
    assert TagTexts(ts)[1..] == TagTexts(ts[1..]);
  }

  /** A space, then `s`, then `rest` that is empty or starts with a space. */
  lemma SpaceSplit(t: string, p: nat, s: string, rest: string)
    requires p <= |t| && t[p..] == " " + s + rest && (rest == [] || rest[0] == ' ')
    ensures p + 1 + |s| <= |t| && t[p] == ' ' && t[p + 1..p + 1 + |s|] == s
    ensures t[p + 1 + |s|..] == rest
    ensures p + 1 + |s| == |t| || t[p + 1 + |s|] == ' '
  {
    assert t[p] == t[p..][0];
    assert t[p + 1..p + 1 + |s|] == t[p..][1..1 + |s|];
    assert t[p + 1 + |s|..] == t[p..][1 + |s|..];
    if rest != [] {
      assert t[p + 1 + |s|] == rest[0];
    }
  }

  /** The first written tag and the space before it: both scans step over them to `q`. */
  lemma ScanWrittenHead(t: string, p: nat, ts: seq<Tag>, q: nat)
    requires p <= |t| && t[p..] == Prefixed(" ", TagTexts(ts)) && ts != [] && WellFormed(ts[0])
    requires q == p + 1 + |ts[0].ToString()|
    ensures q <= |t| && t[q..] == Prefixed(" ", TagTexts(ts[1..]))
    ensures BareScan(t, p) == [BareTag(ts[0].tagName)] + BareScan(t, q)
    ensures PayloadScan(t, p) == (if ts[0].PayloadTag? then [ts[0]] else []) + PayloadScan(t, q)
  {
    WrittenTagsHead(t, p, ts);
    ScanTagAt(t, p + 1, ts[0], q);
    BareScanSkips(t, p, p + 1);
    PayloadScanSkips(t, p, p + 1);
  }

  /** The tags of a line as `toString` writes them, each after a space, scan back name by name and payload by payload. */
  lemma {:induction false} ScanWrittenTags(t: string, p: nat, ts: seq<Tag>)
    requires p <= |t| && t[p..] == Prefixed(" ", TagTexts(ts))
    requires forall k :: 0 <= k < |ts| ==> WellFormed(ts[k])
    ensures BareScan(t, p) == Bares(ts) && PayloadScan(t, p) == Payloads(ts)
    decreases |ts|
  {
    if ts == [] {
      assert p == |t|;
    } else {
      var q := p + 1 + |ts[0].ToString()|;
      assert WellFormed(ts[0]);
      ScanWrittenHead(t, p, ts, q);
      assert forall k :: 0 <= k < |ts[1..]| ==> WellFormed(ts[1..][k]);
      ScanWrittenTags(t, q, ts[1..]);
      ScansCons(ts, BareScan(t, p), BareScan(t, q), PayloadScan(t, p), PayloadScan(t, q));
    }
  }

  /** Scans that take the first tag and then the tags after it take all of them. */
  lemma ScansCons(ts: seq<Tag>, bp: seq<Tag>, bq: seq<Tag>, pp: seq<Tag>, pq: seq<Tag>)
    requires ts != [] && bq == Bares(ts[1..]) && pq == Payloads(ts[1..])
    requires bp == [BareTag(ts[0].tagName)] + bq
    requires pp == (if ts[0].PayloadTag? then [ts[0]] else []) + pq
    ensures bp == Bares(ts) && pp == Payloads(ts)
  {
  }

  /**
   * No payload tag comes after a bare tag of the same name. The second loop
   * of `extractTags` puts a payload tag in place of the first bare tag with
   * its name, so such a bare tag would take the payload instead.
   */
  predicate Unshadowed(ts: seq<Tag>) {
    forall i, j :: 0 <= i < j < |ts| && ts[j].PayloadTag? ==> ts[i] != BareTag(ts[j].tagName)
  }

  lemma PayloadsFrom(ts: seq<Tag>, i: nat)
    requires i < |ts|
    ensures Payloads(ts[i..]) == (if ts[i].PayloadTag? then [ts[i]] else []) + Payloads(ts[i + 1..])
  {
    assert ts[i..][1..] == ts[i + 1..];
  }

  lemma MergeCons(r: seq<Tag>, x: Tag, ps: seq<Tag>)
    ensures Merge(r, [x] + ps) == Merge(Place(r, x), ps)
  {
    assert ([x] + ps)[1..] == ps;
  }

  /** Once the tags before `i` are in place, the payload tag at `i` lands on its own bare tag. */
  lemma PlaceOwn(ts: seq<Tag>, i: nat)
    requires i < |ts| && Unshadowed(ts) && ts[i].PayloadTag?
    ensures Place(ts[..i] + Bares(ts[i..]), ts[i]) == ts[..i + 1] + Bares(ts[i + 1..])
  {
    OwnIsFirst(ts, i);
    OwnReplaced(ts, i);
  }

  /** Before `i` the tags are in place and none is the bare tag of a later payload tag's name. */
  lemma OwnIsFirst(ts: seq<Tag>, i: nat)
    requires i < |ts| && Unshadowed(ts) && ts[i].PayloadTag?
    ensures FirstIndexOf(ts[..i] + Bares(ts[i..]), BareTag(ts[i].tagName)) == i
  {
    var r := ts[..i] + Bares(ts[i..]);
    var b := BareTag(ts[i].tagName);
    assert r[i] == b;
    forall j | 0 <= j < i
      ensures r[j] != b
    {
      assert r[j] == ts[j];
    }
    var f := FirstIndexOf(r, b);
    assert b in r;
    assert f <= i;
  }

  lemma OwnReplaced(ts: seq<Tag>, i: nat)
    requires i < |ts|
    ensures (ts[..i] + Bares(ts[i..]))[i := ts[i]] == ts[..i + 1] + Bares(ts[i + 1..])
  {
  }

  /** A bare tag at `i` is already in its place. */
  lemma BareInPlace(ts: seq<Tag>, i: nat)
    requires i < |ts| && ts[i].BareTag?
    ensures ts[..i] + Bares(ts[i..]) == ts[..i + 1] + Bares(ts[i + 1..])
  {
    assert Bares(ts[i..]) == [ts[i]] + Bares(ts[i + 1..]);
    assert ts[..i + 1] == ts[..i] + [ts[i]];
  }

  /** One payload tag of the merge: tag `i` is put in its place, or already is. */
  lemma MergeStep(ts: seq<Tag>, i: nat)
    requires i < |ts| && Unshadowed(ts)
    ensures Merge(ts[..i] + Bares(ts[i..]), Payloads(ts[i..])) ==
      Merge(ts[..i + 1] + Bares(ts[i + 1..]), Payloads(ts[i + 1..]))
  {
    var r, next := ts[..i] + Bares(ts[i..]), ts[..i + 1] + Bares(ts[i + 1..]);
    var ps, rest := Payloads(ts[i..]), Payloads(ts[i + 1..]);
    PayloadsFrom(ts, i);
    if ts[i].BareTag? {
      BareInPlace(ts, i);
      assert r == next && ps == rest;
    } else {
      assert ps == [ts[i]] + rest;
      MergeCons(r, ts[i], rest);
      PlaceOwn(ts, i);
      assert Merge(r, ps) == Merge(Place(r, ts[i]), rest);
    }
  }

  /** From tag `i` on, the merge puts each payload tag back in the place of its own name. */
  lemma {:induction false} MergeRest(ts: seq<Tag>, i: nat)
    requires i <= |ts| && Unshadowed(ts)
    ensures Merge(ts[..i] + Bares(ts[i..]), Payloads(ts[i..])) == ts
    decreases |ts| - i
  {
    if i == |ts| {
      assert ts[..i] + Bares(ts[i..]) == ts;
      assert Payloads(ts[i..]) == [];
    } else {
      MergeStep(ts, i);
      MergeRest(ts, i + 1);
    }
  }

  /** The two scans of tags written without shadowing merge back to the tags. */
  lemma MergeWritten(ts: seq<Tag>)
    requires Unshadowed(ts)
    ensures Merge(Bares(ts), Payloads(ts)) == ts
  {
    MergeRest(ts, 0);
    assert ts[..0] + Bares(ts[0..]) == Bares(ts);
  }

  // ---------------------------------------------------------------------
  // A written line with tags
  // ---------------------------------------------------------------------

  /** What the tags leave after the kind's text: a space and an `@` first, no line break, and a last character that is neither whitespace nor a colon. */
  predicate TagTail(tail: string) {
    |tail| >= 2 && tail[0] == ' ' && tail[1] == '@' && NoNewlineIn(tail, 0, |tail|) &&
    !IsWhitespace(tail[|tail| - 1]) && tail[|tail| - 1] != ':'
  }

  /** A well-formed tag as written holds no line break. */
  lemma WrittenTagNoNewline(x: Tag, s: string)
    requires WellFormed(x) && s == x.ToString()
    ensures NoNewlineIn(s, 0, |s|)
  {
    var n := x.tagName;
    ToStringShape(x);
    forall k | 0 <= k < |s|
      ensures !IsNewline(s[k])
    {
      if 1 <= k < 1 + |n| {
        assert s[k] == s[1..1 + |n|][k - 1];
      } else if x.PayloadTag? && 2 + |n| <= k < 2 + |n| + |x.payloadText| {
        assert s[k] == s[1 + |n|..][k - 1 - |n|];
        assert ("(" + x.payloadText + ")")[k - 1 - |n|] == x.payloadText[k - 2 - |n|];
      }
    }
  }

  /** A well-formed tag as written: an `@` first, no line break, and a word character or `)` last. */
  lemma WrittenTagText(x: Tag)
    requires WellFormed(x)
    ensures var s := x.ToString();
      |s| >= 2 && s[0] == '@' && NoNewlineIn(s, 0, |s|) && !IsWhitespace(s[|s| - 1]) && s[|s| - 1] != ':'
  {
    var s := x.ToString();
    WrittenTagNoNewline(x, s);
    ToStringShape(x);
    if x.BareTag? {
      assert s[|s| - 1] == s[1..1 + |x.tagName|][|x.tagName| - 1];
    } else {
      assert s[|s| - 1] == s[1 + |x.tagName|..][|x.payloadText| + 1];
    }
  }

  /** The tags `toString` writes after the kind's text, when there is at least one. */
  lemma {:induction false} WrittenTagsTail(ts: seq<Tag>)
    requires ts != [] && forall k :: 0 <= k < |ts| ==> WellFormed(ts[k])
    ensures TagTail(Prefixed(" ", TagTexts(ts)))
    decreases |ts|
  {
    var s := ts[0].ToString();
    var rest := Prefixed(" ", TagTexts(ts[1..]));
    var tail := Prefixed(" ", TagTexts(ts));
    assert TagTexts(ts)[1..] == TagTexts(ts[1..]);
    assert tail == " " + s + rest;
    WrittenTagText(ts[0]);
    if ts[1..] == [] {
      assert rest == [];
      assert tail[|tail| - 1] == s[|s| - 1];
    } else {
      WrittenTagsTail(ts[1..]);
      assert tail[|tail| - 1] == rest[|rest| - 1];
    }
    forall k | 0 <= k < |tail|
      ensures !IsNewline(tail[k])
    {
      if 1 <= k < 1 + |s| {
        assert tail[k] == s[k - 1];
      } else if 1 + |s| <= k {
        assert tail[k] == rest[k - 1 - |s|];
      }
    }
  }

  /** The text kept before the tags is the name: the cut falls at the space before the first tag. */
  lemma KeptName(name: string, tail: string)
    requires PlainName(name) && !IsWhitespace(name[|name| - 1]) && TagTail(tail)
    ensures NoNewlineIn(name + tail, 0, |name + tail|)
    ensures KeptText(name + tail) == name
  {
    var body := name + tail;
    var m := |name|;
    forall k | 0 <= k < |body|
      ensures !IsNewline(body[k])
    {
      if k >= m {
        assert body[k] == tail[k - m];
      }
    }
    assert body[m] == ' ' && body[m + 1] == '@';
    assert '@' in body;
    NormalizeCutAfterAt(body, m + 1);
    NormalizeCutCorrect(body);
    var c := NormalizeCut(body).value;
    assert CutAt(body, m, 1);
    assert c <= m;
    var w := WhitespaceRun(body, c);
    assert forall k :: 0 <= k < m ==> body[k] == name[k];
    assert c + w > m;
    assert body[m - 1] == name[m - 1];
    assert c >= m;
    assert body[..m] == name;
  }

  /** The tags found in the body are the written ones. */
  lemma BodyTagsWritten(name: string, ts: seq<Tag>)
    requires '@' !in name && ts != []
    requires forall k :: 0 <= k < |ts| ==> WellFormed(ts[k])
    requires Unshadowed(ts)
    ensures BodyTags(name + Prefixed(" ", TagTexts(ts))) == ts
  {
    var tail := Prefixed(" ", TagTexts(ts));
    var body := name + tail;
    WrittenTagsTail(ts);
    assert body[|name| + 1] == '@';
    assert '@' in body;
    assert forall k :: 0 <= k < |name| ==> body[k] == name[k] != '@';
    BareScanSkips(body, 0, |name|);
    PayloadScanSkips(body, 0, |name|);
    assert body[|name|..] == tail;
    ScanWrittenTags(body, |name|, ts);
    MergeWritten(ts);
  }

  /** The node built from a body whose kept text is `name` and whose tags are `ts`, with no colon taken. */
  lemma TaggedNode(m: LineMatch, name: string, ts: seq<Tag>)
    requires !m.colon && KeptText(m.body) == name && BodyTags(m.body) == ts
    requires |name| >= 1 && !IsWhitespace(name[0])
    ensures NodeOf(m) == Node(m.indent, if m.hyphen then Task(name) else Text(name), ts, [])
  {
    assert !IsBlank(name[0]);
    assert !AllBlank(name);
  }

  /** `- ` before a line without a newline leaves it without one. */
  lemma DashedNoNewline(body: string)
    requires NoNewlineIn(body, 0, |body|)
    ensures NoNewlineIn("- " + body, 0, |"- " + body|)
  {
    var rest := "- " + body;
    forall k | 0 <= k < |rest|
      ensures !IsNewline(rest[k])
    {
      if k >= 2 {
        assert rest[k] == body[k - 2];
      }
    }
  }

  /** The characters of a tagged task line that the whole-line match looks at. */
  lemma TaskLineShape(level: nat, name: string, tail: string)
    requires PlainName(name) && TagTail(tail) && NoNewlineIn(name + tail, 0, |name + tail|)
    ensures var s := Tabs(level) + ("- " + (name + tail));
      NoNewlineIn(s, 0, |s|) && level + 2 < |s| && WhitespaceIn(s, 0, level) && s[level] == '-' &&
      WhitespaceIn(s, level + 1, level + 2) && !IsWhitespace(s[level + 2]) &&
      ColonWidth(s, level + 2) == 0 && name + tail == s[level + 2..|s| - ColonWidth(s, level + 2)]
  {
    var body := name + tail;
    var rest := "- " + body;
    var s := Tabs(level) + rest;
    DashedNoNewline(body);
    TabbedFacts(level, rest, 1, 0);
    TabbedFacts(level, rest, 2, 0);
    assert rest[2..] == body;
    assert s[|s| - 1] == tail[|tail| - 1];
  }

  /** The characters of a tagged text line that the whole-line match looks at. */
  lemma TextLineShape(level: nat, name: string, tail: string)
    requires PlainName(name) && TagTail(tail) && NoNewlineIn(name + tail, 0, |name + tail|)
    ensures var s := Tabs(level) + (name + tail);
      NoNewlineIn(s, 0, |s|) && level < |s| && WhitespaceIn(s, 0, level) &&
      !IsWhitespace(s[level]) && s[level] != '-' &&
      ColonWidth(s, level) == 0 && name + tail == s[level..|s| - ColonWidth(s, level)]
  {
    var body := name + tail;
    var s := Tabs(level) + body;
    TabbedFacts(level, body, 0, 0);
    assert s[level] == name[0];
    assert s[|s| - 1] == tail[|tail| - 1];
  }

  /** The whole-line match of a tagged task line. */
  lemma TaggedTaskParse(level: nat, name: string, tail: string, s: string)
    requires PlainName(name) && TagTail(tail) && NoNewlineIn(name + tail, 0, |name + tail|)
    requires s == Tabs(level) + ("- " + (name + tail))
    ensures NoNewlineIn(s, 0, |s|) && ParseLine(s) == Some(NodeOf(LineMatch(level, true, 1, name + tail, false)))
  {
    TaskLineShape(level, name, tail);
    MatchLineDashed(s, level, 1, name + tail, false);
  }

  /** The whole-line match of a tagged text line. */
  lemma TaggedTextParse(level: nat, name: string, tail: string, s: string)
    requires PlainName(name) && TagTail(tail) && NoNewlineIn(name + tail, 0, |name + tail|)
    requires s == Tabs(level) + (name + tail)
    ensures NoNewlineIn(s, 0, |s|) && ParseLine(s) == Some(NodeOf(LineMatch(level, false, 0, name + tail, false)))
  {
    TextLineShape(level, name, tail);
    MatchLinePlain(s, level, name + tail, false);
  }

  /** A tagged task line: tabs, a hyphen and a space, the name, then the tags. */
  lemma TaggedTaskLine(level: nat, name: string, ts: seq<Tag>, s: string)
    requires PlainName(name) && !IsWhitespace(name[|name| - 1]) && ts != []
    requires forall k :: 0 <= k < |ts| ==> WellFormed(ts[k])
    requires Unshadowed(ts)
    requires s == Tabs(level) + ("- " + (name + Prefixed(" ", TagTexts(ts))))
    ensures NoNewlineIn(s, 0, |s|) && ParseLine(s) == Some(Node(level, Task(name), ts, []))
  {
    var tail := Prefixed(" ", TagTexts(ts));
    WrittenTagsTail(ts);
    KeptName(name, tail);
    TaggedTaskParse(level, name, tail, s);
    BodyTagsWritten(name, ts);
    TaggedNode(LineMatch(level, true, 1, name + tail, false), name, ts);
  }

  /** A tagged text line: tabs, the text, then the tags. */
  lemma TaggedTextLine(level: nat, name: string, ts: seq<Tag>, s: string)
    requires PlainName(name) && !IsWhitespace(name[|name| - 1]) && ts != []
    requires forall k :: 0 <= k < |ts| ==> WellFormed(ts[k])
    requires Unshadowed(ts)
    requires s == Tabs(level) + (name + Prefixed(" ", TagTexts(ts)))
    ensures NoNewlineIn(s, 0, |s|) && ParseLine(s) == Some(Node(level, Text(name), ts, []))
  {
    var tail := Prefixed(" ", TagTexts(ts));
    WrittenTagsTail(ts);
    KeptName(name, tail);
    TaggedTextParse(level, name, tail, s);
    BodyTagsWritten(name, ts);
    TaggedNode(LineMatch(level, false, 0, name + tail, false), name, ts);
  }

  // ---------------------------------------------------------------------
  // One entry, written and read back
  // ---------------------------------------------------------------------

  /**
   * An entry that `toString` writes as a line `toTMType` reads back as the
   * entry: empty text carries no tags; any other name is plain, its tags are
   * well-formed and unshadowed, and a tagged entry is a task or text whose
   * name does not end in whitespace.
   */
  predicate ReadsBack(x: Node) {
    if x.kind.name == [] then x.kind.Text? && x.tags == []
    else
      RoundTrips(x.kind) && (forall k :: 0 <= k < |x.tags| ==> WellFormed(x.tags[k])) && Unshadowed(x.tags) &&
      (x.tags != [] ==> !x.kind.Project? && !IsWhitespace(x.kind.name[|x.kind.name| - 1]))
  }

  lemma KindNoNewline(k: Kind)
    requires PlainName(k.name)
    ensures NoNewlineIn(k.ToString(), 0, |k.ToString()|)
  {
    var s := k.ToString();
    forall i | 0 <= i < |s|
      ensures !IsNewline(s[i])
    {
      if k.Task? && i >= 2 {
        assert s[i] == k.name[i - 2];
      } else if i < |k.name| && !k.Task? {
        assert s[i] == k.name[i];
      }
    }
  }

  /** An empty text entry: its line is its tabs, which read back as empty text at its level. */
  lemma EmptyEntryLine(x: Node, s: string)
    requires x.kind == Text("") && x.tags == [] && s == HeadLine(x)
    ensures NoNewlineIn(s, 0, |s|) && LineNode(s) == Strip(x)
  {
    var level := x.tabLevel;
    assert TagTexts(x.tags) == [];
    assert s == Tabs(level);
    assert Strip(x) == Leaf(level, Text(""));
    SerializeLeaf(Leaf(level, Text("")));
    EmptyTextRoundTrip(level);
    if level == 0 {
      EmptyLineNode();
    }
  }

  /** An entry without tags: its line is its tabs and its kind's text. */
  lemma UntaggedEntryLine(x: Node, s: string)
    requires RoundTrips(x.kind) && x.tags == [] && s == HeadLine(x)
    ensures NoNewlineIn(s, 0, |s|) && LineNode(s) == Strip(x)
  {
    var level := x.tabLevel;
    assert TagTexts(x.tags) == [];
    assert s == Tabs(level) + x.kind.ToString();
    assert Strip(x) == Leaf(level, x.kind);
    KindNoNewline(x.kind);
    TabbedFacts(level, x.kind.ToString(), 0, 0);
    SerializeLeaf(Leaf(level, x.kind));
    LeafRoundTrip(level, x.kind);
  }

  /** A tagged task: its line is its tabs, the hyphen and name, then its tags. */
  lemma TaggedTaskEntryLine(x: Node, s: string)
    requires ReadsBack(x) && x.kind.Task? && x.kind.name != [] && x.tags != [] && s == HeadLine(x)
    ensures NoNewlineIn(s, 0, |s|) && LineNode(s) == Strip(x)
  {
    TaggedFacts(x);
    TaggedHead(x, s);
    TaggedTaskParts(x, s);
  }

  /** A tagged task line, given as its parts, reads back as the task without its children. */
  lemma TaggedTaskParts(x: Node, s: string)
    requires x.kind.Task? && PlainName(x.kind.name) && x.kind.name != [] && !IsWhitespace(x.kind.name[|x.kind.name| - 1])
    requires x.tags != [] && (forall k :: 0 <= k < |x.tags| ==> WellFormed(x.tags[k])) && Unshadowed(x.tags)
    requires s == Tabs(x.tabLevel) + x.kind.ToString() + Prefixed(" ", TagTexts(x.tags))
    ensures NoNewlineIn(s, 0, |s|) && LineNode(s) == Strip(x)
  {
    var tail := Prefixed(" ", TagTexts(x.tags));
    AppendAssoc(Tabs(x.tabLevel), "- " + x.kind.name, tail);
    AppendAssoc("- ", x.kind.name, tail);
    TaggedTaskLine(x.tabLevel, x.kind.name, x.tags, s);
  }

  /** A tagged text line, given as its parts, reads back as the text without its children. */
  lemma TaggedTextParts(x: Node, s: string)
    requires x.kind.Text? && PlainName(x.kind.name) && x.kind.name != [] && !IsWhitespace(x.kind.name[|x.kind.name| - 1])
    requires x.tags != [] && (forall k :: 0 <= k < |x.tags| ==> WellFormed(x.tags[k])) && Unshadowed(x.tags)
    requires s == Tabs(x.tabLevel) + x.kind.ToString() + Prefixed(" ", TagTexts(x.tags))
    ensures NoNewlineIn(s, 0, |s|) && LineNode(s) == Strip(x)
  {
    AppendAssoc(Tabs(x.tabLevel), x.kind.name, Prefixed(" ", TagTexts(x.tags)));
    TaggedTextLine(x.tabLevel, x.kind.name, x.tags, s);
  }

  /** What `ReadsBack` asks of a tagged entry with a name. */
  lemma TaggedFacts(x: Node)
    requires ReadsBack(x) && x.kind.name != [] && x.tags != []
    ensures PlainName(x.kind.name) && !IsWhitespace(x.kind.name[|x.kind.name| - 1])
    ensures forall k :: 0 <= k < |x.tags| ==> WellFormed(x.tags[k])
    ensures Unshadowed(x.tags)
  {
  }

  /** The first line of a tagged entry is its unindented text after the tabs, then its tags. */
  lemma TaggedHead(x: Node, s: string)
    requires x.kind.name != [] && s == HeadLine(x)
    ensures s == Tabs(x.tabLevel) + x.kind.ToString() + Prefixed(" ", TagTexts(x.tags))
  {
    JoinAllPrefixed(Tabs(x.tabLevel) + x.kind.ToString(), " ", TagTexts(x.tags));
  }

  /** Tagged text: its line is its tabs, the text, then its tags. */
  lemma TaggedTextEntryLine(x: Node, s: string)
    requires ReadsBack(x) && x.kind.Text? && x.kind.name != [] && x.tags != [] && s == HeadLine(x)
    ensures NoNewlineIn(s, 0, |s|) && LineNode(s) == Strip(x)
  {
    TaggedFacts(x);
    TaggedHead(x, s);
    TaggedTextParts(x, s);
  }

  /** The first line `toString` writes for an entry has no line break, and `parse(string:)` reads it back as the entry without its children. */
  lemma LineRoundTrip(x: Node)
    requires ReadsBack(x)
    ensures NoNewlineIn(HeadLine(x), 0, |HeadLine(x)|)
    ensures LineNode(HeadLine(x)) == Strip(x)
  {
    var s := HeadLine(x);
    if x.kind.name == [] {
      EmptyEntryLine(x, s);
    } else if x.tags == [] {
      UntaggedEntryLine(x, s);
    } else if x.kind.Task? {
      TaggedTaskEntryLine(x, s);
    } else {
      TaggedTextEntryLine(x, s);
    }
  }

  // ---------------------------------------------------------------------
  // The text of an outline, line by line
  // ---------------------------------------------------------------------

  /** What `toString` gives for each node of a list. */
  function Texts(cs: seq<Node>): seq<string> {
    seq(|cs|, i requires 0 <= i < |cs| => Serialize(cs[i]))
  }

  /** The first line of each node of a list. */
  function Heads(ns: seq<Node>): seq<string> {
    seq(|ns|, i requires 0 <= i < |ns| => HeadLine(ns[i]))
  }

  lemma {:induction false} PrefixedConcat(sep: string, a: seq<string>, b: seq<string>)
    ensures Prefixed(sep, a + b) == Prefixed(sep, a) + Prefixed(sep, b)
    decreases |a|
  {
    if a != [] {
      assert (a + b)[1..] == a[1..] + b;
      PrefixedConcat(sep, a[1..], b);
    } else {
      assert a + b == b;
    }
  }

  /** Joining lines puts a line break before each but the first. */
  lemma {:induction false} JoinLinesPrefixed(ls: seq<string>)
    requires |ls| >= 1
    ensures "\n" + JoinLines(ls) == Prefixed("\n", ls)
    decreases |ls|
  {
    if |ls| == 1 {
      assert ls[1..] == [];
    } else {
      JoinLinesPrefixed(ls[1..]);
    }
  }

  /** A node below the top level has a first line that is not empty. */
  lemma IndentedHeadLine(n: Node)
    requires n.tabLevel >= 1
    ensures HeadLine(n) != []
  {
    JoinAllPrefixed(Tabs(n.tabLevel) + n.kind.ToString(), " ", TagTexts(n.tags));
  }

  /** A tree `toString` writes line by line: well nested, and with a first line unless it has no children. */
  predicate Spelled(n: Node) {
    WellNested(n) && (HeadLine(n) != [] || n.children == [])
  }

  /** `toString` of a tree with a first line, or without children: the first line, then each child after a line break. */
  lemma SerializeJoined(n: Node)
    requires HeadLine(n) != [] || n.children == []
    ensures Serialize(n) == HeadLine(n) + Prefixed("\n", Texts(n.children))
  {
    assert ChildTexts(n) == Texts(n.children);
    if n.children == [] {
      assert Texts(n.children) == [];
    } else {
      JoinAllPrefixed(HeadLine(n), "\n", ChildTexts(n));
    }
  }

  lemma HeadsConcat(a: seq<Node>, b: seq<Node>)
    ensures Heads(a + b) == Heads(a) + Heads(b)
  {
    var l, r := Heads(a + b), Heads(a) + Heads(b);
    assert |l| == |r|;
    forall i | 0 <= i < |l|
      ensures l[i] == r[i]
    {
      if i < |a| {
        assert (a + b)[i] == a[i];
      } else {
        assert (a + b)[i] == b[i - |a|];
      }
    }
  }

  lemma HeadsFlatten(n: Node)
    ensures Heads(Flatten(n)) == [HeadLine(n)] + Heads(FlattenAll(n.children))
  {
    var one := [Strip(n)];
    assert Flatten(n) == one + FlattenAll(n.children);
    HeadsConcat(one, FlattenAll(n.children));
    assert Heads(one) == [HeadLine(n)];
  }

  lemma PrefixedCons(sep: string, h: string, rest: seq<string>)
    ensures Prefixed(sep, [h] + rest) == sep + h + Prefixed(sep, rest)
  {
    assert ([h] + rest)[1..] == rest;
  }

  /** The children of a well-nested tree are written line by line too. */
  lemma ChildrenSpelled(n: Node)
    requires WellNested(n)
    ensures forall i :: 0 <= i < |n.children| ==> Spelled(n.children[i])
  {
    forall i | 0 <= i < |n.children|
      ensures Spelled(n.children[i])
    {
      assert n.children[i] in n.children;
      IndentedHeadLine(n.children[i]);
    }
  }

  /** `toString` writes a tree as the first lines of its nodes in line order, each after a line break. */
  lemma {:induction false} SerializeLines(n: Node)
    requires Spelled(n)
    ensures "\n" + Serialize(n) == Prefixed("\n", Heads(Flatten(n)))
    decreases n, 1
  {
    var h := HeadLine(n);
    var rest := Heads(FlattenAll(n.children));
    ChildrenSpelled(n);
    ForestLines(n.children);
    SerializeJoined(n);
    HeadsFlatten(n);
    PrefixedCons("\n", h, rest);
  }

  lemma TextsSnoc(cs: seq<Node>)
    requires cs != []
    ensures Texts(cs) == Texts(cs[..|cs| - 1]) + [Serialize(cs[|cs| - 1])]
  {
    var init := Texts(cs[..|cs| - 1]);
    var b := init + [Serialize(cs[|cs| - 1])];
    forall i | 0 <= i < |cs| ensures Texts(cs)[i] == b[i] {
      if i < |cs| - 1 {
        assert b[i] == init[i] == Serialize(cs[..|cs| - 1][i]);
      }
    }
  }

  lemma HeadsSnoc(cs: seq<Node>)
    requires cs != []
    ensures Heads(FlattenAll(cs)) == Heads(FlattenAll(cs[..|cs| - 1])) + Heads(Flatten(cs[|cs| - 1]))
  {
    HeadsConcat(FlattenAll(cs[..|cs| - 1]), Flatten(cs[|cs| - 1]));
  }

  /** A list of such trees, each after a line break, is the first lines of all their nodes. */
  lemma {:induction false} ForestLines(cs: seq<Node>)
    requires forall i :: 0 <= i < |cs| ==> Spelled(cs[i])
    ensures Prefixed("\n", Texts(cs)) == Prefixed("\n", Heads(FlattenAll(cs)))
    decreases cs, 0
  {
    if cs != [] {
      var init, last := cs[..|cs| - 1], cs[|cs| - 1];
      ForestLines(init);
      SerializeLines(last);
      TextsSnoc(cs);
      PrefixedConcat("\n", Texts(init), [Serialize(last)]);
      HeadsSnoc(cs);
      PrefixedConcat("\n", Heads(FlattenAll(init)), Heads(Flatten(last)));
      PrefixedCons("\n", Serialize(last), []);
    }
  }

  // ---------------------------------------------------------------------
  // The whole outline, written and read back
  // ---------------------------------------------------------------------

  /** Every entry of a tree reads back as itself. */
  predicate AllReadBack(n: Node)
    decreases n
  {
    ReadsBack(n) && forall c :: c in n.children ==> AllReadBack(c)
  }

  /**
   * An outline that survives the round trip: at least one root, the roots at
   * level 0 with each child one level below its parent and no two siblings
   * equal apart from their children, every entry reading back as itself,
   * and no children below an empty line at the top.
   */
  predicate Outline(f: seq<Node>) {
    f != [] && NestedForest(f) &&
    forall i :: 0 <= i < |f| ==> AllReadBack(f[i]) && (f[i].kind.name == [] ==> f[i].children == [])
  }

  /** The text of an outline: each root's `toString`, joined by line breaks. */
  function FileText(f: seq<Node>): string
    requires f != []
  {
    JoinLines(Texts(f))
  }

  /** The models `parse(string:)` gives for a text: one per line. */
  function ParsedModels(s: string): seq<Node> {
    seq(|Lines(s)|, i requires 0 <= i < |Lines(s)| => LineNode(Lines(s)[i]))
  }

  /** The lines of a tree each read back and hold no children. */
  lemma {:induction false} FlattenReadBack(n: Node)
    requires AllReadBack(n)
    ensures forall i :: 0 <= i < |Flatten(n)| ==> Flatten(n)[i].children == [] && ReadsBack(Flatten(n)[i])
    decreases n, 1
  {
    forall i | 0 <= i < |n.children|
      ensures AllReadBack(n.children[i])
    {
      assert n.children[i] in n.children;
    }
    FlattenAllReadBack(n.children);
    assert Flatten(n) == [Strip(n)] + FlattenAll(n.children);
  }

  lemma {:induction false} FlattenAllReadBack(cs: seq<Node>)
    requires forall i :: 0 <= i < |cs| ==> AllReadBack(cs[i])
    ensures forall i :: 0 <= i < |FlattenAll(cs)| ==> FlattenAll(cs)[i].children == [] && ReadsBack(FlattenAll(cs)[i])
    decreases cs, 0
  {
    if cs != [] {
      var init, last := cs[..|cs| - 1], cs[|cs| - 1];
      FlattenAllReadBack(init);
      FlattenReadBack(last);
      assert FlattenAll(cs) == FlattenAll(init) + Flatten(last);
    }
  }

  /** A root of an outline is written line by line. */
  lemma RootSpelled(x: Node)
    requires ReadsBack(x) && WellNested(x) && (x.kind.name == [] ==> x.children == [])
    ensures Spelled(x)
  {
    if x.kind.name != [] {
      assert x.kind.ToString() != [];
      JoinAllPrefixed(Tabs(x.tabLevel) + x.kind.ToString(), " ", TagTexts(x.tags));
    }
  }

  /** The text of an outline is the first lines of all its nodes, in line order, joined by line breaks. */
  lemma FileLines(f: seq<Node>)
    requires f != [] && forall i :: 0 <= i < |f| ==> Spelled(f[i])
    ensures |FlattenAll(f)| >= 1 && FileText(f) == JoinLines(Heads(FlattenAll(f)))
  {
    var ls := Heads(FlattenAll(f));
    assert FlattenAll(f) == FlattenAll(f[..|f| - 1]) + Flatten(f[|f| - 1]);
    JoinLinesPrefixed(Texts(f));
    ForestLines(f);
    JoinLinesPrefixed(ls);
    var a, b := FileText(f), JoinLines(ls);
    assert ("\n" + a)[1..] == a && ("\n" + b)[1..] == b;
  }

  /** Splitting the text of an outline and parsing each line gives its nodes in line order, without children. */
  lemma ParsedFlattened(f: seq<Node>)
    requires Outline(f)
    ensures ParsedModels(FileText(f)) == FlattenAll(f)
  {
    forall i | 0 <= i < |f|
      ensures Spelled(f[i])
    {
      RootSpelled(f[i]);
    }
    FileLines(f);
    var ns := FlattenAll(f);
    var ls := Heads(ns);
    FlattenAllReadBack(f);
    forall k | 0 <= k < |ls|
      ensures '\n' !in ls[k] && LineNode(ls[k]) == ns[k]
    {
      LineRoundTrip(ns[k]);
      assert Strip(ns[k]) == ns[k];
    }
    LinesOfJoinLines(ls);
  }

  /**
   * The sample file of the tests, in general: writing an outline out with
   * `toString`, joining the roots by line breaks, parsing the text and
   * normalising the models gives the outline back.
   */
  lemma OutlineRoundTrip(f: seq<Node>)
    requires Outline(f)
    ensures Normalized(ParsedModels(FileText(f))) == f
  {
    ParsedFlattened(f);
    ForestRebuilt(f);
  }
}
