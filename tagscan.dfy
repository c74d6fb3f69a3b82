/**
 * `Substring.extractTags`: the two regex scans `@word\s*` and
 * `@word(payload)\s*`, written out as left-to-right scans over the text,
 * and the loop that merges their results.
 */
module TagScan {
  import opened Wrappers
  import opened Chars
  import opened Tags

  // ---------------------------------------------------------------------
  // `@word\s*`, every non-overlapping match from left to right
  // ---------------------------------------------------------------------

  /** A tag match can start at `p`: an `@` followed by a word character. */
  predicate TagStartsAt(t: string, p: nat) {
    p + 1 < |t| && t[p] == '@' && IsWordChar(t[p + 1])
  }

  /** The name that a match starting at `p` captures: the whole run of word characters. */
  function NameAt(t: string, p: nat): (name: string)
    requires TagStartsAt(t, p)
    ensures |name| >= 1 && p + 1 + |name| <= |t|
  {
    t[p + 1..p + 1 + WordRun(t, p + 1)]
  }

  /** `self.matches(of: tagSearch)` from position `p` on, as bare tags. */
  function BareScan(t: string, p: nat): (r: seq<Tag>)
    requires p <= |t|
    decreases |t| - p
  {
    if p == |t| then []
    else if TagStartsAt(t, p) then
      var e := p + 1 + |NameAt(t, p)|;
      [BareTag(NameAt(t, p))] + BareScan(t, e + WhitespaceRun(t, e))
    else BareScan(t, p + 1)
  }

  // ---------------------------------------------------------------------
  // `@word(payload)\s*`, the payload reluctant and free of line breaks
  // ---------------------------------------------------------------------

  /**
   * The reluctant payload: the smallest `b >= 1` with `t[start + b] == ')'`,
   * growing only over characters that are not line breaks.
   */
  function CloseFrom(t: string, start: nat, b: nat): (r: Option<nat>)
    requires 1 <= b && start + b <= |t|
    ensures r.Some? ==> b <= r.value && start + r.value < |t| && t[start + r.value] == ')'
    decreases |t| - b
  {
    if IsNewline(t[start + b - 1]) then None
    else if start + b < |t| && t[start + b] == ')' then Some(b)
    else if start + b == |t| then None
    else CloseFrom(t, start, b + 1)
  }

  /** The payload found is the shortest: no `)` and no line break before its end. */
  lemma {:induction false} CloseFromShortest(t: string, start: nat, b: nat)
    requires 1 <= b && start + b <= |t| && CloseFrom(t, start, b).Some?
    ensures forall k :: start + b - 1 <= k < start + CloseFrom(t, start, b).value ==> !IsNewline(t[k])
    ensures forall k :: start + b <= k < start + CloseFrom(t, start, b).value ==> t[k] != ')'
    decreases |t| - b
  {
    if !(start + b < |t| && t[start + b] == ')') {
      CloseFromShortest(t, start, b + 1);
    }
  }

  /** A payload match: the captured name and payload, and where the match ends. */
  datatype PayloadMatch = PayloadMatch(name: string, payload: string, end: nat)

  /** A payload match starting at `p`, if there is one. */
  function PayloadAt(t: string, p: nat): (r: Option<PayloadMatch>)
    requires p <= |t|
    ensures r.Some? ==> TagStartsAt(t, p) && r.value.name == NameAt(t, p)
    ensures r.Some? ==> |r.value.payload| >= 1 && p + 3 + |r.value.name| + |r.value.payload| <= r.value.end <= |t|
    ensures r.Some? ==> t[p + 1 + |r.value.name|] == '(' && t[p + 2 + |r.value.name| + |r.value.payload|] == ')'
  {
    if !TagStartsAt(t, p) then None
    else
      var name := NameAt(t, p);
      var e := p + 1 + |name|;
      if e < |t| && t[e] == '(' && e + 1 < |t| then
        var b := CloseFrom(t, e + 1, 1);
        if b.None? then None
        else
          var close := e + 1 + b.value;
          Some(PayloadMatch(name, t[e + 1..close], close + 1 + WhitespaceRun(t, close + 1)))
      else None
  }

  /** A payload match spans the text `@name(payload)`. */
  lemma PayloadAtSpans(t: string, p: nat)
    requires p <= |t| && PayloadAt(t, p).Some?
    ensures var m := PayloadAt(t, p).value;
      var e := p + 1 + |m.name|;
      t[p] == '@' && t[p + 1..e] == m.name && t[e] == '(' &&
      t[e + 1..e + 1 + |m.payload|] == m.payload && t[e + 1 + |m.payload|] == ')'
  {
  }

  /** `self.matches(of: payloadSearch)` from position `p` on, as payload tags. */
  function PayloadScan(t: string, p: nat): (r: seq<Tag>)
    requires p <= |t|
    decreases |t| - p
  {
    if p == |t| then []
    else
      var m := PayloadAt(t, p);
      if m.Some? then [PayloadTag(m.value.name, m.value.payload)] + PayloadScan(t, m.value.end)
      else PayloadScan(t, p + 1)
  }

  /** The bare scan yields bare tags with non-empty names, at most one per character. */
  lemma {:induction false} BareScanTags(t: string, p: nat)
    requires p <= |t|
    ensures forall k :: 0 <= k < |BareScan(t, p)| ==> BareScan(t, p)[k].BareTag? && |BareScan(t, p)[k].tagName| >= 1
    ensures |BareScan(t, p)| <= |t| - p
    decreases |t| - p
  {
    if p < |t| {
      if TagStartsAt(t, p) {
        var e := p + 1 + |NameAt(t, p)|;
        BareScanTags(t, e + WhitespaceRun(t, e));
      } else {
        BareScanTags(t, p + 1);
      }
    }
  }

  /** The payload scan yields payload tags with non-empty names and payloads. */
  lemma {:induction false} PayloadScanTags(t: string, p: nat)
    requires p <= |t|
    ensures forall k :: 0 <= k < |PayloadScan(t, p)| ==>
      PayloadScan(t, p)[k].PayloadTag? && |PayloadScan(t, p)[k].tagName| >= 1 && |PayloadScan(t, p)[k].payloadText| >= 1
    decreases |t| - p
  {
    if p < |t| {
      var m := PayloadAt(t, p);
      if m.Some? { PayloadScanTags(t, m.value.end); } else { PayloadScanTags(t, p + 1); }
    }
  }

  // ---------------------------------------------------------------------
  // Merging the payload tags into the bare ones
  // ---------------------------------------------------------------------

  /** One step of the second loop: replace the first equal bare tag, or append. */
  function Place(results: seq<Tag>, pt: Tag): (r: seq<Tag>)
    ensures BareTag(pt.tagName) in results ==> |r| == |results|
    ensures BareTag(pt.tagName) !in results ==> r == results + [pt]
    ensures var i := FirstIndexOf(results, BareTag(pt.tagName)); i >= 0 ==> r == results[i := pt]
    ensures pt in r
  {
    var i := FirstIndexOf(results, BareTag(pt.tagName));
    if i == -1 then results + [pt]
    else
      assert results[i := pt][i] == pt;
      results[i := pt]
  }

  function Merge(results: seq<Tag>, payloads: seq<Tag>): seq<Tag>
    decreases |payloads|
  {
    if payloads == [] then results else Merge(Place(results, payloads[0]), payloads[1..])
  }

  /** The tags `extractTags` returns for `t`. */
  function TagsOf(t: string): seq<Tag> {
    Merge(BareScan(t, 0), PayloadScan(t, 0))
  }

  /** `extractTags` as it is written: two loops that fill `var results`. */
  method ExtractTags(t: string) returns (results: seq<Tag>)
    ensures results == TagsOf(t)
  {
    if '@' !in t {
      NoAtNoTags(t);
      return [];
    }
    var tagResults := BareScan(t, 0);
    BareScanTags(t, 0);
    results := [];
    for i := 0 to |tagResults|
      invariant results == tagResults[..i]
    {
      results := results + [BareTag(tagResults[i].tagName)];
    }
    assert tagResults[..|tagResults|] == tagResults;
    var payloadResults := PayloadScan(t, 0);
    PayloadScanTags(t, 0);
    for i := 0 to |payloadResults|
      invariant Merge(results, payloadResults[i..]) == TagsOf(t)
    {
      assert payloadResults[i..][1..] == payloadResults[i + 1..];
      var payloadTag := PayloadTag(payloadResults[i].tagName, payloadResults[i].payloadText);
      var index := FirstIndexOf(results, BareTag(payloadResults[i].tagName));
      ghost var before := results;
      if index != -1 {
        results := RemoveAt(results, index);
        results := InsertAt(results, payloadTag, index);
        RemoveThenInsert(before, payloadTag, index);
      } else {
        results := results + [payloadTag];
      }
      assert results == Place(before, payloadResults[i]);
    }
    assert payloadResults[|payloadResults|..] == [];
  }

  /** `remove(at:)`. */
  function RemoveAt<T>(s: seq<T>, i: nat): (r: seq<T>)
    requires i < |s|
    ensures |r| == |s| - 1
    ensures forall k :: 0 <= k < i ==> r[k] == s[k]
    ensures forall k :: i <= k < |r| ==> r[k] == s[k + 1]
  {
    s[..i] + s[i + 1..]
  }

  /** `insert(_:at:)`. */
  function InsertAt<T>(s: seq<T>, x: T, i: nat): (r: seq<T>)
    requires i <= |s|
    ensures |r| == |s| + 1 && r[i] == x
    ensures forall k :: 0 <= k < i ==> r[k] == s[k]
    ensures forall k :: i < k < |r| ==> r[k] == s[k - 1]
  {
    s[..i] + [x] + s[i..]
  }

  /** Removing and then inserting at the same index replaces that element. */
  lemma RemoveThenInsert<T>(s: seq<T>, x: T, i: nat)
    requires i < |s|
    ensures InsertAt(RemoveAt(s, i), x, i) == s[i := x]
  {
  }

  // ---------------------------------------------------------------------
  // Properties
  // ---------------------------------------------------------------------

  /** Positions without an `@` are skipped by the bare scan. */
  lemma {:induction false} BareScanSkips(t: string, p: nat, q: nat)
    requires p <= q <= |t| && forall k :: p <= k < q ==> t[k] != '@'
    ensures BareScan(t, p) == BareScan(t, q)
    decreases q - p
  {
    if p < q {
      assert !TagStartsAt(t, p);
      BareScanSkips(t, p + 1, q);
    }
  }

  /** Positions without an `@` are skipped by the payload scan. */
  lemma {:induction false} PayloadScanSkips(t: string, p: nat, q: nat)
    requires p <= q <= |t| && forall k :: p <= k < q ==> t[k] != '@'
    ensures PayloadScan(t, p) == PayloadScan(t, q)
    decreases q - p
  {
    if p < q { PayloadScanSkips(t, p + 1, q); }
  }

  lemma {:induction false} BareScanNeedsAt(t: string, p: nat)
    requires p <= |t| && forall k :: p <= k < |t| ==> t[k] != '@'
    ensures BareScan(t, p) == []
    decreases |t| - p
  {
    if p < |t| { BareScanNeedsAt(t, p + 1); }
  }

  lemma {:induction false} PayloadScanNeedsAt(t: string, p: nat)
    requires p <= |t| && forall k :: p <= k < |t| ==> t[k] != '@'
    ensures PayloadScan(t, p) == []
    decreases |t| - p
  {
    if p < |t| { PayloadScanNeedsAt(t, p + 1); }
  }

  /** One step of the bare scan at a tag. */
  lemma BareScanAtTag(t: string, p: nat, n: string, next: nat)
    requires p < |t| && TagStartsAt(t, p) && n == NameAt(t, p)
    requires next == p + 1 + |n| + WhitespaceRun(t, p + 1 + |n|)
    ensures BareScan(t, p) == [BareTag(n)] + BareScan(t, next)
  {
  }

  /** What a payload match at `p` consists of. */
  predicate PayloadParts(t: string, p: nat, m: PayloadMatch)
    requires p <= |t|
  {
    var e := p + 1 + |m.name|;
    TagStartsAt(t, p) && m.name == NameAt(t, p) && e + 1 < |t| && t[e] == '(' &&
    CloseFrom(t, e + 1, 1) == Some(|m.payload|) && e + 1 + |m.payload| <= |t| &&
    m.payload == t[e + 1..e + 1 + |m.payload|] &&
    m.end == e + 2 + |m.payload| + WhitespaceRun(t, e + 2 + |m.payload|)
  }

  lemma PayloadAtFromPartsOf(t: string, p: nat, m: PayloadMatch)
    requires p <= |t| && PayloadParts(t, p, m)
    ensures PayloadAt(t, p) == Some(m)
  {
  }

  /** Without an `@` there are no tags, so the guard at the top of `extractTags` changes nothing. */
  lemma NoAtNoTags(t: string)
    requires '@' !in t
    ensures TagsOf(t) == []
  {
    BareScanNeedsAt(t, 0);
    PayloadScanNeedsAt(t, 0);
  }

  /**
   * Merging keeps every position of the bare list: the name there is kept,
   * and the tag is either the bare one or a payload tag.
   */
  lemma {:induction false} MergeKeepsPositions(results: seq<Tag>, payloads: seq<Tag>)
    requires forall k :: 0 <= k < |payloads| ==> payloads[k].PayloadTag?
    ensures |Merge(results, payloads)| >= |results|
    ensures forall k :: 0 <= k < |results| ==>
      Merge(results, payloads)[k].tagName == results[k].tagName &&
      (Merge(results, payloads)[k] == results[k] || Merge(results, payloads)[k].PayloadTag?)
    decreases |payloads|
  {
    if payloads != [] {
      var next := Place(results, payloads[0]);
      MergeKeepsPositions(next, payloads[1..]);
    }
  }

  /** A payload tag, once placed, is never replaced: only bare tags are. */
  lemma {:induction false} MergeKeepsPayloads(results: seq<Tag>, payloads: seq<Tag>, x: Tag)
    requires forall k :: 0 <= k < |payloads| ==> payloads[k].PayloadTag?
    requires x.PayloadTag? && (x in results || x in payloads)
    ensures x in Merge(results, payloads)
    decreases |payloads|
  {
    if payloads != [] {
      var next := Place(results, payloads[0]);
      if x in results {
        var i := FirstIndexOf(results, BareTag(payloads[0].tagName));
        var j :| 0 <= j < |results| && results[j] == x;
        if i != -1 { assert next[j] == x; }
      }
      assert x in next || x in payloads[1..];
      MergeKeepsPayloads(next, payloads[1..], x);
    }
  }

  // ---------------------------------------------------------------------
  // Which bare tag each payload tag lands on
  // ---------------------------------------------------------------------

  /** How many tags of `s` carry the name `n`. */
  function CountNamed(s: seq<Tag>, n: string): nat
    decreases |s|
  {
    if s == [] then 0 else (if s[0].tagName == n then 1 else 0) + CountNamed(s[1..], n)
  }

  lemma {:induction false} CountNamedConcat(a: seq<Tag>, b: seq<Tag>, n: string)
    ensures CountNamed(a + b, n) == CountNamed(a, n) + CountNamed(b, n)
    decreases |a|
  {
    if a == [] {
      assert a + b == b;
    } else {
      assert (a + b)[0] == a[0] && (a + b)[1..] == a[1..] + b;
      CountNamedConcat(a[1..], b, n);
    }
  }

  /** Counting over a longer prefix counts at least as many, and more once a tag of the name is passed. */
  lemma CountNamedPrefix(s: seq<Tag>, a: nat, b: nat, n: string)
    requires a <= b <= |s|
    ensures CountNamed(s[..a], n) <= CountNamed(s[..b], n)
    ensures a < b && s[a].tagName == n ==> CountNamed(s[..a], n) < CountNamed(s[..b], n)
  {
    assert s[..b] == s[..a] + s[a..b];
    CountNamedConcat(s[..a], s[a..b], n);
    if a < b { assert s[a..b][0] == s[a]; }
  }

  /**
   * The index of the tag of `s` named `n` that has exactly `r` tags of that
   * name before it, or -1 when `s` has no more than `r` of them.
   */
  function NthNamed(s: seq<Tag>, n: string, r: nat): (j: int)
    ensures -1 <= j < |s|
    ensures j >= 0 <==> r < CountNamed(s, n)
    ensures j >= 0 ==> s[j].tagName == n && CountNamed(s[..j], n) == r
    decreases |s|
  {
    if s == [] then -1
    else
      var init := s[..|s| - 1];
      assert init + [s[|s| - 1]] == s;
      CountNamedConcat(init, [s[|s| - 1]], n);
      assert [s[|s| - 1]][1..] == [];
      if r < CountNamed(init, n) then
        var j := NthNamed(init, n, r);
        assert s[..j] == init[..j];
        j
      else if r == CountNamed(init, n) && s[|s| - 1].tagName == n then
        assert s[..|s| - 1] == init;
        |s| - 1
      else -1
  }

  /** A tag named `n` is the one found by its own count of earlier tags of that name. */
  lemma NthNamedUnique(s: seq<Tag>, n: string, j: nat)
    requires j < |s| && s[j].tagName == n
    ensures NthNamed(s, n, CountNamed(s[..j], n)) == j
  {
    var r := CountNamed(s[..j], n);
    CountNamedPrefix(s, j, |s|, n);
    assert s[..|s|] == s;
    var i := NthNamed(s, n, r);
    if i < j { CountNamedPrefix(s, i, j, n); }
    if i > j { CountNamedPrefix(s, j, i, n); }
  }

  /** Appending one tag adds one to its own name's count and keeps the earlier indices. */
  lemma NthNamedSnoc(s: seq<Tag>, x: Tag, m: string, r: nat)
    ensures CountNamed(s + [x], m) == CountNamed(s, m) + (if x.tagName == m then 1 else 0)
    ensures r < CountNamed(s, m) ==> NthNamed(s + [x], m, r) == NthNamed(s, m, r)
    ensures x.tagName == m && r == CountNamed(s, m) ==> NthNamed(s + [x], m, r) == |s|
  {
    CountNamedConcat(s, [x], m);
    assert [x][1..] == [];
    assert (s + [x])[..|s|] == s;
  }

  /**
   * The tag at position `k` of the bare list `bs` once the payload tags `ps`
   * are merged in: the r-th bare tag of a name takes the r-th payload tag of
   * that name, when there is one.
   */
  function Upgraded(bs: seq<Tag>, ps: seq<Tag>, k: nat): Tag
    requires k < |bs|
  {
    var n := bs[k].tagName;
    var r := CountNamed(bs[..k], n);
    if r < CountNamed(ps, n) then ps[NthNamed(ps, n, r)] else bs[k]
  }

  /** `rs` is the bare list `bs` after the payload tags `ps` were placed. */
  predicate MergedState(rs: seq<Tag>, bs: seq<Tag>, ps: seq<Tag>) {
    |rs| == |bs| && forall k :: 0 <= k < |bs| ==> rs[k] == Upgraded(bs, ps, k)
  }

  /** Placing one more payload tag, of a name with a bare tag still free, upgrades that bare tag. */
  lemma MergeStep(rs: seq<Tag>, bs: seq<Tag>, ps: seq<Tag>, x: Tag)
    requires forall k :: 0 <= k < |bs| ==> bs[k].BareTag?
    requires forall k :: 0 <= k < |ps| ==> ps[k].PayloadTag?
    requires x.PayloadTag? && MergedState(rs, bs, ps)
    requires CountNamed(ps, x.tagName) < CountNamed(bs, x.tagName)
    ensures MergedState(Place(rs, x), bs, ps + [x])
  {
    var n := x.tagName;
    var c := CountNamed(ps, n);
    var k0 := NthNamed(bs, n, c);
    assert rs[k0] == BareTag(n);
    forall k | 0 <= k < k0 ensures rs[k] != BareTag(n) {
      if bs[k].tagName == n { CountNamedPrefix(bs, k, k0, n); }
    }
    var i := FirstIndexOf(rs, BareTag(n));
    assert i == k0;
    forall k | 0 <= k < |bs| ensures rs[k0 := x][k] == Upgraded(bs, ps + [x], k) {
      var m := bs[k].tagName;
      var r := CountNamed(bs[..k], m);
      NthNamedSnoc(ps, x, m, r);
      if k != k0 && m == n && r == c { NthNamedUnique(bs, n, k); }
    }
  }

  /** Merging payload tags whose names never outnumber the bare ones keeps the merged state. */
  lemma {:induction false} MergeUpgrades(rs: seq<Tag>, bs: seq<Tag>, ps: seq<Tag>, qs: seq<Tag>)
    requires forall k :: 0 <= k < |bs| ==> bs[k].BareTag?
    requires forall k :: 0 <= k < |ps| ==> ps[k].PayloadTag?
    requires forall k :: 0 <= k < |qs| ==> qs[k].PayloadTag?
    requires MergedState(rs, bs, ps)
    requires forall m :: CountNamed(ps + qs, m) <= CountNamed(bs, m)
    ensures MergedState(Merge(rs, qs), bs, ps + qs)
    decreases |qs|
  {
    if qs != [] {
      var x := qs[0];
      assert qs == [x] + qs[1..];
      CountNamedConcat(ps, qs, x.tagName);
      assert (ps + [x]) + qs[1..] == ps + qs;
      MergeStep(rs, bs, ps, x);
      MergeUpgrades(Place(rs, x), bs, ps + [x], qs[1..]);
    } else {
      assert ps + qs == ps;
    }
  }

  /** Where the bare scan goes on after a tag that starts at `p`. */
  function BareNext(t: string, p: nat): (next: nat)
    requires TagStartsAt(t, p)
    ensures p < next <= |t|
  {
    p + 1 + |NameAt(t, p)| + WhitespaceRun(t, p + 1 + |NameAt(t, p)|)
  }

  /** The tag found at `p` only adds to the count of names. */
  lemma BareScanHead(t: string, p: nat, n: string)
    requires TagStartsAt(t, p)
    ensures CountNamed(BareScan(t, BareNext(t, p)), n) <= CountNamed(BareScan(t, p), n)
  {
    var rest := BareScan(t, BareNext(t, p));
    assert BareScan(t, p) == [BareTag(NameAt(t, p))] + rest;
    CountNamedConcat([BareTag(NameAt(t, p))], rest, n);
  }

  /** A start inside a tag's name or the whitespace after it finds what the scan after the tag finds. */
  lemma BareScanInsideTag(t: string, p: nat, q: nat)
    requires TagStartsAt(t, p) && p < q <= BareNext(t, p)
    ensures BareScan(t, q) == BareScan(t, BareNext(t, p))
  {
    var e := p + 1 + |NameAt(t, p)|;
    WordRunAll(t, p + 1);
    WhitespaceRunAll(t, e);
    assert forall k :: q <= k < BareNext(t, p) ==> IsWordChar(t[k]) || IsWhitespace(t[k]);
    BareScanSkips(t, q, BareNext(t, p));
  }

  /** A later start of the bare scan finds no more tags of any name. */
  lemma {:induction false} BareScanLater(t: string, p: nat, q: nat, n: string)
    requires p <= q <= |t|
    ensures CountNamed(BareScan(t, q), n) <= CountNamed(BareScan(t, p), n)
    decreases q - p
  {
    if p < q {
      if TagStartsAt(t, p) {
        var next := BareNext(t, p);
        BareScanHead(t, p, n);
        if q <= next {
          BareScanInsideTag(t, p, q);
        } else {
          BareScanLater(t, next, q, n);
        }
      } else {
        BareScanLater(t, p + 1, q, n);
      }
    }
  }

  /** Every payload match starts where a bare match of the same name does: no name is found more often with a payload. */
  lemma {:induction false} PayloadsBelowBares(t: string, p: nat, n: string)
    requires p <= |t|
    ensures CountNamed(PayloadScan(t, p), n) <= CountNamed(BareScan(t, p), n)
    decreases |t| - p
  {
    if p < |t| {
      var m := PayloadAt(t, p);
      if m.Some? {
        var e := p + 1 + |NameAt(t, p)|;
        assert WhitespaceRun(t, e) == 0;
        var rest := PayloadScan(t, m.value.end);
        assert PayloadScan(t, p) == [PayloadTag(m.value.name, m.value.payload)] + rest;
        assert BareScan(t, p) == [BareTag(NameAt(t, p))] + BareScan(t, e);
        CountNamedConcat([PayloadTag(m.value.name, m.value.payload)], rest, n);
        CountNamedConcat([BareTag(NameAt(t, p))], BareScan(t, e), n);
        PayloadsBelowBares(t, m.value.end, n);
        BareScanLater(t, e, m.value.end, n);
      } else {
        PayloadsBelowBares(t, p + 1, n);
        BareScanLater(t, p, p + 1, n);
      }
    }
  }

  /**
   * `extractTags` keeps one entry per bare `@word` match, in order, and no
   * more: the r-th bare match of a name becomes the r-th payload match of
   * that name when there is one, and stays bare otherwise. So every payload
   * match lands on the bare match of its name with its own rank, which for
   * `@a(x) @a(y)` puts `a(x)` first and `a(y)` second.
   */
  lemma TagsOfShape(t: string)
    ensures |TagsOf(t)| == |BareScan(t, 0)|
    ensures forall k :: 0 <= k < |BareScan(t, 0)| ==>
      TagsOf(t)[k] == Upgraded(BareScan(t, 0), PayloadScan(t, 0), k)
    ensures forall j :: 0 <= j < |PayloadScan(t, 0)| ==>
      var ps := PayloadScan(t, 0);
      var k := NthNamed(BareScan(t, 0), ps[j].tagName, CountNamed(ps[..j], ps[j].tagName));
      0 <= k < |TagsOf(t)| && TagsOf(t)[k] == ps[j]
  {
    var bs, ps := BareScan(t, 0), PayloadScan(t, 0);
    BareScanTags(t, 0);
    PayloadScanTags(t, 0);
    forall m ensures CountNamed([] + ps, m) <= CountNamed(bs, m) {
      assert [] + ps == ps;
      PayloadsBelowBares(t, 0, m);
    }
    MergeUpgrades(bs, bs, [], ps);
    assert [] + ps == ps;
    forall j | 0 <= j < |ps|
      ensures var k := NthNamed(bs, ps[j].tagName, CountNamed(ps[..j], ps[j].tagName));
        0 <= k < |TagsOf(t)| && TagsOf(t)[k] == ps[j]
    {
      var n := ps[j].tagName;
      var r := CountNamed(ps[..j], n);
      CountNamedPrefix(ps, j, |ps|, n);
      assert ps[..|ps|] == ps;
      PayloadsBelowBares(t, 0, n);
      var k := NthNamed(bs, n, r);
      NthNamedUnique(ps, n, j);
    }
  }

  lemma ExamplePayloadMatch(t: string)
    requires t == "@tag @test(pay load)" && NameAt(t, 5) == "test"
    ensures PayloadAt(t, 5) == Some(PayloadMatch("test", "pay load", 20))
  {
    CloseFromFinds(t, 11, 1, 8);
    assert t[11..19] == "pay load";
    assert WhitespaceRun(t, 20) == 0;
  }

  lemma ExampleNames(t: string)
    requires t == "@tag @test(pay load)"
    ensures NameAt(t, 0) == "tag" && NameAt(t, 5) == "test"
  {
    ExampleFirstName(t);
    ExampleSecondName(t);
  }

  lemma ExampleFirstName(t: string)
    requires t == "@tag @test(pay load)"
    ensures NameAt(t, 0) == "tag"
  {
    assert IsWordChar(t[1]) && IsWordChar(t[2]) && IsWordChar(t[3]) && !IsWordChar(t[4]);
    WordRunExact(t, 1, 4);
  }

  lemma ExampleSecondName(t: string)
    requires t == "@tag @test(pay load)"
    ensures NameAt(t, 5) == "test"
  {
    assert IsWordChar(t[6]) && IsWordChar(t[7]) && IsWordChar(t[8]) && IsWordChar(t[9]) && !IsWordChar(t[10]);
    WordRunExact(t, 6, 10);
  }

  lemma ExampleBareTail(t: string)
    requires t == "@tag @test(pay load)"
    ensures BareScan(t, 5) == [BareTag("test")]
  {
    ExampleNames(t);
    assert WhitespaceRun(t, 10) == 0;
    BareScanNeedsAt(t, 10);
  }

  lemma ExampleBareScan(t: string)
    requires t == "@tag @test(pay load)"
    ensures BareScan(t, 0) == [BareTag("tag"), BareTag("test")]
  {
    ExampleBareTail(t);
    ExampleNames(t);
    assert WhitespaceRun(t, 4) == 1 by {
      assert WhitespaceRun(t, 5) == 0;
    }
  }

  lemma ExamplePayloadTail(t: string)
    requires t == "@tag @test(pay load)"
    ensures PayloadScan(t, 5) == [PayloadTag("test", "pay load")]
  {
    ExampleNames(t);
    ExamplePayloadMatch(t);
    PayloadScanNeedsAt(t, 20);
  }

  lemma ExampleNoPayloadAtStart(t: string)
    requires t == "@tag @test(pay load)"
    ensures PayloadAt(t, 0) == None
  {
    ExampleNames(t);
    assert t[4] == ' ';
  }

  lemma ExamplePayloadScan(t: string)
    requires t == "@tag @test(pay load)"
    ensures PayloadScan(t, 0) == [PayloadTag("test", "pay load")]
  {
    ExamplePayloadTail(t);
    PayloadScanSkips(t, 1, 5);
    ExampleNoPayloadAtStart(t);
  }

  /** The worked example: a bare tag and a payload tag with a space in its payload. */
  lemma TwoTagsExample()
    ensures TagsOf("@tag @test(pay load)") == [BareTag("tag"), PayloadTag("test", "pay load")]
  {
    var t := "@tag @test(pay load)";
    ExampleBareScan(t);
    ExamplePayloadScan(t);
    assert FirstIndexOf([BareTag("tag"), BareTag("test")], BareTag("test")) == 1;
  }

  /** A tag as it is written back: a word name and a payload with no line break, `)` or `@`. */
  predicate WellFormed(tag: Tag) {
    |tag.tagName| >= 1 && (forall k :: 0 <= k < |tag.tagName| ==> IsWordChar(tag.tagName[k])) &&
    (tag.PayloadTag? ==>
      |tag.payloadText| >= 1 &&
      forall k :: 0 <= k < |tag.payloadText| ==>
        !IsNewline(tag.payloadText[k]) && tag.payloadText[k] != ')' && tag.payloadText[k] != '@')
  }

  lemma {:induction false} CloseFromFinds(t: string, start: nat, b: nat, c: nat)
    requires 1 <= b <= c && start + c < |t| && t[start + c] == ')'
    requires forall k :: start + b - 1 <= k < start + c ==> !IsNewline(t[k])
    requires forall k :: start + b <= k < start + c ==> t[k] != ')'
    ensures CloseFrom(t, start, b) == Some(c)
    decreases c - b
  {
    if b < c { CloseFromFinds(t, start, b + 1, c); }
  }

  /** Scanning the written form of a well-formed tag gives that tag back. */
  lemma TagRoundTrip(tag: Tag)
    requires WellFormed(tag)
    ensures TagsOf(tag.ToString()) == [tag]
  {
    var t := tag.ToString();
    var n := tag.tagName;
    var e := 1 + |n|;
    if tag.BareTag? {
      assert t == "@" + n;
      assert forall k :: 1 <= k < e ==> t[k] == n[k - 1];
      WordRunExact(t, 1, 1 + |n|);
      assert WordRun(t, 1) == |n|;
      assert NameAt(t, 0) == n;
      assert BareScan(t, 0) == [BareTag(n)];
      assert PayloadScan(t, 1) == [] by {
        PayloadScanNeedsAt(t, 1);
      }
      assert PayloadAt(t, 0) == None;
    } else {
      PayloadTagRoundTrip(tag);
    }
  }

  /** The written form of a payload tag, character by character. */
  lemma PayloadTextLayout(n: string, pl: string, t: string)
    requires t == "@" + n + "(" + pl + ")"
    ensures |t| == |n| + |pl| + 3 && t[0] == '@' && t[1 + |n|] == '(' && t[|t| - 1] == ')'
    ensures forall k :: 1 <= k < 1 + |n| ==> t[k] == n[k - 1]
    ensures forall k :: 2 + |n| <= k < |t| - 1 ==> t[k] == pl[k - |n| - 2]
    ensures t[2 + |n|..2 + |n| + |pl|] == pl
  {
    assert t[2 + |n|..2 + |n| + |pl|] == pl by {
      assert t == ("@" + n + "(") + pl + ")";
    }
  }

  lemma PayloadTagBareScan(n: string, pl: string, t: string)
    requires WellFormed(PayloadTag(n, pl)) && t == "@" + n + "(" + pl + ")"
    ensures BareScan(t, 0) == [BareTag(n)]
  {
    PayloadTextLayout(n, pl, t);
    var e := 1 + |n|;
    WordRunExact(t, 1, 1 + |n|);
    assert WordRun(t, 1) == |n|;
    assert NameAt(t, 0) == n;
    assert WhitespaceRun(t, e) == 0;
    assert forall k :: e <= k < |t| ==> t[k] != '@';
    BareScanNeedsAt(t, e);
  }

  lemma PayloadTagPayloadScan(n: string, pl: string, t: string)
    requires WellFormed(PayloadTag(n, pl)) && t == "@" + n + "(" + pl + ")"
    ensures PayloadScan(t, 0) == [PayloadTag(n, pl)]
  {
    PayloadTagMatch(n, pl, t);
  }

  lemma PayloadTagMatch(n: string, pl: string, t: string)
    requires WellFormed(PayloadTag(n, pl)) && t == "@" + n + "(" + pl + ")"
    ensures PayloadAt(t, 0) == Some(PayloadMatch(n, pl, |t|))
  {
    PayloadTagParts(n, pl, t);
    PayloadAtFromParts(t, n, pl);
  }

  lemma PayloadTagParts(n: string, pl: string, t: string)
    requires WellFormed(PayloadTag(n, pl)) && t == "@" + n + "(" + pl + ")"
    ensures TagStartsAt(t, 0) && NameAt(t, 0) == n && 3 + |n| + |pl| == |t| && t[1 + |n|] == '('
    ensures CloseFrom(t, 2 + |n|, 1) == Some(|pl|) && t[2 + |n|..2 + |n| + |pl|] == pl
  {
    PayloadTextLayout(n, pl, t);
    PayloadTagName(n, pl, t);
    PayloadTagClose(n, pl, t);
  }

  lemma PayloadTagName(n: string, pl: string, t: string)
    requires |n| >= 1 && forall k :: 0 <= k < |n| ==> IsWordChar(n[k])
    requires |t| == |n| + |pl| + 3 && t[1 + |n|] == '(' && forall k :: 1 <= k < 1 + |n| ==> t[k] == n[k - 1]
    requires t[0] == '@'
    ensures TagStartsAt(t, 0) && NameAt(t, 0) == n
  {
    WordRunExact(t, 1, 1 + |n|);
    assert WordRun(t, 1) == |n|;
  }

  lemma PayloadTagClose(n: string, pl: string, t: string)
    requires WellFormed(PayloadTag(n, pl))
    requires |t| == |n| + |pl| + 3 && t[|t| - 1] == ')' && forall k :: 2 + |n| <= k < |t| - 1 ==> t[k] == pl[k - |n| - 2]
    ensures CloseFrom(t, 2 + |n|, 1) == Some(|pl|)
  {
    CloseFromFinds(t, 2 + |n|, 1, |pl|);
  }

  lemma PayloadAtFromParts(t: string, n: string, pl: string)
    requires TagStartsAt(t, 0) && NameAt(t, 0) == n && 3 + |n| + |pl| == |t| && t[1 + |n|] == '('
    requires CloseFrom(t, 2 + |n|, 1) == Some(|pl|) && t[2 + |n|..2 + |n| + |pl|] == pl
    ensures PayloadAt(t, 0) == Some(PayloadMatch(n, pl, |t|))
  {
    assert WhitespaceRun(t, |t|) == 0;
    PayloadAtFromPartsOf(t, 0, PayloadMatch(n, pl, |t|));
  }

  lemma PayloadTagRoundTrip(tag: Tag)
    requires WellFormed(tag) && tag.PayloadTag?
    ensures TagsOf(tag.ToString()) == [tag]
  {
    var t := tag.ToString();
    var n := tag.tagName;
    var pl := tag.payloadText;
    assert t == "@" + n + "(" + pl + ")";
    PayloadTagBareScan(n, pl, t);
    PayloadTagPayloadScan(n, pl, t);
    assert Place([BareTag(n)], tag) == [tag] by {
      assert FirstIndexOf([BareTag(n)], BareTag(n)) == 0;
    }
    assert Merge([BareTag(n)], [tag]) == Merge([tag], []);
  }
}
