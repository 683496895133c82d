/** Three of the four passes that turn raw model spans into matches: extract,
    merge, split. */
module SpanMerge {
  import opened Sorting
  import opened Texts
  import opened Wrappers

  const LABEL_MAP: map<string, string> := map[
    "private_person" := "PERSON",
    "private_email" := "EMAIL_ADDRESS",
    "private_phone" := "PHONE",
    "private_url" := "URL",
    "private_address" := "ADDRESS",
    "private_date" := "DATE_OF_BIRTH",
    "account_number" := "IDENTIFIER",
    "secret" := "CREDENTIAL"
  ]

  const MAX_GAP_BY_LABEL: map<string, nat> := map[
    "PERSON" := 3,
    "ADDRESS" := 3,
    "DATE_OF_BIRTH" := 3,
    "URL" := 2,
    "PHONE" := 2,
    "CREDENTIAL" := 2,
    "IDENTIFIER" := 1,
    "EMAIL_ADDRESS" := 0
  ]

  const DEFAULT_MAX_GAP: nat := 1

  function EntityType(name: string): string {
    if name in LABEL_MAP then LABEL_MAP[name] else "OTHER"
  }

  function MaxGap(etype: string): nat {
    if etype in MAX_GAP_BY_LABEL then MAX_GAP_BY_LABEL[etype] else DEFAULT_MAX_GAP
  }

  predicate Connector(etype: string, c: char) {
    c == ' ' || c == '\t' || c == '\n' || c == '\r' || (etype == "ADDRESS" && c == ',')
  }

  /** A span as the service sends it; offsets may be missing or absurd. */
  datatype RawSpan = RawSpan(name: string, start: Option<int>, end: Option<int>, text: string)

  datatype Item = Item(start: nat, end: nat, etype: string)

  predicate Proper(text: string, x: Item) {
    x.start < x.end <= |text|
  }

  ghost predicate Within(text: string, items: seq<Item>) {
    forall k :: 0 <= k < |items| ==> Proper(text, items[k])
  }

  /** `p` lies in the span, and the span has this label. */
  predicate Holds(x: Item, kind: string, p: nat) {
    x.etype == kind && x.start <= p < x.end
  }

  ghost predicate Covered(items: seq<Item>, kind: string, p: nat) {
    exists k :: 0 <= k < |items| && Holds(items[k], kind, p)
  }

  lemma CoveredPlus(a: seq<Item>, b: seq<Item>, kind: string, p: nat)
    ensures Covered(a + b, kind, p) <==> Covered(a, kind, p) || Covered(b, kind, p)
  {
    if Covered(a, kind, p) {
      var k :| 0 <= k < |a| && Holds(a[k], kind, p);
      assert Holds((a + b)[k], kind, p);
    }
    if Covered(b, kind, p) {
      var k :| 0 <= k < |b| && Holds(b[k], kind, p);
      assert Holds((a + b)[|a| + k], kind, p);
    }
  }

  lemma CoveredOne(x: Item, kind: string, p: nat)
    ensures Covered([x], kind, p) <==> Holds(x, kind, p)
  {
    if Holds(x, kind, p) { assert Holds([x][0], kind, p); }
  }

  // ---- Extract ----

  ghost predicate FoundFrom(s: string, text: string, i: nat) {
    exists j :: i <= j <= |text| && s <= text[j..]
  }

  /** `text.find(s, i)` where it finds something. */
  function Find(s: string, text: string, i: nat): (j: nat)
    requires i <= |text| && FoundFrom(s, text, i)
    ensures i <= j && j + |s| <= |text| && text[j..j + |s|] == s
    ensures forall k :: i <= k < j ==> !(s <= text[k..])
    decreases |text| - i
  {
    if s <= text[i..] then i else Find(s, text, i + 1)
  }

  predicate Usable(span: RawSpan, n: nat) {
    span.start.Some? && span.end.Some? && 0 <= span.start.value < span.end.value <= n
  }

  /** The span's own offsets if they are usable, else the first place its text
      is found. */
  function ExtractOne(span: RawSpan, text: string): (r: Option<Item>)
    ensures r.Some? ==> Proper(text, r.value)
  {
    if span.name == "" then None
    else if !Usable(span, |text|) then
      var fallback := Strip(span.text);
      if fallback != "" && Occurs(fallback, text) then
        var pos := Find(fallback, text, 0);
        Some(Item(pos, pos + |fallback|, EntityType(span.name)))
      else None
    else Some(Item(span.start.value, span.end.value, EntityType(span.name)))
  }

  function ExtractAll(spans: seq<RawSpan>, text: string): seq<Item> {
    if spans == [] then []
    else
      var before, one := ExtractAll(spans[..|spans| - 1], text), ExtractOne(spans[|spans| - 1], text);
      if one.Some? then before + [one.value] else before
  }

  lemma {:induction false} ExtractWithin(spans: seq<RawSpan>, text: string)
    ensures Within(text, ExtractAll(spans, text))
  {
    if spans == [] {
    } else {
      ExtractWithin(spans[..|spans| - 1], text);
    }
  }

  lemma ExtractNext(spans: seq<RawSpan>, text: string, i: nat)
    requires i < |spans|
    ensures ExtractAll(spans[..i + 1], text)
            == ExtractAll(spans[..i], text) + match ExtractOne(spans[i], text) case None => [] case Some(x) => [x]
  {
    assert spans[..i + 1][..i] == spans[..i];
  }

  /** `s` is found first at `x`. */
  ghost predicate FirstFound(s: string, text: string, x: Item) {
    && s != "" && x.end == x.start + |s| && x.end <= |text| && text[x.start..x.end] == s
    && forall i :: 0 <= i < x.start ==> !(s <= text[i..])
  }

  /** Offsets that lie in a text of this length, in order. */
  ghost predicate Offsets(span: RawSpan, n: nat, start: int, end: int) {
    span.start == Some(start) && span.end == Some(end) && 0 <= start < end <= n
  }

  /** A span that the service names yields an item with the label's type: its own
      offsets, or if it has none that lie in the text the first place where its
      stripped text is found. */
  ghost predicate Yields(span: RawSpan, text: string, x: Item) {
    && span.name != ""
    && x.etype == (if span.name in LABEL_MAP then LABEL_MAP[span.name] else "OTHER")
    && (|| Offsets(span, |text|, x.start, x.end)
        || ((forall i, j :: !Offsets(span, |text|, i, j)) && FirstFound(Strip(span.text), text, x)))
  }

  lemma UsableIff(span: RawSpan, n: nat)
    ensures Usable(span, n) <==> exists i, j :: Offsets(span, n, i, j)
  {
    if Usable(span, n) { assert Offsets(span, n, span.start.value, span.end.value); }
  }

  lemma FoundOccurs(s: string, text: string, x: Item)
    requires FirstFound(s, text, x)
    ensures Occurs(s, text)
  {
    assert s <= text[x.start..];
  }

  lemma YieldsFound(span: RawSpan, text: string, x: Item)
    requires span.name != "" && !Usable(span, |text|)
    ensures ExtractOne(span, text) == Some(x) <==>
              x.etype == EntityType(span.name) && FirstFound(Strip(span.text), text, x)
  {
    var s := Strip(span.text);
    if FirstFound(s, text, x) { FoundOccurs(s, text, x); }
    if s != "" && Occurs(s, text) { FoundIsFirst(s, text, x); }
  }

  lemma YieldsIff(span: RawSpan, text: string, x: Item)
    ensures ExtractOne(span, text) == Some(x) <==> Yields(span, text, x)
  {
    UsableIff(span, |text|);
    if span.name != "" && !Usable(span, |text|) { YieldsFound(span, text, x); }
  }

  lemma FoundIsFirst(s: string, text: string, x: Item)
    requires s != "" && FoundFrom(s, text, 0)
    ensures FirstFound(s, text, x) <==> x.start == Find(s, text, 0) && x.end == x.start + |s|
  {
    var pos := Find(s, text, 0);
    assert s <= text[pos..];
    if FirstFound(s, text, x) {
      assert s <= text[x.start..];
    }
  }

  ghost predicate Yielded(spans: seq<RawSpan>, text: string, x: Item) {
    exists i :: 0 <= i < |spans| && Yields(spans[i], text, x)
  }

  lemma YieldedSnoc(spans: seq<RawSpan>, text: string, x: Item)
    requires spans != []
    ensures var n := |spans| - 1;
            Yielded(spans, text, x) <==> Yielded(spans[..n], text, x) || Yields(spans[n], text, x)
  {}

  /** Extraction finds exactly the items the spans yield. */
  lemma {:induction false} ExtractedIff(spans: seq<RawSpan>, text: string, x: Item)
    ensures x in ExtractAll(spans, text) <==> Yielded(spans, text, x)
  {
    if spans == [] {
    } else {
      var n := |spans| - 1;
      ExtractedIff(spans[..n], text, x);
      YieldsIff(spans[n], text, x);
      YieldedSnoc(spans, text, x);
    }
  }

  lemma {:induction false} ExtractSplit(a: seq<RawSpan>, b: seq<RawSpan>, text: string)
    ensures ExtractAll(a + b, text) == ExtractAll(a, text) + ExtractAll(b, text)
  {
    if b == [] {
      assert a + b == a;
    } else {
      assert (a + b)[..|a + b| - 1] == a + b[..|b| - 1];
      ExtractSplit(a, b[..|b| - 1], text);
    }
  }

  /** Span by span, in the order in which they come, at most one item each. */
  lemma ExtractAround(before: seq<RawSpan>, span: RawSpan, after: seq<RawSpan>, text: string)
    ensures ExtractAll(before + [span] + after, text)
         == ExtractAll(before, text) + (match ExtractOne(span, text) case None => [] case Some(x) => [x])
          + ExtractAll(after, text)
  {
    ExtractSplit(before + [span], after, text);
    ExtractSplit(before, [span], text);
  }

  method Extract(spans: seq<RawSpan>, text: string) returns (extracted: seq<Item>)
    ensures extracted == ExtractAll(spans, text)
  {
    extracted := [];
    for i := 0 to |spans|
      invariant extracted == ExtractAll(spans[..i], text)
    {
      var span := spans[i];
      ExtractNext(spans, text, i);
      var one := ExtractOne(span, text);
      if one.Some? { extracted := extracted + [one.value]; }
    }
    assert spans[..|spans|] == spans;
  }

  predicate ItemLe(a: Item, b: Item) {
    a.start < b.start || (a.start == b.start && a.end <= b.end)
  }

  // ---- Merge ----

  predicate BreakAt(s: string, i: nat)
    requires 0 < i < |s|
  {
    s[i - 1] == '\n' && s[i] == '\n'
  }

  /** `"\n\n" in s` */
  predicate HasBreak(s: string) {
    exists i :: 0 < i < |s| && BreakAt(s, i)
  }

  /** `_gap_is_mergeable` */
  predicate GapIsMergeable(text: string, leftEnd: nat, rightStart: nat, etype: string)
    requires rightStart <= |text|
  {
    leftEnd <= rightStart &&
    var gap := text[leftEnd..rightStart];
    gap == "" || (!HasBreak(gap) && |gap| <= MaxGap(etype) && forall i :: 0 <= i < |gap| ==> Connector(etype, gap[i]))
  }

  predicate Joins(text: string, a: Item, b: Item)
    requires b.start <= |text|
  {
    a.etype == b.etype && GapIsMergeable(text, a.end, b.start, b.etype)
  }

  /** E-mail spans are joined exactly when nothing lies between them: the limit of
      a label is looked at for a non-empty gap only. */
  lemma EmailsJoinIff(text: string, a: Item, b: Item)
    requires b.start <= |text| && a.etype == "EMAIL_ADDRESS" && b.etype == "EMAIL_ADDRESS"
    ensures Joins(text, a, b) <==> a.end == b.start
  {}

  function Merge(text: string, items: seq<Item>): (merged: seq<Item>)
    requires Within(text, items)
    ensures Within(text, merged)
    ensures items != [] ==> merged != []
                            && merged[|merged| - 1].end == items[|items| - 1].end
                            && merged[|merged| - 1].etype == items[|items| - 1].etype
  {
    if items == [] then []
    else
      var merged, item := Merge(text, items[..|items| - 1]), items[|items| - 1];
      var k := |merged| - 1;
      if merged != [] && Joins(text, merged[k], item) then merged[..k] + [merged[k].(end := item.end)]
      else merged + [item]
  }

  method MergeSpans(text: string, extracted: seq<Item>) returns (merged: seq<Item>)
    requires Within(text, extracted)
    ensures merged == Merge(text, extracted)
  {
    merged := [];
    for i := 0 to |extracted|
      invariant merged == Merge(text, extracted[..i])
    {
      var Item(start, end, etype) := extracted[i];
      assert extracted[..i + 1][..i] == extracted[..i];
      if merged != [] {
        var Item(prevStart, prevEnd, prevEtype) := merged[|merged| - 1];
        if prevEtype == etype && GapIsMergeable(text, prevEnd, start, etype) {
          merged := merged[..|merged| - 1] + [Item(prevStart, end, etype)];
          continue;
        }
      }
      merged := merged + [Item(start, end, etype)];
    }
    assert extracted[..|extracted|] == extracted;
  }

  /** The `k`-th span is merged into the one before it across this position. */
  predicate JoinedAt(text: string, items: seq<Item>, k: nat, kind: string, p: nat)
    requires 0 < k < |items| && Proper(text, items[k])
  {
    Joins(text, items[k - 1], items[k]) && items[k].etype == kind && items[k - 1].end <= p < items[k].start
  }

  /** Between two consecutive spans that are merged. */
  ghost predicate InJoinedGap(text: string, items: seq<Item>, kind: string, p: nat)
    requires Within(text, items)
  {
    exists k :: 0 < k < |items| && JoinedAt(text, items, k, kind, p)
  }

  lemma JoinedGapSnoc(text: string, items: seq<Item>, kind: string, p: nat)
    requires Within(text, items) && |items| >= 2
    ensures var k := |items| - 1;
            InJoinedGap(text, items, kind, p) <==>
              InJoinedGap(text, items[..k], kind, p) || JoinedAt(text, items, k, kind, p)
  {
    var k := |items| - 1;
    forall j | 0 < j < k
      ensures JoinedAt(text, items[..k], j, kind, p) == JoinedAt(text, items, j, kind, p)
    {}
  }

  lemma CoveredSnoc(items: seq<Item>, kind: string, p: nat)
    requires items != []
    ensures Covered(items, kind, p) <==> Covered(items[..|items| - 1], kind, p) || Holds(items[|items| - 1], kind, p)
  {}

  /** One merge: the position set grows by the new span and, if it joins, the gap. */
  lemma MergeStepCoverage(text: string, merged: seq<Item>, item: Item, kind: string, p: nat)
    requires Within(text, merged) && Proper(text, item) && merged != []
    ensures var k := |merged| - 1;
            var joins := Joins(text, merged[k], item);
            var next := if joins then merged[..k] + [merged[k].(end := item.end)] else merged + [item];
            Covered(next, kind, p) <==>
              || Covered(merged, kind, p) || Holds(item, kind, p)
              || (joins && item.etype == kind && merged[k].end <= p < item.start)
  {
    var k := |merged| - 1;
    CoveredSnoc(merged, kind, p);
    var last := merged[k].(end := item.end);
    CoveredPlus(merged[..k], [last], kind, p);
    CoveredOne(last, kind, p);
    CoveredPlus(merged, [item], kind, p);
    CoveredOne(item, kind, p);
  }

  /** Merging loses no covered position of any label and adds exactly the gaps it
      closes. */
  lemma {:induction false} MergeCoverage(text: string, items: seq<Item>, kind: string, p: nat)
    requires Within(text, items)
    ensures Covered(Merge(text, items), kind, p) <==> Covered(items, kind, p) || InJoinedGap(text, items, kind, p)
  {
    if |items| >= 1 {
      var k := |items| - 1;
      var merged := Merge(text, items[..k]);
      MergeCoverage(text, items[..k], kind, p);
      CoveredSnoc(items, kind, p);
      if k == 0 {
        assert Merge(text, items) == items;
      } else {
        JoinedGapSnoc(text, items, kind, p);
        MergeStepCoverage(text, merged, items[k], kind, p);
      }
    }
  }

  /** Spans of one label are joined exactly when the second does not begin before
      the end of the first and nothing lies between them, or what does is within the
      label's limit and holds its connectors only, no two newlines in a row. */
  lemma JoinsIff(text: string, a: Item, b: Item)
    requires b.start <= |text|
    ensures Joins(text, a, b) <==>
              && a.etype == b.etype && a.end <= b.start
              && (a.end == b.start
                  || (&& b.start - a.end <= MaxGap(b.etype)
                      && (forall p :: a.end <= p < b.start ==> Connector(b.etype, text[p]))
                      && (forall p :: a.end < p < b.start ==> text[p - 1] != '\n' || text[p] != '\n')))
  {
    if a.end <= b.start {
      var gap := text[a.end..b.start];
      assert forall i :: 0 <= i < |gap| ==> gap[i] == text[a.end + i];
      if Joins(text, a, b) && gap != "" {
        forall p | a.end <= p < b.start
          ensures Connector(b.etype, text[p]) && (a.end < p ==> text[p - 1] != '\n' || text[p] != '\n')
        {
          assert gap[p - a.end] == text[p];
          if a.end < p { assert !BreakAt(gap, p - a.end) && gap[p - a.end - 1] == text[p - 1]; }
        }
      }
    }
  }

  predicate Joinable(text: string, items: seq<Item>, k: nat)
    requires 0 < k < |items| && Proper(text, items[k])
  {
    Joins(text, items[k - 1], items[k])
  }

  ghost predicate Unjoinable(text: string, items: seq<Item>)
    requires Within(text, items)
  {
    forall k :: 0 < k < |items| ==> !Joinable(text, items, k)
  }

  lemma {:induction false} MergeLeavesNone(text: string, items: seq<Item>)
    requires Within(text, items)
    ensures Unjoinable(text, Merge(text, items))
  {
    if items == [] {
    } else {
      var merged, next := Merge(text, items[..|items| - 1]), Merge(text, items);
      MergeLeavesNone(text, items[..|items| - 1]);
      forall k | 0 < k < |next|
        ensures !Joinable(text, next, k)
      {
        assert k < |merged| ==> !Joinable(text, merged, k);
      }
    }
  }

  lemma UnjoinableFront(text: string, items: seq<Item>, n: nat)
    requires Within(text, items) && Unjoinable(text, items) && n <= |items|
    ensures Unjoinable(text, items[..n])
  {
    forall k | 0 < k < n
      ensures !Joinable(text, items[..n], k)
    {
      assert !Joinable(text, items, k);
    }
  }

  lemma {:induction false} MergeIsIdentity(text: string, items: seq<Item>)
    requires Within(text, items) && Unjoinable(text, items)
    ensures Merge(text, items) == items
  {
    if items == [] {
    } else {
      var k := |items| - 1;
      UnjoinableFront(text, items, k);
      MergeIsIdentity(text, items[..k]);
      if k > 0 { assert !Joinable(text, items, k); }
      MergeKeepsLast(text, items, k);
    }
  }

  lemma MergeKeepsLast(text: string, items: seq<Item>, k: nat)
    requires Within(text, items) && |items| == k + 1 && Merge(text, items[..k]) == items[..k]
    requires k > 0 ==> !Joins(text, items[k - 1], items[k])
    ensures Merge(text, items) == items
  {
    assert items == items[..k] + [items[k]];
  }

  ghost predicate NonOverlapping(items: seq<Item>) {
    forall j, k :: 0 <= j < k < |items| ==> items[j].end <= items[k].start
  }

  lemma {:induction false} MergeNonOverlapping(text: string, items: seq<Item>)
    requires Within(text, items) && NonOverlapping(items)
    ensures NonOverlapping(Merge(text, items))
  {
    if |items| == 1 {
      MergeIsIdentity(text, items);
    } else if |items| >= 2 {
      var k := |items| - 1;
      assert items[k - 1].end <= items[k].start;
      MergeNonOverlapping(text, items[..k]);
      MergeNext(text, items[..k], items[k]);
      assert items == items[..k] + [items[k]];
    }
  }

  lemma MergeNext(text: string, items: seq<Item>, item: Item)
    requires Within(text, items) && items != [] && Proper(text, item) && NonOverlapping(Merge(text, items))
    requires items[|items| - 1].end <= item.start && Within(text, items + [item])
    ensures NonOverlapping(Merge(text, items + [item]))
  {
    assert (items + [item])[..|items|] == items;
    AppendNonOverlapping(Merge(text, items), item);
  }

  lemma AppendNonOverlapping(merged: seq<Item>, item: Item)
    requires NonOverlapping(merged) && (forall k :: 0 <= k < |merged| ==> merged[k].start < merged[k].end)
    requires merged != [] && merged[|merged| - 1].end <= item.start
    ensures NonOverlapping(merged + [item])
    ensures NonOverlapping(merged[..|merged| - 1] + [merged[|merged| - 1].(end := item.end)])
  {}

  // ---- Split ----

  datatype Range = Range(start: nat, end: nat)

  /** The end of the newline run at `i`. */
  function NewlineRun(s: string, i: nat): (e: nat)
    requires i <= |s|
    ensures i <= e <= |s| && (e < |s| ==> s[e] != '\n')
    ensures forall j :: i <= j < e ==> s[j] == '\n'
    decreases |s| - i
  {
    if i < |s| && s[i] == '\n' then NewlineRun(s, i + 1) else i
  }

  /** `re.finditer(r"\n{2,}", s)` from position `i`. */
  function Breaks(s: string, i: nat): (breaks: seq<Range>)
    requires i <= |s|
    ensures Sound(s, i, breaks)
    decreases |s| - i
  {
    if i == |s| then []
    else
      var e := NewlineRun(s, i);
      if e - i >= 2 then [Range(i, e)] + Breaks(s, e) else Breaks(s, i + 1)
  }

  /** Ordered ranges, each beginning with two newlines. */
  ghost predicate Sound(s: string, i: nat, breaks: seq<Range>)
    decreases |breaks|
  {
    breaks == [] ||
    (var b := breaks[0];
     && i <= b.start && b.start + 2 <= b.end <= |s| && s[b.start] == '\n' && s[b.start + 1] == '\n'
     && Sound(s, b.end, breaks[1..]))
  }

  /** What is left between the breaks, `cursor` being the end of the last one. */
  function Pieces(base: nat, n: nat, etype: string, cursor: nat, breaks: seq<Range>): seq<Item>
    decreases |breaks|
  {
    if breaks == [] then
      if cursor < n then [Item(base + cursor, base + n, etype)] else []
    else
      (if breaks[0].start > cursor then [Item(base + cursor, base + breaks[0].start, etype)] else [])
      + Pieces(base, n, etype, breaks[0].end, breaks[1..])
  }

  function SplitOne(text: string, x: Item): seq<Item>
    requires Proper(text, x)
  {
    Pieces(x.start, x.end - x.start, x.etype, 0, Breaks(text[x.start..x.end], 0))
  }

  function SplitAll(text: string, items: seq<Item>): seq<Item>
    requires Within(text, items)
  {
    if items == [] then []
    else SplitAll(text, items[..|items| - 1]) + SplitOne(text, items[|items| - 1])
  }

  lemma {:induction false} NoBreaks(s: string, i: nat)
    requires i <= |s| && !HasBreak(s)
    ensures Breaks(s, i) == []
    decreases |s| - i
  {
    if i < |s| {
      var e := NewlineRun(s, i);
      assert i + 1 < |s| ==> !BreakAt(s, i + 1);
      NoBreaks(s, i + 1);
    }
  }

  lemma SplitWhole(text: string, x: Item)
    requires Proper(text, x) && !HasBreak(text[x.start..x.end])
    ensures SplitOne(text, x) == [x]
  {
    NoBreaks(text[x.start..x.end], 0);
  }

  method SplitSpans(text: string, merged: seq<Item>) returns (split: seq<Item>)
    requires Within(text, merged)
    ensures split == SplitAll(text, merged)
  {
    split := [];
    for i := 0 to |merged|
      invariant split == SplitAll(text, merged[..i])
    {
      var Item(start, end, etype) := merged[i];
      var sub := text[start..end];
      assert merged[..i + 1][..i] == merged[..i];
      if !HasBreak(sub) {
        SplitWhole(text, merged[i]);
        split := split + [Item(start, end, etype)];
        continue;
      }
      split := SplitAtBreaks(split, start, sub, etype);
    }
    assert merged[..|merged|] == merged;
  }

  /** The inner loop: the pieces of one span appended to what is there. */
  method SplitAtBreaks(before: seq<Item>, start: nat, sub: string, etype: string) returns (split: seq<Item>)
    ensures split == before + Pieces(start, |sub|, etype, 0, Breaks(sub, 0))
  {
    split := before;
    var cursor: nat := 0;
    var breaks := Breaks(sub, 0);
    for k := 0 to |breaks|
      invariant split + Pieces(start, |sub|, etype, cursor, breaks[k..])
                == before + Pieces(start, |sub|, etype, 0, breaks)
    {
      var m := breaks[k];
      assert breaks[k..][1..] == breaks[k + 1..] && breaks[k..][0] == m;
      if m.start > cursor {
        split := split + [Item(start + cursor, start + m.start, etype)];
      }
      cursor := m.end;
    }
    if cursor < |sub| {
      split := split + [Item(start + cursor, start + |sub|, etype)];
    }
  }

  /** Inside a run of two or more newlines of this string. */
  predicate InBreak(s: string, q: nat)
    requires q < |s|
  {
    s[q] == '\n' && ((q > 0 && s[q - 1] == '\n') || (q + 1 < |s| && s[q + 1] == '\n'))
  }

  ghost predicate InRange(breaks: seq<Range>, q: int) {
    exists k :: 0 <= k < |breaks| && breaks[k].start <= q < breaks[k].end
  }

  lemma InRangeHead(b: Range, rest: seq<Range>, q: int)
    ensures InRange([b] + rest, q) <==> b.start <= q < b.end || InRange(rest, q)
  {
    var all := [b] + rest;
    if b.start <= q < b.end { assert all[0].start <= q < all[0].end; }
    if InRange(rest, q) {
      var k :| 0 <= k < |rest| && rest[k].start <= q < rest[k].end;
      assert all[k + 1].start <= q < all[k + 1].end;
    }
  }

  lemma {:induction false} SoundStartsAfter(s: string, i: nat, breaks: seq<Range>, q: int)
    requires Sound(s, i, breaks) && q < i
    ensures !InRange(breaks, q)
    decreases |breaks|
  {
    if breaks == [] {
    } else {
      SoundStartsAfter(s, breaks[0].end, breaks[1..], q);
      InRangeHead(breaks[0], breaks[1..], q);
      assert breaks == [breaks[0]] + breaks[1..];
    }
  }

  /** The scan finds exactly the positions in breaks. */
  lemma {:induction false} BreaksExact(s: string, i: nat, q: nat)
    requires i <= q < |s| && (i > 0 ==> !(s[i - 1] == '\n' && s[i] == '\n'))
    ensures InRange(Breaks(s, i), q) <==> InBreak(s, q)
    decreases |s| - i
  {
    var e := NewlineRun(s, i);
    if e - i >= 2 {
      InRangeHead(Range(i, e), Breaks(s, e), q);
      if q < e {
        assert s[q] == '\n' && (q > i ==> s[q - 1] == '\n') && s[i + 1] == '\n';
      } else {
        BreaksExact(s, e, q);
      }
    } else if q == i {
      SoundStartsAfter(s, i + 1, Breaks(s, i + 1), q);
    } else {
      BreaksExact(s, i + 1, q);
    }
  }

  /** The pieces cover what the breaks leave. */
  lemma {:induction false} PiecesCover(s: string, base: nat, etype: string, cursor: nat, breaks: seq<Range>,
                                       kind: string, p: nat)
    requires cursor <= |s| && Sound(s, cursor, breaks)
    ensures Covered(Pieces(base, |s|, etype, cursor, breaks), kind, p)
            <==> etype == kind && base + cursor <= p < base + |s| && !InRange(breaks, p - base)
    decreases |breaks|
  {
    if breaks == [] {
      CoveredOne(Item(base + cursor, base + |s|, etype), kind, p);
    } else {
      var b := breaks[0];
      var one := Item(base + cursor, base + b.start, etype);
      PiecesCover(s, base, etype, b.end, breaks[1..], kind, p);
      CoveredPlus(if b.start > cursor then [one] else [], Pieces(base, |s|, etype, b.end, breaks[1..]), kind, p);
      CoveredOne(one, kind, p);
      if base <= p {
        assert breaks == [b] + breaks[1..];
        InRangeHead(b, breaks[1..], p - base);
        if p - base < b.end { SoundStartsAfter(s, b.end, breaks[1..], p - base); }
      }
    }
  }

  ghost predicate Kept(text: string, x: Item, kind: string, p: nat)
    requires Proper(text, x)
  {
    Holds(x, kind, p) && !InBreak(text[x.start..x.end], p - x.start)
  }

  lemma SplitOneCoverage(text: string, x: Item, kind: string, p: nat)
    requires Proper(text, x)
    ensures Covered(SplitOne(text, x), kind, p) <==> Kept(text, x, kind, p)
  {
    var s := text[x.start..x.end];
    PiecesCover(s, x.start, x.etype, 0, Breaks(s, 0), kind, p);
    if Holds(x, kind, p) { BreaksExact(s, 0, p - x.start); }
  }

  ghost predicate KeptIn(text: string, items: seq<Item>, kind: string, p: nat)
    requires Within(text, items)
  {
    exists k :: 0 <= k < |items| && Kept(text, items[k], kind, p)
  }

  lemma KeptSnoc(text: string, items: seq<Item>, kind: string, p: nat)
    requires Within(text, items) && items != []
    ensures var n := |items| - 1;
            KeptIn(text, items, kind, p) <==> KeptIn(text, items[..n], kind, p) || Kept(text, items[n], kind, p)
  {}

  /** Splitting removes exactly the positions in newline runs of two or more
      inside a span. */
  lemma {:induction false} SplitCoverage(text: string, items: seq<Item>, kind: string, p: nat)
    requires Within(text, items)
    ensures Covered(SplitAll(text, items), kind, p) <==> KeptIn(text, items, kind, p)
  {
    if items == [] {
    } else {
      var n := |items| - 1;
      SplitCoverage(text, items[..n], kind, p);
      SplitOneCoverage(text, items[n], kind, p);
      CoveredPlus(SplitAll(text, items[..n]), SplitOne(text, items[n]), kind, p);
      KeptSnoc(text, items, kind, p);
    }
  }

  // ---- Merge, then split ----

  /** A paragraph break somewhere between the two positions. */
  ghost predicate Wall(text: string, from: nat, to: nat)
    requires to <= |text|
  {
    exists i :: from < i < to && BreakAt(text, i)
  }

  lemma WallBlocks(text: string, a: Item, b: Item)
    requires b.start <= |text| && Wall(text, a.end, b.start)
    ensures !Joins(text, a, b)
  {
    var i :| a.end < i < b.start && BreakAt(text, i);
    assert BreakAt(text[a.end..b.start], i - a.end);
  }

  /** The pieces of what lies between two positions: all of one type, in order,
      with a break wherever something is missing. */
  ghost predicate Cut(text: string, from: nat, to: nat, etype: string, ps: seq<Item>)
    requires to <= |text|
  {
    && Within(text, ps) && NonOverlapping(ps) && Unjoinable(text, ps)
    && (forall k :: 0 <= k < |ps| ==> from <= ps[k].start && ps[k].end <= to && ps[k].etype == etype)
    && if ps == [] then from == to || Wall(text, from, to)
       else && (ps[0].start == from || Wall(text, from, ps[0].start))
            && (ps[|ps| - 1].end == to || Wall(text, ps[|ps| - 1].end, to))
  }

  /** The same, after a break. */
  ghost predicate CutAfterBreak(text: string, from: nat, to: nat, etype: string, ps: seq<Item>)
    requires to <= |text|
  {
    && Cut(text, from, to, etype, ps)
    && if ps == [] then Wall(text, from, to) else Wall(text, from, ps[0].start)
  }

  lemma CutOne(text: string, x: Item)
    requires Proper(text, x)
    ensures Cut(text, x.start, x.end, x.etype, [x])
  {}

  lemma CutMore(text: string, from: nat, mid: nat, to: nat, etype: string, ps: seq<Item>)
    requires to <= |text| && mid <= to && Cut(text, mid, to, etype, ps) && Wall(text, from, mid)
    ensures CutAfterBreak(text, from, to, etype, ps)
  {}

  lemma CutCons(text: string, x: Item, to: nat, ps: seq<Item>)
    requires to <= |text| && Proper(text, x) && CutAfterBreak(text, x.end, to, x.etype, ps)
    ensures Cut(text, x.start, to, x.etype, [x] + ps)
  {
    if ps == [] {
      CutOne(text, x);
      assert [x] + ps == [x];
    } else {
      UnjoinableCons(text, x, ps);
    }
  }

  lemma UnjoinableCons(text: string, x: Item, ps: seq<Item>)
    requires Proper(text, x) && Within(text, ps) && Unjoinable(text, ps) && ps != [] && Wall(text, x.end, ps[0].start)
    ensures Unjoinable(text, [x] + ps)
  {
    var all := [x] + ps;
    forall k | 0 < k < |all|
      ensures !Joinable(text, all, k)
    {
      if k > 1 { assert !Joinable(text, ps, k - 1); } else { WallBlocks(text, x, ps[0]); }
    }
  }

  /** The next break, the piece before it if there is one, and the rest. */
  lemma CutNext(text: string, from: nat, b: Range, to: nat, etype: string, rest: seq<Item>, ps: seq<Item>)
    requires from <= b.start && b.start + 2 <= b.end <= to <= |text|
    requires text[b.start] == '\n' && text[b.start + 1] == '\n' && Cut(text, b.end, to, etype, rest)
    requires ps == if b.start > from then [Item(from, b.start, etype)] + rest else rest
    ensures Cut(text, from, to, etype, ps)
  {
    assert BreakAt(text, b.start + 1);
    CutMore(text, b.start, b.end, to, etype, rest);
    if b.start > from { CutCons(text, Item(from, b.start, etype), to, rest); }
  }

  /** The range moved to its place in the text. */
  function Shift(base: nat, b: Range): Range { Range(base + b.start, base + b.end) }

  lemma PiecesUnfold(base: nat, n: nat, etype: string, cursor: nat, breaks: seq<Range>, from: nat, to: nat)
    requires from == base + cursor && to == base + n
    ensures Pieces(base, n, etype, cursor, breaks)
            == if breaks == [] then if from < to then [Item(from, to, etype)] else []
               else
                 var c, rest := Shift(base, breaks[0]), Pieces(base, n, etype, breaks[0].end, breaks[1..]);
                 if c.start > from then [Item(from, c.start, etype)] + rest else rest
  {}

  lemma BreakThere(text: string, x: Item, s: string, b: Range)
    requires Proper(text, x) && s == text[x.start..x.end] && b.start + 1 < |s|
    ensures var c := Shift(x.start, b); text[c.start] == s[b.start] && text[c.start + 1] == s[b.start + 1]
  {}

  lemma {:induction false} PiecesCut(text: string, x: Item, s: string, cursor: nat, breaks: seq<Range>, ps: seq<Item>,
                                     from: nat)
    requires Proper(text, x) && s == text[x.start..x.end] && cursor <= |s| && Sound(s, cursor, breaks)
    requires ps == Pieces(x.start, |s|, x.etype, cursor, breaks) && from == x.start + cursor
    ensures Cut(text, from, x.end, x.etype, ps)
    decreases |breaks|
  {
    PiecesUnfold(x.start, |s|, x.etype, cursor, breaks, from, x.end);
    if breaks == [] {
      CutLast(text, from, x.end, x.etype, ps);
    } else {
      var b, c := breaks[0], Shift(x.start, breaks[0]);
      var rest := Pieces(x.start, |s|, x.etype, b.end, breaks[1..]);
      PiecesCut(text, x, s, b.end, breaks[1..], rest, c.end);
      BreakThere(text, x, s, b);
      CutNext(text, from, c, x.end, x.etype, rest, ps);
    }
  }

  lemma CutLast(text: string, from: nat, to: nat, etype: string, ps: seq<Item>)
    requires from <= to <= |text|
    requires ps == if from < to then [Item(from, to, etype)] else []
    ensures Cut(text, from, to, etype, ps)
  {}

  lemma SplitOneCut(text: string, x: Item)
    requires Proper(text, x)
    ensures Cut(text, x.start, x.end, x.etype, SplitOne(text, x))
  {
    var s := text[x.start..x.end];
    PiecesCut(text, x, s, 0, Breaks(s, 0), SplitOne(text, x), x.start);
  }

  lemma {:induction false} SplitWithin(text: string, items: seq<Item>)
    requires Within(text, items)
    ensures Within(text, SplitAll(text, items))
  {
    if items == [] {
    } else {
      SplitWithin(text, items[..|items| - 1]);
      SplitOneCut(text, items[|items| - 1]);
    }
  }

  /** The last piece reaches the end of the last span, or a break follows it. */
  ghost predicate Reaches(text: string, out: seq<Item>, end: nat, etype: string)
    requires end <= |text|
  {
    out == [] ||
    (var o := out[|out| - 1];
     o.end <= end && ((o.end == end && o.etype == etype) || Wall(text, o.end, end)))
  }

  ghost predicate Tidy(text: string, out: seq<Item>) {
    Within(text, out) && NonOverlapping(out) && Unjoinable(text, out)
  }

  lemma ReachesNext(text: string, out: seq<Item>, prev: Item, x: Item, ps: seq<Item>)
    requires prev.end <= x.start && Proper(text, x) && !Joins(text, prev, x)
    requires Reaches(text, out, prev.end, prev.etype) && out != []
    requires Cut(text, x.start, x.end, x.etype, ps)
    ensures ps == [] ==> Wall(text, out[|out| - 1].end, x.end)
    ensures ps != [] ==> !Joins(text, out[|out| - 1], ps[0])
  {
    var o := out[|out| - 1];
    var next := if ps == [] then x.end else ps[0].start;
    if Wall(text, o.end, prev.end) {
      var i :| o.end < i < prev.end && BreakAt(text, i);
    } else if Wall(text, x.start, next) {
      var i :| x.start < i < next && BreakAt(text, i);
    }
    if ps != [] && Wall(text, o.end, next) { WallBlocks(text, o, ps[0]); }
  }

  lemma TidyAppend(text: string, out: seq<Item>, ps: seq<Item>)
    requires Tidy(text, out) && Tidy(text, ps)
    requires out != [] && ps != [] ==> out[|out| - 1].end <= ps[0].start && !Joins(text, out[|out| - 1], ps[0])
    ensures Tidy(text, out + ps)
  {
    var all := out + ps;
    forall k | 0 < k < |all|
      ensures !Joinable(text, all, k)
    {
      if k < |out| { assert !Joinable(text, out, k); }
      if k > |out| { assert !Joinable(text, ps, k - |out|); }
    }
    forall j, k | 0 <= j < k < |all|
      ensures all[j].end <= all[k].start
    {
      if j < |out| <= k { Before(text, out, ps, j, k - |out|); }
    }
  }

  lemma Before(text: string, out: seq<Item>, ps: seq<Item>, j: nat, k: nat)
    requires Tidy(text, out) && Tidy(text, ps) && j < |out| && k < |ps| && out[|out| - 1].end <= ps[0].start
    ensures out[j].end <= ps[k].start
  {}

  /** Splitting tidy spans leaves tidy pieces: even when a span vanishes or is
      cut at its edge, no two neighbours have become mergeable. */
  lemma {:induction false} SplitIsTidy(text: string, items: seq<Item>)
    requires Tidy(text, items)
    ensures Tidy(text, SplitAll(text, items))
    ensures items != [] ==> Reaches(text, SplitAll(text, items), items[|items| - 1].end, items[|items| - 1].etype)
  {
    if items == [] {
    } else {
      var n := |items| - 1;
      var x, out := items[n], SplitAll(text, items[..n]);
      var ps := SplitOne(text, x);
      UnjoinableFront(text, items, n);
      SplitIsTidy(text, items[..n]);
      SplitOneCut(text, x);
      if out == [] {
        assert out + ps == ps;
      } else {
        assert n > 0 && !Joinable(text, items, n) && items[n - 1].end <= x.start;
        ReachesNext(text, out, items[n - 1], x, ps);
        TidyAppend(text, out, ps);
        if ps == [] { assert out + ps == out; }
      }
    }
  }

  lemma KeptPair(text: string, x: Item, kind: string, p: nat)
    requires Proper(text, x) && p > 0 && Kept(text, x, kind, p - 1) && Kept(text, x, kind, p)
    ensures !BreakAt(text, p)
  {}

  lemma PieceHasNoBreak(text: string, x: Item, k: nat)
    requires Proper(text, x) && k < |SplitOne(text, x)| && Within(text, SplitOne(text, x))
    ensures var q := SplitOne(text, x)[k]; !HasBreak(text[q.start..q.end])
  {
    var q := SplitOne(text, x)[k];
    var part, kind := text[q.start..q.end], q.etype;
    forall i | 0 < i < |part|
      ensures !BreakAt(part, i)
    {
      assert Holds(q, kind, q.start + i - 1) && Holds(q, kind, q.start + i);
      SplitOneCoverage(text, x, kind, q.start + i - 1);
      SplitOneCoverage(text, x, kind, q.start + i);
      KeptPair(text, x, kind, q.start + i);
    }
  }

  /** No piece contains a paragraph break. */
  lemma {:induction false} SplitHasNoBreak(text: string, items: seq<Item>, k: nat)
    requires Within(text, items) && k < |SplitAll(text, items)| && Within(text, SplitAll(text, items))
    ensures var q := SplitAll(text, items)[k]; !HasBreak(text[q.start..q.end])
  {
    var n := |items| - 1;
    var front := SplitAll(text, items[..n]);
    SplitWithin(text, items[..n]);
    SplitOneCut(text, items[n]);
    if k < |front| {
      SplitHasNoBreak(text, items[..n], k);
    } else {
      PieceHasNoBreak(text, items[n], k - |front|);
    }
  }

  lemma {:induction false} SplitIsIdentity(text: string, items: seq<Item>)
    requires Within(text, items)
    requires forall k :: 0 <= k < |items| ==> !HasBreak(text[items[k].start..items[k].end])
    ensures SplitAll(text, items) == items
  {
    if items == [] {
    } else {
      var n := |items| - 1;
      SplitIsIdentity(text, items[..n]);
      SplitWhole(text, items[n]);
      assert items == items[..n] + [items[n]];
    }
  }

  lemma SortWithin(text: string, items: seq<Item>)
    requires Within(text, items)
    ensures Within(text, Sort(ItemLe, items))
  {
    var sorted := Sort(ItemLe, items);
    forall k | 0 <= k < |sorted|
      ensures Proper(text, sorted[k])
    {
      assert sorted[k] in items;
    }
  }

  /** Sort, merge, split. */
  function MergeSplit(text: string, items: seq<Item>): (out: seq<Item>)
    requires Within(text, items)
    ensures Within(text, out)
  {
    SortWithin(text, items);
    var merged := Merge(text, Sort(ItemLe, items));
    SplitWithin(text, merged);
    SplitAll(text, merged)
  }

  lemma TidyIsSorted(text: string, items: seq<Item>)
    requires Tidy(text, items)
    ensures Sort(ItemLe, items) == items
  {
    SortIsIdentity(ItemLe, items);
  }

  /** On spans that do not overlap, one round settles everything: the pieces are
      ordered, disjoint, unmergeable, free of breaks, and another round leaves
      them as they are. */
  lemma MergeSplitSettles(text: string, items: seq<Item>)
    requires Within(text, items) && NonOverlapping(Sort(ItemLe, items))
    ensures var out := MergeSplit(text, items);
            && Tidy(text, out)
            && (forall k :: 0 <= k < |out| ==> !HasBreak(text[out[k].start..out[k].end]))
            && MergeSplit(text, out) == out
  {
    SortWithin(text, items);
    var sorted := Sort(ItemLe, items);
    var merged := Merge(text, sorted);
    MergeLeavesNone(text, sorted);
    MergeNonOverlapping(text, sorted);
    SplitIsTidy(text, merged);
    var out := SplitAll(text, merged);
    forall k | 0 <= k < |out|
      ensures !HasBreak(text[out[k].start..out[k].end])
    {
      SplitHasNoBreak(text, merged, k);
    }
    TidyIsSorted(text, out);
    MergeIsIdentity(text, out);
    SplitIsIdentity(text, out);
  }
}
