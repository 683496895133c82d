/** The last of the four passes that turn raw model spans into matches, and what
    the four do together: what is matched, and what is not. */
module SpanMatches {
  import opened Matches
  import opened Sorting
  import opened SpanMerge
  import opened Texts

  // ---- Emit ----

  function Emit(text: string, items: seq<Item>): seq<Match>
    requires Within(text, items)
  {
    if items == [] then []
    else
      var before, x := Emit(text, items[..|items| - 1]), items[|items| - 1];
      var value := Strip(text[x.start..x.end]);
      if value == "" || !Occurs(value, text) then before else before + [MakeMatch(value, x.etype)]
  }

  method EmitMatches(text: string, split: seq<Item>) returns (out: seq<Match>)
    requires Within(text, split)
    ensures out == Emit(text, split)
  {
    out := [];
    for i := 0 to |split|
      invariant out == Emit(text, split[..i])
    {
      var Item(start, end, etype) := split[i];
      assert split[..i + 1][..i] == split[..i];
      var value := Strip(text[start..end]);
      if value == "" || !Occurs(value, text) { continue; }
      out := out + [MakeMatch(value, etype)];
    }
    assert split[..|split|] == split;
  }

  /** What `_to_matches` returns. */
  function Matched(spans: seq<RawSpan>, text: string): seq<Match> {
    ExtractWithin(spans, text);
    Emit(text, MergeSplit(text, ExtractAll(spans, text)))
  }

  /** `_to_matches` */
  method ToMatches(spans: seq<RawSpan>, text: string) returns (out: seq<Match>)
    ensures out == Matched(spans, text)
  {
    ExtractWithin(spans, text);
    var extracted := Extract(spans, text);
    SortWithin(text, extracted);
    extracted := Sort(ItemLe, extracted);
    var merged := MergeSpans(text, extracted);
    SplitWithin(text, merged);
    var split := SplitSpans(text, merged);
    out := EmitMatches(text, split);
  }

  /** The guard against drifted offsets never fires: what was cut from the text
      is in the text. */
  lemma SliceOccurs(text: string, start: nat, end: nat)
    requires start <= end <= |text|
    ensures Occurs(Strip(text[start..end]), text)
  {
    var part := text[start..end];
    var a, b := StripIs(part);
    PartOccurs(text, start, part, a, b);
  }

  lemma PartOccurs(text: string, start: nat, part: string, a: nat, b: nat)
    requires start + |part| <= |text| && part == text[start..start + |part|] && a <= b <= |part|
    ensures Occurs(part[a..b], text)
  {
    OccursAt(part[a..b], text, start + a);
  }

  lemma OccursAt(s: string, text: string, i: nat)
    requires i + |s| <= |text| && forall j :: 0 <= j < |s| ==> s[j] == text[i + j]
    ensures Occurs(s, text)
  {
    assert s <= text[i..];
  }

  lemma PartHasNoBreak(s: string, a: nat, b: nat)
    requires a <= b <= |s| && !HasBreak(s)
    ensures !HasBreak(s[a..b])
  {
    forall i | 0 < i < b - a
      ensures !BreakAt(s[a..b], i)
    {
      assert !BreakAt(s, a + i);
    }
  }

  lemma MatchHasNoBreak(s: string, etype: string)
    requires !HasBreak(s)
    ensures !HasBreak(MakeMatch(Strip(s), etype).text)
  {
    var a, b := StripIs(s);
    PartHasNoBreak(s, a, b);
    var t := MakeMatch(Strip(s), etype).text;
    assert t == Strip(s)[0..|t|];
    PartHasNoBreak(Strip(s), 0, |t|);
  }

  lemma {:induction false} EmitHasNoBreak(text: string, items: seq<Item>, k: nat)
    requires Within(text, items) && k < |Emit(text, items)|
    requires forall j :: 0 <= j < |items| ==> !HasBreak(text[items[j].start..items[j].end])
    ensures !HasBreak(Emit(text, items)[k].text)
  {
    var n := |items| - 1;
    var x := items[n];
    if k < |Emit(text, items[..n])| {
      EmitHasNoBreak(text, items[..n], k);
    } else {
      MatchHasNoBreak(text[x.start..x.end], x.etype);
    }
  }

  /** Whatever spans the service sends, overlapping or not, no match reaches
      across a paragraph break. */
  lemma MatchesStayInParagraph(text: string, spans: seq<RawSpan>, k: nat)
    requires k < |Matched(spans, text)|
    ensures !HasBreak(Matched(spans, text)[k].text)
  {
    ExtractWithin(spans, text);
    var sorted := Sort(ItemLe, ExtractAll(spans, text));
    SortWithin(text, ExtractAll(spans, text));
    var out := MergeSplit(text, ExtractAll(spans, text));
    forall j | 0 <= j < |out|
      ensures !HasBreak(text[out[j].start..out[j].end])
    {
      SplitHasNoBreak(text, Merge(text, sorted), j);
    }
    EmitHasNoBreak(text, out, k);
  }

  // ---- What is emitted ----

  lemma {:induction false} EmitSplit(text: string, a: seq<Item>, b: seq<Item>)
    requires Within(text, a) && Within(text, b)
    ensures Within(text, a + b) && Emit(text, a + b) == Emit(text, a) + Emit(text, b)
  {
    if b == [] {
      assert a + b == a;
    } else {
      assert (a + b)[..|a + b| - 1] == a + b[..|b| - 1];
      EmitSplit(text, a, b[..|b| - 1]);
    }
  }

  ghost predicate Visible(text: string, x: Item)
    requires Proper(text, x)
  {
    exists p :: x.start <= p < x.end && !IsSpace(text[p])
  }

  lemma VisibleIff(text: string, x: Item)
    requires Proper(text, x)
    ensures Visible(text, x) <==> Strip(text[x.start..x.end]) != ""
  {
    var part := text[x.start..x.end];
    var a, b := StripIs(part);
    if Visible(text, x) {
      var p :| x.start <= p < x.end && !IsSpace(text[p]);
      assert part[p - x.start] == text[p];
    }
    if a < b { assert part[a] == text[x.start + a]; }
  }

  /** A match for the part of a visible piece that is left when its blanks are
      stripped. */
  ghost function EmitOne(text: string, x: Item): seq<Match>
    requires Proper(text, x)
  {
    if Visible(text, x) then [MakeMatch(Strip(text[x.start..x.end]), x.etype)] else []
  }

  /** A piece with a visible character is emitted, stripped, under its label; one
      without is not.  Pieces are emitted in order. */
  lemma EmitAround(text: string, before: seq<Item>, x: Item, after: seq<Item>)
    requires Within(text, before) && Proper(text, x) && Within(text, after)
    ensures Within(text, before + [x] + after)
    ensures Emit(text, before + [x] + after)
         == Emit(text, before)
          + EmitOne(text, x)
          + Emit(text, after)
  {
    EmitSplit(text, before + [x], after);
    EmitSplit(text, before, [x]);
    VisibleIff(text, x);
    SliceOccurs(text, x.start, x.end);
  }

  ghost predicate MatchOf(text: string, x: Item, m: Match) {
    Proper(text, x) && EmitOne(text, x) == [m]
  }

  ghost predicate SomeMatchOf(text: string, items: seq<Item>, m: Match) {
    exists x :: x in items && MatchOf(text, x, m)
  }

  lemma EmitLast(text: string, items: seq<Item>)
    requires Within(text, items) && items != []
    ensures Emit(text, items) == Emit(text, items[..|items| - 1]) + EmitOne(text, items[|items| - 1])
  {
    VisibleIff(text, items[|items| - 1]);
    SliceOccurs(text, items[|items| - 1].start, items[|items| - 1].end);
  }

  lemma SomeMatchSnoc(text: string, items: seq<Item>, m: Match)
    requires items != []
    ensures var n := |items| - 1;
            SomeMatchOf(text, items, m) <==> SomeMatchOf(text, items[..n], m) || MatchOf(text, items[n], m)
  {
    var n := |items| - 1;
    assert forall x :: x in items <==> x in items[..n] || x == items[n];
  }

  lemma {:induction false} EmittedIff(text: string, items: seq<Item>, m: Match)
    requires Within(text, items)
    ensures m in Emit(text, items) <==> SomeMatchOf(text, items, m)
  {
    if items == [] {
    } else {
      var n := |items| - 1;
      EmittedIff(text, items[..n], m);
      EmitLast(text, items);
      SomeMatchSnoc(text, items, m);
    }
  }

  // ---- From the service's spans to the matches ----

  /** Items are taken in the order of their starts, and of their ends where they
      start together. */
  lemma SortedByStart(items: seq<Item>, i: nat, j: nat)
    requires i < j < |items|
    ensures var (x, y) := (Sort(ItemLe, items)[i], Sort(ItemLe, items)[j]);
            x.start < y.start || (x.start == y.start && x.end <= y.end)
  {
    SortOrdered(ItemLe, items);
  }

  lemma SortCovers(items: seq<Item>, kind: string, p: nat)
    ensures Covered(Sort(ItemLe, items), kind, p) <==> Covered(items, kind, p)
  {
    var sorted := Sort(ItemLe, items);
    if Covered(items, kind, p) {
      var k :| 0 <= k < |items| && Holds(items[k], kind, p);
      assert items[k] in sorted;
    }
    if Covered(sorted, kind, p) {
      var k :| 0 <= k < |sorted| && Holds(sorted[k], kind, p);
      assert sorted[k] in items;
    }
  }

  lemma SplitKeepsVisible(text: string, merged: seq<Item>, kind: string, p: nat)
    requires Within(text, merged) && p < |text| && !IsSpace(text[p])
    ensures Covered(merged, kind, p) ==> Covered(SplitAll(text, merged), kind, p)
  {
    SplitCoverage(text, merged, kind, p);
    if Covered(merged, kind, p) {
      var k :| 0 <= k < |merged| && Holds(merged[k], kind, p);
      assert Kept(text, merged[k], kind, p);
    }
  }

  lemma SplitAddsNothing(text: string, merged: seq<Item>, kind: string, p: nat)
    requires Within(text, merged)
    ensures Covered(SplitAll(text, merged), kind, p) ==> Covered(merged, kind, p)
  {
    SplitCoverage(text, merged, kind, p);
    if KeptIn(text, merged, kind, p) {
      var k :| 0 <= k < |merged| && Kept(text, merged[k], kind, p);
      assert Holds(merged[k], kind, p);
    }
  }

  /** Sorting, merging and splitting keep every visible position under its label,
      and add none but in the gaps they close. */
  lemma MergeSplitCovers(text: string, items: seq<Item>, kind: string, p: nat)
    requires Within(text, items) && p < |text|
    ensures Covered(items, kind, p) && !IsSpace(text[p]) ==> Covered(MergeSplit(text, items), kind, p)
    ensures Within(text, Sort(ItemLe, items))
    ensures Covered(MergeSplit(text, items), kind, p) ==>
              Covered(items, kind, p) || InJoinedGap(text, Sort(ItemLe, items), kind, p)
  {
    SortWithin(text, items);
    SortCovers(items, kind, p);
    MergeCoverage(text, Sort(ItemLe, items), kind, p);
    SplitAddsNothing(text, Merge(text, Sort(ItemLe, items)), kind, p);
    if !IsSpace(text[p]) { SplitKeepsVisible(text, Merge(text, Sort(ItemLe, items)), kind, p); }
  }

  /** One of the matches is for a stretch of the text around `p`. */
  ghost predicate MatchedAround(matches: seq<Match>, text: string, kind: string, p: nat) {
    exists a, b :: 0 <= a <= p < b <= |text| && MakeMatch(text[a..b], kind) in matches
  }

  lemma StrippedHolds(text: string, x: Item, p: nat) returns (a: nat, b: nat)
    requires Proper(text, x) && x.start <= p < x.end && !IsSpace(text[p])
    ensures x.start <= a <= p < b <= x.end && Strip(text[x.start..x.end]) == text[a..b]
  {
    var part := text[x.start..x.end];
    var i, j := StripIs(part);
    assert part[p - x.start] == text[p];
    a, b := x.start + i, x.start + j;
    assert forall n :: 0 <= n < j - i ==> part[i..j][n] == part[i + n] == text[a + n];
  }

  /** No visible character that the service marked is lost: it is part of a match
      with the label's type. */
  lemma MarkedIsMatched(spans: seq<RawSpan>, text: string, i: nat, start: nat, end: nat, p: nat)
    requires i < |spans| && spans[i].name != "" && Offsets(spans[i], |text|, start, end)
    requires start <= p < end && !IsSpace(text[p])
    ensures MatchedAround(Matched(spans, text), text, EntityType(spans[i].name), p)
  {
    var items, kind := ExtractAll(spans, text), EntityType(spans[i].name);
    var x := Item(start, end, kind);
    ExtractWithin(spans, text);
    assert Yields(spans[i], text, x);
    ExtractedIff(spans, text, x);
    var n :| 0 <= n < |items| && items[n] == x;
    assert Holds(items[n], kind, p);
    MergeSplitCovers(text, items, kind, p);
    PieceIsMatched(text, MergeSplit(text, items), kind, p);
  }

  lemma PieceIsMatched(text: string, pieces: seq<Item>, kind: string, p: nat)
    requires Within(text, pieces) && p < |text| && !IsSpace(text[p]) && Covered(pieces, kind, p)
    ensures MatchedAround(Emit(text, pieces), text, kind, p)
  {
    var k :| 0 <= k < |pieces| && Holds(pieces[k], kind, p);
    var q := pieces[k];
    var a, b := StrippedHolds(text, q, p);
    assert MatchOf(text, q, MakeMatch(text[a..b], kind));
    EmittedIff(text, pieces, MakeMatch(text[a..b], kind));
  }

  /** Every position of the stretch was marked with this label, or lies in a gap
      that was closed. */
  ghost predicate Marked(spans: seq<RawSpan>, text: string, kind: string, a: nat, b: nat)
    requires Within(text, Sort(ItemLe, ExtractAll(spans, text)))
  {
    forall p :: a <= p < b ==>
      || Covered(ExtractAll(spans, text), kind, p)
      || InJoinedGap(text, Sort(ItemLe, ExtractAll(spans, text)), kind, p)
  }

  /** And nothing else is matched. */
  lemma MatchedIsMarked(spans: seq<RawSpan>, text: string, m: Match) returns (kind: string, a: nat, b: nat)
    requires m in Matched(spans, text)
    ensures a < b <= |text| && m == MakeMatch(text[a..b], kind)
    ensures Within(text, Sort(ItemLe, ExtractAll(spans, text))) && Marked(spans, text, kind, a, b)
  {
    var items := ExtractAll(spans, text);
    ExtractWithin(spans, text);
    SortWithin(text, items);
    var pieces := MergeSplit(text, items);
    EmittedIff(text, pieces, m);
    var q :| q in pieces && MatchOf(text, q, m);
    var k :| 0 <= k < |pieces| && pieces[k] == q;
    kind := q.etype;
    var v :| q.start <= v < q.end && !IsSpace(text[v]);
    a, b := StrippedHolds(text, q, v);
    forall p | a <= p < b
      ensures Covered(items, kind, p) || InJoinedGap(text, Sort(ItemLe, items), kind, p)
    {
      assert Holds(pieces[k], kind, p);
      MergeSplitCovers(text, items, kind, p);
    }
  }
}
