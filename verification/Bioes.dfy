/** Grouping BIOES tags into entity spans, with the repairs the decoder makes
    when the tag sequence is ill-formed. */
module Bioes {
  import opened Texts
  import opened Wrappers

  /** One token: its tag and its character offsets. */
  datatype Token = Token(tag: string, start: nat, end: nat)

  /** A run of tokens, first to last, with its label. */
  datatype Segment = Segment(entity: string, first: nat, last: nat)

  datatype Tag = Outside | Inside(boundary: string, base: string)

  function Dash(s: string): (n: nat)
    ensures n <= |s| && (n < |s| ==> s[n] == '-')
    ensures forall i :: 0 <= i < n ==> s[i] != '-'
  {
    if s == "" || s[0] == '-' then 0 else 1 + Dash(s[1..])
  }

  /** `tag_str.split("-", 1)`; no dash, no entity. */
  function ParseTag(tag: string): Tag {
    var n := Dash(tag);
    if n == |tag| then Outside else Inside(tag[..n], tag[n + 1..])
  }

  /** A special token has no characters. */
  predicate Special(t: Token) {
    t.start == t.end == 0
  }

  /** Special tokens are skipped, except for the first token. */
  predicate Skipped(tokens: seq<Token>, i: nat)
    requires i < |tokens|
  {
    Special(tokens[i]) && i > 0
  }

  /** What has been emitted, and the span still open. */
  datatype Walk = Walk(done: seq<Segment>, open: Option<Segment>)

  function Close(w: Walk): Walk {
    Walk(All(w), None)
  }

  /** Everything found so far, the open span last. */
  function All(w: Walk): seq<Segment> {
    if w.open.Some? then w.done + [w.open.value] else w.done
  }

  predicate Continues(w: Walk, base: string) {
    w.open.Some? && w.open.value.entity == base
  }

  /** One turn of the loop. */
  function Step(w: Walk, tokens: seq<Token>, i: nat): Walk
    requires i < |tokens|
  {
    if Skipped(tokens, i) then w
    else
      match ParseTag(tokens[i].tag)
      case Outside => Close(w)
      case Inside(boundary, base) =>
        var one := Segment(base, i, i);
        if boundary == "B" then Walk(All(w), Some(one))
        else if boundary == "I" then
          if Continues(w, base) then Walk(w.done, Some(w.open.value.(last := i)))
          else Walk(All(w), Some(one))
        else if boundary == "E" then
          if Continues(w, base) then Walk(w.done + [w.open.value.(last := i)], None)
          else Walk(All(w) + [one], None)
        else if boundary == "S" then Walk(All(w) + [one], None)
        else w
  }

  function WalkTo(tokens: seq<Token>, n: nat): Walk
    requires n <= |tokens|
  {
    if n == 0 then Walk([], None) else Step(WalkTo(tokens, n - 1), tokens, n - 1)
  }

  function Decode(tokens: seq<Token>): seq<Segment> {
    All(WalkTo(tokens, |tokens|))
  }

  // ---- The emitted spans ----

  datatype DetectedSpan = DetectedSpan(entity: string, start: int, end: int, text: string)

  /** `_span`: the bounds moved inwards over white space. */
  function Trim(entity: string, start: nat, end: nat, text: string): DetectedSpan {
    var body := Slice(text, start, end);
    var leading, trailing := LeadingBlanks(body), TrailingBlanks(body);
    if leading == 0 && trailing == 0 then DetectedSpan(entity, start, end, body)
    else DetectedSpan(entity, start + leading, end - trailing, Slice(text, start + leading, end - trailing))
  }

  /** First token's start to last token's end, trimmed. */
  function SpanOf(tokens: seq<Token>, s: Segment, text: string): DetectedSpan
    requires s.first < |tokens| && s.last < |tokens|
  {
    Trim(s.entity, tokens[s.first].start, tokens[s.last].end, text)
  }

  ghost predicate InRange(segs: seq<Segment>, n: nat) {
    forall k :: 0 <= k < |segs| ==> segs[k].first <= segs[k].last < n
  }

  function SpansOf(tokens: seq<Token>, segs: seq<Segment>, text: string): seq<DetectedSpan>
    requires InRange(segs, |tokens|)
  {
    seq(|segs|, k requires 0 <= k < |segs| => SpanOf(tokens, segs[k], text))
  }

  lemma {:induction false} WalkInRange(tokens: seq<Token>, n: nat)
    requires n <= |tokens|
    ensures InRange(All(WalkTo(tokens, n)), n)
  {
    if n == 0 {
    } else {
      WalkInRange(tokens, n - 1);
      StepInRange(WalkTo(tokens, n - 1), tokens, n - 1);
    }
  }

  lemma StepInRange(w: Walk, tokens: seq<Token>, i: nat)
    requires i < |tokens| && InRange(All(w), i)
    ensures InRange(All(Step(w, tokens, i)), i + 1)
  {
    if w.open.Some? { assert All(w)[|w.done|] == w.open.value; }
    assert forall k :: 0 <= k < |w.done| ==> All(w)[k] == w.done[k];
  }

  /** The loop variables: spans so far, and label, start and end if a span is open. */
  datatype CharSpan = CharSpan(entity: string, start: nat, end: nat)

  datatype Chars = Chars(spans: seq<DetectedSpan>, open: Option<CharSpan>)

  function Flush(c: Chars, text: string): seq<DetectedSpan> {
    if c.open.Some? then c.spans + [Trim(c.open.value.entity, c.open.value.start, c.open.value.end, text)] else c.spans
  }

  /** `_bioes_to_spans`.  `cur` holds the three variables that are set and
      cleared together. */
  method BioesToSpans(labelIds: seq<int>, id2label: map<int, string>, offsets: seq<(nat, nat)>, text: string)
    returns (spans: seq<DetectedSpan>)
    requires |labelIds| <= |offsets|
    ensures var tokens := TokensOf(labelIds, id2label, offsets);
            InRange(Decode(tokens), |tokens|) && spans == SpansOf(tokens, Decode(tokens), text)
    ensures var segs := Decode(TokensOf(labelIds, id2label, offsets));
            && |spans| == |segs|
            && forall k :: 0 <= k < |spans| ==>
                 && segs[k].first < |offsets| && segs[k].last < |offsets|
                 && spans[k] == Trim(segs[k].entity, offsets[segs[k].first].0, offsets[segs[k].last].1, text)
  {
    ghost var tokens := TokensOf(labelIds, id2label, offsets);
    spans := [];
    var cur: Option<CharSpan> := None;
    for i := 0 to |labelIds|
      invariant Mirrors(tokens, i, text, Chars(spans, cur))
    {
      var tag := if labelIds[i] in id2label then id2label[labelIds[i]] else "O";
      var (chStart, chEnd) := offsets[i];
      MirrorsNext(tokens, i, text, Chars(spans, cur));
      if chStart == chEnd == 0 && i > 0 { continue; }
      spans, cur := Turn(spans, cur, ParseTag(tag), chStart, chEnd, text);
    }
    WalkInRange(tokens, |tokens|);
    MirrorsEnd(tokens, text, Chars(spans, cur));
    if cur.Some? { spans := spans + [Trim(cur.value.entity, cur.value.start, cur.value.end, text)]; }
  }

  /** The branches of the loop body for a token that is not skipped. */
  method Turn(spans: seq<DetectedSpan>, cur: Option<CharSpan>, tag: Tag, chStart: nat, chEnd: nat, text: string)
    returns (spans': seq<DetectedSpan>, cur': Option<CharSpan>)
    ensures Chars(spans', cur') == CharStep(Chars(spans, cur), tag, chStart, chEnd, text)
  {
    spans', cur' := spans, cur;
    match tag {
      case Outside =>
        if cur.Some? { spans' := spans + [Trim(cur.value.entity, cur.value.start, cur.value.end, text)]; }
        cur' := None;
      case Inside(boundary, base) =>
        if boundary == "B" {
          if cur.Some? { spans' := spans + [Trim(cur.value.entity, cur.value.start, cur.value.end, text)]; }
          cur' := Some(CharSpan(base, chStart, chEnd));
        } else if boundary == "I" {
          if cur.Some? && cur.value.entity == base {
            cur' := Some(CharSpan(base, cur.value.start, chEnd));
          } else {
            if cur.Some? { spans' := spans + [Trim(cur.value.entity, cur.value.start, cur.value.end, text)]; }
            cur' := Some(CharSpan(base, chStart, chEnd));
          }
        } else if boundary == "E" {
          if cur.Some? && cur.value.entity == base {
            spans' := spans + [Trim(base, cur.value.start, chEnd, text)];
          } else {
            if cur.Some? { spans' := spans + [Trim(cur.value.entity, cur.value.start, cur.value.end, text)]; }
            spans' := spans' + [Trim(base, chStart, chEnd, text)];
          }
          cur' := None;
        } else if boundary == "S" {
          if cur.Some? { spans' := spans + [Trim(cur.value.entity, cur.value.start, cur.value.end, text)]; }
          cur' := None;
          spans' := spans' + [Trim(base, chStart, chEnd, text)];
        }
    }
  }

  /** The same in one expression. */
  function CharStep(c: Chars, tag: Tag, start: nat, end: nat, text: string): Chars {
    match tag
    case Outside => Chars(Flush(c, text), None)
    case Inside(boundary, base) =>
      var continues := c.open.Some? && c.open.value.entity == base;
      if boundary == "B" || (boundary == "I" && !continues) then Chars(Flush(c, text), Some(CharSpan(base, start, end)))
      else if boundary == "I" then Chars(c.spans, Some(c.open.value.(end := end)))
      else if boundary == "E" && continues then Chars(c.spans + [Trim(base, c.open.value.start, end, text)], None)
      else if boundary == "E" || boundary == "S" then Chars(Flush(c, text) + [Trim(base, start, end, text)], None)
      else c
  }

  function TokensOf(labelIds: seq<int>, id2label: map<int, string>, offsets: seq<(nat, nat)>): seq<Token>
    requires |labelIds| <= |offsets|
  {
    seq(|labelIds|, i requires 0 <= i < |labelIds| =>
      Token(if labelIds[i] in id2label then id2label[labelIds[i]] else "O", offsets[i].0, offsets[i].1))
  }

  /** A known label is read as its tag, an unknown one as outside. */
  lemma TokensAre(labelIds: seq<int>, id2label: map<int, string>, offsets: seq<(nat, nat)>, i: nat)
    requires i < |labelIds| <= |offsets|
    ensures var t := TokensOf(labelIds, id2label, offsets)[i];
            && (t.start, t.end) == offsets[i]
            && (labelIds[i] in id2label ==> t.tag == id2label[labelIds[i]])
            && (labelIds[i] !in id2label ==> ParseTag(t.tag) == Outside)
  {}

  /** The loop variables say in characters what a walk says in tokens. */
  ghost predicate Says(tokens: seq<Token>, w: Walk, text: string, c: Chars) {
    && InRange(w.done, |tokens|) && c.spans == SpansOf(tokens, w.done, text)
    && match w.open
       case None => c.open.None?
       case Some(s) => s.first < |tokens| && s.last < |tokens|
                       && c.open == Some(CharSpan(s.entity, tokens[s.first].start, tokens[s.last].end))
  }

  ghost predicate Mirrors(tokens: seq<Token>, n: nat, text: string, c: Chars) {
    n <= |tokens| && Says(tokens, WalkTo(tokens, n), text, c)
  }

  lemma SpansSnoc(tokens: seq<Token>, done: seq<Segment>, s: Segment, text: string)
    requires InRange(done, |tokens|) && s.first <= s.last < |tokens|
    ensures InRange(done + [s], |tokens|)
    ensures SpansOf(tokens, done + [s], text) == SpansOf(tokens, done, text) + [SpanOf(tokens, s, text)]
  {}

  lemma FlushSays(tokens: seq<Token>, w: Walk, text: string, c: Chars)
    requires Says(tokens, w, text, c) && InRange(All(w), |tokens|)
    ensures Flush(c, text) == SpansOf(tokens, All(w), text)
  {}

  /** The token carries the open span on. */
  predicate Carries(w: Walk, tag: Tag) {
    tag.Inside? && (tag.boundary == "I" || tag.boundary == "E") && Continues(w, tag.base)
  }

  lemma CarrySays(tokens: seq<Token>, w: Walk, i: nat, text: string, c: Chars)
    requires i < |tokens| && Says(tokens, w, text, c) && InRange(All(w), i)
    requires !Skipped(tokens, i) && Carries(w, ParseTag(tokens[i].tag))
    ensures Says(tokens, Step(w, tokens, i), text,
                 CharStep(c, ParseTag(tokens[i].tag), tokens[i].start, tokens[i].end, text))
  {
    assert All(w)[|w.done|] == w.open.value;
    SpansSnoc(tokens, w.done, w.open.value.(last := i), text);
  }

  lemma FreshSays(tokens: seq<Token>, w: Walk, i: nat, text: string, c: Chars)
    requires i < |tokens| && Says(tokens, w, text, c) && InRange(All(w), i)
    requires !Skipped(tokens, i) && !Carries(w, ParseTag(tokens[i].tag))
    ensures Says(tokens, Step(w, tokens, i), text,
                 CharStep(c, ParseTag(tokens[i].tag), tokens[i].start, tokens[i].end, text))
  {
    FlushSays(tokens, w, text, c);
    var tag := ParseTag(tokens[i].tag);
    if tag.Inside? { SpansSnoc(tokens, All(w), Segment(tag.base, i, i), text); }
  }

  lemma StepSays(tokens: seq<Token>, w: Walk, i: nat, text: string, c: Chars)
    requires i < |tokens| && Says(tokens, w, text, c) && InRange(All(w), i)
    ensures var t := tokens[i];
            Says(tokens, Step(w, tokens, i), text,
                 if Skipped(tokens, i) then c else CharStep(c, ParseTag(t.tag), t.start, t.end, text))
  {
    if !Skipped(tokens, i) {
      if Carries(w, ParseTag(tokens[i].tag)) {
        CarrySays(tokens, w, i, text, c);
      } else {
        FreshSays(tokens, w, i, text, c);
      }
    }
  }

  lemma MirrorsNext(tokens: seq<Token>, i: nat, text: string, c: Chars)
    requires i < |tokens| && Mirrors(tokens, i, text, c)
    ensures var t := tokens[i];
            Mirrors(tokens, i + 1, text,
                    if Skipped(tokens, i) then c else CharStep(c, ParseTag(t.tag), t.start, t.end, text))
  {
    WalkInRange(tokens, i);
    StepSays(tokens, WalkTo(tokens, i), i, text, c);
  }

  lemma MirrorsEnd(tokens: seq<Token>, text: string, c: Chars)
    requires Mirrors(tokens, |tokens|, text, c) && InRange(Decode(tokens), |tokens|)
    ensures Flush(c, text) == SpansOf(tokens, Decode(tokens), text)
  {}

  // ---- Any tag sequence, however ill-formed ----

  /** This token belongs to some entity. */
  predicate Tagged(tokens: seq<Token>, i: nat)
    requires i < |tokens|
  {
    && (i == 0 || !Special(tokens[i]))
    && ParseTag(tokens[i].tag).Inside? && ParseTag(tokens[i].tag).boundary in {"B", "I", "E", "S"}
  }

  /** This token ends any span. */
  predicate Breaks(tokens: seq<Token>, i: nat)
    requires i < |tokens|
  {
    (i == 0 || !Special(tokens[i])) && ParseTag(tokens[i].tag).Outside?
  }

  predicate Holds(s: Segment, i: nat) {
    s.first <= i <= s.last
  }

  ghost predicate InOrder(segs: seq<Segment>) {
    forall j, k :: 0 <= j < k < |segs| ==> segs[j].last < segs[k].first
  }

  /** No token inside breaks, every tagged token inside has the segment's label,
      and the ends are tagged. */
  ghost predicate SingleLabel(tokens: seq<Token>, s: Segment)
    requires s.first <= s.last < |tokens|
  {
    && Tagged(tokens, s.first) && Tagged(tokens, s.last)
    && forall i :: s.first <= i <= s.last ==>
         !Breaks(tokens, i) && (Tagged(tokens, i) ==> ParseTag(tokens[i].tag).base == s.entity)
  }

  /** Every tagged token among the first `n` is in one of the segments. */
  ghost predicate CoversTagged(tokens: seq<Token>, segs: seq<Segment>, n: nat)
    requires n <= |tokens|
  {
    forall i :: 0 <= i < n && Tagged(tokens, i) ==> exists k :: 0 <= k < |segs| && Holds(segs[k], i)
  }

  ghost predicate Fits(tokens: seq<Token>, s: Segment, n: nat)
    requires n <= |tokens|
  {
    s.first <= s.last < n && SingleLabel(tokens, s)
  }

  ghost predicate WellGrouped(tokens: seq<Token>, segs: seq<Segment>, n: nat)
    requires n <= |tokens|
  {
    && InOrder(segs) && CoversTagged(tokens, segs, n)
    && forall k :: 0 <= k < |segs| ==> Fits(tokens, segs[k], n)
  }

  /** Between the last token of the open span and here nothing was tagged. */
  ghost predicate OpenIsCurrent(tokens: seq<Token>, w: Walk, n: nat)
    requires n <= |tokens|
  {
    w.open.Some? ==>
      && w.open.value.last < n
      && forall i :: w.open.value.last < i < n ==> !Breaks(tokens, i) && !Tagged(tokens, i)
  }

  lemma SnocCovers(tokens: seq<Token>, segs: seq<Segment>, s: Segment, i: nat)
    requires i < |tokens| && CoversTagged(tokens, segs, i) && Holds(s, i)
    ensures CoversTagged(tokens, segs + [s], i + 1)
  {
    var all := segs + [s];
    forall j | 0 <= j <= i && Tagged(tokens, j)
      ensures exists k :: 0 <= k < |all| && Holds(all[k], j)
    {
      if j < i {
        var k :| 0 <= k < |segs| && Holds(segs[k], j);
        assert Holds(all[k], j);
      } else {
        assert Holds(all[|segs|], j);
      }
    }
  }

  lemma SnocFits(tokens: seq<Token>, segs: seq<Segment>, s: Segment, i: nat)
    requires i < |tokens| && Fits(tokens, s, i + 1)
    requires forall k :: 0 <= k < |segs| ==> Fits(tokens, segs[k], i)
    ensures forall k :: 0 <= k <= |segs| ==> Fits(tokens, (segs + [s])[k], i + 1)
  {}

  lemma SnocOrder(segs: seq<Segment>, s: Segment)
    requires InOrder(segs) && forall k :: 0 <= k < |segs| ==> segs[k].last < s.first
    ensures InOrder(segs + [s])
  {}

  /** Appending a one-token segment. */
  lemma GroupSnoc(tokens: seq<Token>, segs: seq<Segment>, i: nat)
    requires i < |tokens| && WellGrouped(tokens, segs, i) && Tagged(tokens, i)
    ensures WellGrouped(tokens, segs + [Segment(ParseTag(tokens[i].tag).base, i, i)], i + 1)
  {
    var s := Segment(ParseTag(tokens[i].tag).base, i, i);
    SnocCovers(tokens, segs, s, i);
    SnocFits(tokens, segs, s, i);
    forall k | 0 <= k < |segs|
      ensures segs[k].last < s.first
    {
      assert Fits(tokens, segs[k], i);
    }
    SnocOrder(segs, s);
  }

  lemma GrowLabel(tokens: seq<Token>, s: Segment, i: nat)
    requires s.first <= s.last < i < |tokens| && SingleLabel(tokens, s) && Tagged(tokens, i)
    requires s.entity == ParseTag(tokens[i].tag).base
    requires forall j :: s.last < j < i ==> !Breaks(tokens, j) && !Tagged(tokens, j)
    ensures SingleLabel(tokens, s.(last := i))
  {}

  lemma GrowCovers(tokens: seq<Token>, done: seq<Segment>, s: Segment, i: nat)
    requires i < |tokens| && CoversTagged(tokens, done + [s], i) && s.first <= s.last < i
    ensures CoversTagged(tokens, done + [s.(last := i)], i + 1)
  {
    var before, after := done + [s], done + [s.(last := i)];
    forall j | 0 <= j <= i && Tagged(tokens, j)
      ensures exists k :: 0 <= k < |after| && Holds(after[k], j)
    {
      if j < i {
        var k :| 0 <= k < |before| && Holds(before[k], j);
        assert Holds(after[k], j);
      } else {
        assert Holds(after[|done|], j);
      }
    }
  }

  lemma GrowOrder(done: seq<Segment>, s: Segment, i: nat)
    requires InOrder(done + [s])
    ensures InOrder(done + [s.(last := i)])
  {
    var before, after := done + [s], done + [s.(last := i)];
    forall j, k | 0 <= j < k < |after|
      ensures after[j].last < after[k].first
    {
      assert before[j].last < before[k].first;
    }
  }

  /** Carrying the last segment on to this token. */
  lemma GroupGrow(tokens: seq<Token>, done: seq<Segment>, s: Segment, i: nat)
    requires i < |tokens| && WellGrouped(tokens, done + [s], i) && Tagged(tokens, i)
    requires s.entity == ParseTag(tokens[i].tag).base
    requires forall j :: s.last < j < i ==> !Breaks(tokens, j) && !Tagged(tokens, j)
    ensures WellGrouped(tokens, done + [s.(last := i)], i + 1)
  {
    assert (done + [s])[|done|] == s && Fits(tokens, s, i);
    GrowLabel(tokens, s, i);
    GrowCovers(tokens, done, s, i);
    GrowOrder(done, s, i);
    GrowFits(tokens, done, s, i);
  }

  lemma GrowFits(tokens: seq<Token>, done: seq<Segment>, s: Segment, i: nat)
    requires i < |tokens| && Fits(tokens, s.(last := i), i + 1)
    requires forall k :: 0 <= k <= |done| ==> Fits(tokens, (done + [s])[k], i)
    ensures forall k :: 0 <= k <= |done| ==> Fits(tokens, (done + [s.(last := i)])[k], i + 1)
  {
    forall k | 0 <= k < |done|
      ensures Fits(tokens, (done + [s.(last := i)])[k], i + 1)
    {
      assert Fits(tokens, (done + [s])[k], i);
    }
  }

  /** A token that neither breaks nor is tagged changes nothing. */
  lemma GroupWait(tokens: seq<Token>, segs: seq<Segment>, i: nat)
    requires i < |tokens| && WellGrouped(tokens, segs, i) && !Tagged(tokens, i)
    ensures WellGrouped(tokens, segs, i + 1)
  {}

  /** The three things a turn of the loop can do to the segments. */
  lemma StepAll(w: Walk, tokens: seq<Token>, i: nat)
    requires i < |tokens|
    ensures var tag, next := ParseTag(tokens[i].tag), Step(w, tokens, i);
            if !Tagged(tokens, i) then
              All(next) == All(w) && (next.open == None || (next.open == w.open && !Breaks(tokens, i)))
            else
              && All(next) == (if Carries(w, tag) then w.done + [w.open.value.(last := i)]
                               else All(w) + [Segment(tag.base, i, i)])
              && (next.open.Some? ==> next.open.value.last == i)
  {}

  lemma NothingGrouped(tokens: seq<Token>)
    ensures WellGrouped(tokens, [], 0)
  {}

  lemma {:induction false} WalkGroups(tokens: seq<Token>, n: nat)
    requires n <= |tokens|
    ensures WellGrouped(tokens, All(WalkTo(tokens, n)), n)
    ensures OpenIsCurrent(tokens, WalkTo(tokens, n), n)
  {
    if n == 0 {
      NothingGrouped(tokens);
    } else {
      var w := WalkTo(tokens, n - 1);
      WalkGroups(tokens, n - 1);
      StepGroups(tokens, w, n - 1);
      assert WalkTo(tokens, n) == Step(w, tokens, n - 1);
    }
  }

  lemma StepGroups(tokens: seq<Token>, w: Walk, i: nat)
    requires i < |tokens| && WellGrouped(tokens, All(w), i) && OpenIsCurrent(tokens, w, i)
    ensures WellGrouped(tokens, All(Step(w, tokens, i)), i + 1)
    ensures OpenIsCurrent(tokens, Step(w, tokens, i), i + 1)
  {
    StepAll(w, tokens, i);
    if !Tagged(tokens, i) {
      GroupWait(tokens, All(w), i);
    } else if Carries(w, ParseTag(tokens[i].tag)) {
      GroupGrow(tokens, w.done, w.open.value, i);
    } else {
      GroupSnoc(tokens, All(w), i);
    }
  }

  /** For any tag sequence: the segments are ordered and disjoint, each has one
      label throughout, and every tagged token is in exactly one of them. */
  lemma DecodeGroups(tokens: seq<Token>)
    ensures WellGrouped(tokens, Decode(tokens), |tokens|)
    ensures forall i, j, k ::
              (0 <= j < |Decode(tokens)| && 0 <= k < |Decode(tokens)|
               && Holds(Decode(tokens)[j], i) && Holds(Decode(tokens)[k], i)) ==> j == k
  {
    WalkGroups(tokens, |tokens|);
  }

  // ---- Where one segment ends and the next begins ----

  /** Two tagged tokens with no tagged one between them. */
  ghost predicate Neighbours(tokens: seq<Token>, i: nat, j: nat) {
    && i < j < |tokens| && Tagged(tokens, i) && Tagged(tokens, j)
    && forall m :: i < m < j ==> !Tagged(tokens, m)
  }

  /** The first can be carried on, the second carries on what has its label, and
      nothing breaks between them. */
  ghost predicate Linked(tokens: seq<Token>, i: nat, j: nat)
    requires Neighbours(tokens, i, j)
  {
    var (a, b) := (ParseTag(tokens[i].tag), ParseTag(tokens[j].tag));
    && a.boundary in {"B", "I"} && b.boundary in {"I", "E"} && a.base == b.base
    && forall m :: i < m < j ==> !Breaks(tokens, m)
  }

  ghost predicate Together(segs: seq<Segment>, i: nat, j: nat) {
    exists k :: 0 <= k < |segs| && Holds(segs[k], i) && Holds(segs[k], j)
  }

  /** A span can still be carried on after the token at `t`. */
  ghost predicate Carriable(tokens: seq<Token>, t: nat, n: nat)
    requires n <= |tokens|
  {
    && t < n && Tagged(tokens, t) && ParseTag(tokens[t].tag).boundary in {"B", "I"}
    && forall m :: t < m < n ==> !Tagged(tokens, m) && !Breaks(tokens, m)
  }

  /** A span is open exactly when there is such a token, and ends in it so far. */
  ghost predicate OpenIs(tokens: seq<Token>, w: Walk, n: nat)
    requires n <= |tokens|
  {
    && (w.open.Some? ==>
          var t := w.open.value.last;
          Carriable(tokens, t, n) && ParseTag(tokens[t].tag).base == w.open.value.entity)
    && (forall t :: 0 <= t < n && Carriable(tokens, t, n) ==> w.open.Some? && w.open.value.last == t)
  }

  lemma StepOpens(tokens: seq<Token>, w: Walk, i: nat)
    requires i < |tokens| && OpenIs(tokens, w, i)
    ensures OpenIs(tokens, Step(w, tokens, i), i + 1)
  {
    StepAll(w, tokens, i);
    var next := i + 1;
    forall t | 0 <= t < next
      ensures Carriable(tokens, t, next) <==> CarriableNext(tokens, t, i)
    {
      CarriableStep(tokens, t, i, next);
    }
  }

  ghost predicate CarriableNext(tokens: seq<Token>, t: nat, i: nat)
    requires t <= i < |tokens|
  {
    if t == i then Tagged(tokens, i) && ParseTag(tokens[i].tag).boundary in {"B", "I"}
    else Carriable(tokens, t, i) && !Tagged(tokens, i) && !Breaks(tokens, i)
  }

  lemma CarriableStep(tokens: seq<Token>, t: nat, i: nat, next: nat)
    requires t <= i < |tokens| && next == i + 1
    ensures Carriable(tokens, t, next) <==> CarriableNext(tokens, t, i)
  {}

  lemma {:induction false} WalkOpens(tokens: seq<Token>, n: nat)
    requires n <= |tokens|
    ensures OpenIs(tokens, WalkTo(tokens, n), n)
  {
    if n == 0 {
    } else {
      WalkOpens(tokens, n - 1);
      StepOpens(tokens, WalkTo(tokens, n - 1), n - 1);
    }
  }

  lemma OnlyTheNew(segs: seq<Segment>, s: Segment, i: nat, j: nat)
    requires InRange(segs, j) && s.first == s.last == j && i < j
    ensures !Together(segs + [s], i, j)
  {
    var all := segs + [s];
    forall k | 0 <= k < |all|
      ensures !(Holds(all[k], i) && Holds(all[k], j))
    {
      if k < |segs| { assert all[k] == segs[k]; }
    }
  }

  /** The token just taken is in one segment with the one before it exactly when it
      is linked to it. */
  lemma NewestIff(tokens: seq<Token>, w: Walk, i: nat, j: nat)
    requires Neighbours(tokens, i, j) && OpenIs(tokens, w, j) && InRange(All(w), j)
    ensures Together(All(Step(w, tokens, j)), i, j) <==> Linked(tokens, i, j)
  {
    StepAll(w, tokens, j);
    var next := Step(w, tokens, j);
    if Carries(w, ParseTag(tokens[j].tag)) {
      var s := w.open.value;
      assert All(w)[|w.done|] == s;
      assert s.last == i;
      assert All(next)[|w.done|] == s.(last := j);
      assert Holds(s.(last := j), i) && Holds(s.(last := j), j);
    } else {
      OnlyTheNew(All(w), Segment(ParseTag(tokens[j].tag).base, j, j), i, j);
      if Linked(tokens, i, j) { assert Carriable(tokens, i, j); }
    }
  }

  lemma TogetherPlus(segs: seq<Segment>, s: Segment, i: nat, j: nat)
    ensures Together(segs + [s], i, j) <==> Together(segs, i, j) || (Holds(s, i) && Holds(s, j))
  {
    var all := segs + [s];
    assert all[|segs|] == s;
    if Together(segs, i, j) {
      var k :| 0 <= k < |segs| && Holds(segs[k], i) && Holds(segs[k], j);
      assert all[k] == segs[k];
    }
    if Together(all, i, j) {
      var k :| 0 <= k < |all| && Holds(all[k], i) && Holds(all[k], j);
      if k < |segs| { assert all[k] == segs[k]; }
    }
  }

  /** Later tokens do not change what is together. */
  lemma StepKeepsTogether(tokens: seq<Token>, w: Walk, i: nat, j: nat, m: nat)
    requires i < j < m < |tokens| && Tagged(tokens, i) && Tagged(tokens, j) && OpenIs(tokens, w, m)
    ensures Together(All(Step(w, tokens, m)), i, j) <==> Together(All(w), i, j)
  {
    StepAll(w, tokens, m);
    if Tagged(tokens, m) {
      if Carries(w, ParseTag(tokens[m].tag)) {
        TogetherPlus(w.done, w.open.value, i, j);
        TogetherPlus(w.done, w.open.value.(last := m), i, j);
      } else {
        TogetherPlus(All(w), Segment(ParseTag(tokens[m].tag).base, m, m), i, j);
      }
    }
  }

  lemma {:induction false} WalkLinks(tokens: seq<Token>, n: nat, i: nat, j: nat)
    requires Neighbours(tokens, i, j) && j < n <= |tokens|
    ensures Together(All(WalkTo(tokens, n)), i, j) <==> Linked(tokens, i, j)
  {
    var m := n - 1;
    WalkOpens(tokens, m);
    if j == m {
      WalkInRange(tokens, m);
      NewestIff(tokens, WalkTo(tokens, m), i, j);
    } else {
      WalkLinks(tokens, m, i, j);
      StepKeepsTogether(tokens, WalkTo(tokens, m), i, j, m);
    }
  }

  /** For any tag sequence, however ill-formed: neighbouring tagged tokens are in one
      segment exactly when the first is a B or I, the second an I or E with the same
      label, and no outside tag stands between them. */
  lemma TogetherIff(tokens: seq<Token>, i: nat, j: nat)
    requires Neighbours(tokens, i, j)
    ensures Together(Decode(tokens), i, j) <==> Linked(tokens, i, j)
  {
    WalkLinks(tokens, |tokens|, i, j);
  }

  // ---- Decoding inverts encoding ----

  function Boundary(s: Segment, i: nat): string {
    if s.first == s.last then "S" else if i == s.first then "B" else if i == s.last then "E" else "I"
  }

  /** The BIOES tag of token `i`. */
  function EncodeTag(segs: seq<Segment>, i: nat): string {
    if segs == [] then "O"
    else if Holds(segs[0], i) then Boundary(segs[0], i) + "-" + segs[0].entity
    else EncodeTag(segs[1..], i)
  }

  /** The tokens carry the encoding of the segments; special tokens may carry
      anything, but no segment begins or ends on one. */
  ghost predicate Encodes(tokens: seq<Token>, segs: seq<Segment>) {
    && InRange(segs, |tokens|) && InOrder(segs)
    && (forall k :: 0 <= k < |segs| ==> !Skipped(tokens, segs[k].first) && !Skipped(tokens, segs[k].last))
    && (forall i :: 0 <= i < |tokens| && !Skipped(tokens, i) ==> tokens[i].tag == EncodeTag(segs, i))
  }

  lemma ParseBack(boundary: string, base: string)
    requires '-' !in boundary
    ensures ParseTag(boundary + "-" + base) == Inside(boundary, base)
  {
    var s := boundary + "-" + base;
    assert forall i :: 0 <= i < |boundary| ==> s[i] == boundary[i] && boundary[i] in boundary;
    assert s[|boundary|] == '-';
    assert Dash(s) == |boundary|;
  }

  lemma {:induction false} EncodeTagIs(segs: seq<Segment>, i: nat, k: nat)
    requires InOrder(segs) && k < |segs| && Holds(segs[k], i)
    requires forall j :: 0 <= j < |segs| ==> segs[j].first <= segs[j].last
    ensures EncodeTag(segs, i) == Boundary(segs[k], i) + "-" + segs[k].entity
  {
    if k == 0 {
    } else {
      assert segs[0].last < segs[k].first;
      EncodeTagIs(segs[1..], i, k - 1);
    }
  }

  lemma {:induction false} EncodeOutside(segs: seq<Segment>, i: nat)
    requires forall j :: 0 <= j < |segs| ==> !Holds(segs[j], i)
    ensures ParseTag(EncodeTag(segs, i)) == Outside
  {
    if segs == [] {
    } else {
      EncodeOutside(segs[1..], i);
    }
  }

  /** After `n` tokens, `k` segments are complete and the next one is open as far
      as its tokens were seen. */
  ghost predicate Progress(segs: seq<Segment>, w: Walk, n: nat, k: nat) {
    && k <= |segs| && w.done == segs[..k]
    && (forall j :: 0 <= j < k ==> segs[j].last < n)
    && (k < |segs| ==> n <= segs[k].last)
    && if k < |segs| && segs[k].first < n
       then w.open.Some? && w.open == Some(segs[k].(last := w.open.value.last)) && w.open.value.last < n
       else w.open.None?
  }

  lemma ProgressSkip(tokens: seq<Token>, segs: seq<Segment>, w: Walk, i: nat, k: nat)
    requires i < |tokens| && Encodes(tokens, segs) && Progress(segs, w, i, k) && Skipped(tokens, i)
    ensures Progress(segs, w, i + 1, k)
  {}

  lemma ProgressOutside(tokens: seq<Token>, segs: seq<Segment>, w: Walk, i: nat, k: nat)
    requires i < |tokens| && Encodes(tokens, segs) && Progress(segs, w, i, k) && !Skipped(tokens, i)
    requires k == |segs| || i < segs[k].first
    ensures Progress(segs, Step(w, tokens, i), i + 1, k)
  {
    forall j | 0 <= j < |segs|
      ensures !Holds(segs[j], i)
    {
      if k < j { assert segs[k].last < segs[j].first; }
    }
    EncodeOutside(segs, i);
  }

  /** On the `k`-th segment the tag reads back as its boundary and label. */
  lemma TagInside(tokens: seq<Token>, segs: seq<Segment>, i: nat, k: nat)
    requires i < |tokens| && Encodes(tokens, segs) && !Skipped(tokens, i)
    requires k < |segs| && Holds(segs[k], i)
    ensures ParseTag(tokens[i].tag) == Inside(Boundary(segs[k], i), segs[k].entity)
  {
    EncodeTagIs(segs, i, k);
    ParseBack(Boundary(segs[k], i), segs[k].entity);
  }

  lemma Completes(segs: seq<Segment>, n: nat, k: nat)
    requires InOrder(segs) && k < |segs| && segs[k].last < n && (forall j :: 0 <= j < k ==> segs[j].last < n)
    requires n == segs[k].last + 1 && forall j :: 0 <= j < |segs| ==> segs[j].first <= segs[j].last
    ensures Progress(segs, Walk(segs[..k] + [segs[k]], None), n, k + 1)
  {}

  lemma StepInside(w: Walk, tokens: seq<Token>, i: nat, s: Segment)
    requires i < |tokens| && !Skipped(tokens, i) && Holds(s, i)
    requires ParseTag(tokens[i].tag) == Inside(Boundary(s, i), s.entity)
    requires if s.first < i then w.open.Some? && w.open.value == s.(last := w.open.value.last) else w.open.None?
    ensures Step(w, tokens, i) == if s.last == i then Walk(w.done + [s], None) else Walk(w.done, Some(s.(last := i)))
  {}

  lemma ProgressInside(tokens: seq<Token>, segs: seq<Segment>, w: Walk, i: nat, k: nat)
    requires i < |tokens| && Encodes(tokens, segs) && Progress(segs, w, i, k) && !Skipped(tokens, i)
    requires k < |segs| && segs[k].first <= i
    ensures Progress(segs, Step(w, tokens, i), i + 1, if segs[k].last == i then k + 1 else k)
  {
    TagInside(tokens, segs, i, k);
    StepInside(w, tokens, i, segs[k]);
    if segs[k].last == i { Completes(segs, i + 1, k); }
  }

  lemma {:induction false} ProgressTo(tokens: seq<Token>, segs: seq<Segment>, n: nat) returns (k: nat)
    requires n <= |tokens| && Encodes(tokens, segs)
    ensures Progress(segs, WalkTo(tokens, n), n, k)
  {
    if n == 0 {
      k := 0;
    } else {
      var i := n - 1;
      k := ProgressTo(tokens, segs, i);
      var w := WalkTo(tokens, i);
      if Skipped(tokens, i) {
        ProgressSkip(tokens, segs, w, i, k);
      } else if k == |segs| || i < segs[k].first {
        ProgressOutside(tokens, segs, w, i, k);
      } else {
        ProgressInside(tokens, segs, w, i, k);
        k := if segs[k].last == i then k + 1 else k;
      }
    }
  }

  /** Decoding an encoding gives back exactly the encoded segments, and so, in
      characters, first token's start to last token's end of each. */
  lemma DecodeInvertsEncode(tokens: seq<Token>, segs: seq<Segment>)
    requires Encodes(tokens, segs)
    ensures Decode(tokens) == segs
  {
    var k := ProgressTo(tokens, segs, |tokens|);
    assert forall j :: 0 <= j < |segs| ==> segs[j].last < |tokens|;
    assert segs[..|segs|] == segs;
  }

  // ---- Trimming ----

  lemma VisibleInside(s: string)
    ensures if Blank(s) then LeadingBlanks(s) == |s| && TrailingBlanks(s) == |s|
            else LeadingBlanks(s) + TrailingBlanks(s) < |s|
  {}

  lemma SliceWithin(text: string, start: nat, end: nat)
    ensures |Slice(text, start, end)| <= end
  {}

  lemma TrimIs(entity: string, start: nat, end: nat, text: string, body: string)
    requires body == Slice(text, start, end)
    ensures var l, r := LeadingBlanks(body), TrailingBlanks(body);
            && r <= end
            && Trim(entity, start, end, text)
               == DetectedSpan(entity, start + l, end - r, Slice(text, start + l, end - r))
  {
    SliceWithin(text, start, end);
  }

  /** What the blanks at both ends of a slice say about the text. */
  ghost predicate Framed(text: string, start: nat, n: nat, l: nat, r: nat) {
    && l + r < n && start + n <= |text|
    && !IsSpace(text[start + l]) && !IsSpace(text[start + n - r - 1])
    && (forall i :: start <= i < start + l ==> IsSpace(text[i]))
    && (forall i :: start + n - r <= i < start + n ==> IsSpace(text[i]))
  }

  lemma SliceFramed(text: string, start: nat, body: string, l: nat, r: nat)
    requires start + |body| <= |text| && (forall i :: 0 <= i < |body| ==> body[i] == text[start + i])
    requires l == LeadingBlanks(body) && r == TrailingBlanks(body) && !Blank(body)
    ensures Framed(text, start, |body|, l, r)
  {
    VisibleInside(body);
    forall i | start <= i < start + |body|
      ensures text[i] == body[i - start]
    {}
  }

  /** The bounds were moved inwards over white space only. */
  ghost predicate Tightened(text: string, start: nat, end: nat, t: DetectedSpan)
    requires start <= end <= |text|
  {
    && start <= t.start < t.end <= end && t.text == text[t.start..t.end]
    && !IsSpace(text[t.start]) && !IsSpace(text[t.end - 1])
    && Blank(text[start..t.start]) && Blank(text[t.end..end])
  }

  lemma TightenedBy(text: string, start: nat, n: nat, end: nat, l: nat, r: nat, t: DetectedSpan)
    requires start + n == end <= |text| && Framed(text, start, n, l, r)
    requires t.start == start + l && t.end == end - r && t.text == Slice(text, start + l, end - r)
    ensures Tightened(text, start, end, t)
  {
    forall i | 0 <= i < |text[start..t.start]|
      ensures IsSpace(text[start..t.start][i])
    {
      assert text[start..t.start][i] == text[start + i];
    }
    forall i | 0 <= i < |text[t.end..end]|
      ensures IsSpace(text[t.end..end][i])
    {
      assert text[t.end..end][i] == text[t.end + i];
    }
  }

  /** Of offsets beyond the text the right one is moved without effect on blanks. */
  ghost predicate LeftTightened(text: string, start: nat, t: DetectedSpan) {
    && start <= t.start < |text| && 0 <= t.end && t.text == Slice(text, t.start, t.end) && t.text != ""
    && !IsSpace(text[t.start]) && (forall i :: start <= i < t.start ==> IsSpace(text[i]))
    && (IsSpace(t.text[|t.text| - 1]) <==> IsSpace(text[|text| - 1]))
  }

  lemma LeftTightenedBy(text: string, start: nat, n: nat, end: nat, l: nat, r: nat, t: DetectedSpan)
    requires start + n == |text| < end && Framed(text, start, n, l, r)
    requires t.start == start + l && t.end == end - r && t.text == Slice(text, start + l, end - r)
    ensures LeftTightened(text, start, t)
  {
    var hi := if end - r < |text| then end - r else |text|;
    assert t.text == text[start + l..hi];
    assert t.text[|t.text| - 1] == text[hi - 1];
  }

  /** What trimming does to a span with something to show. */
  ghost predicate TrimsTo(text: string, start: nat, end: nat, t: DetectedSpan) {
    start < end && if end <= |text| then Tightened(text, start, end, t) else LeftTightened(text, start, t)
  }

  lemma TrimVisible(text: string, start: nat, end: nat, body: string, l: nat, r: nat, t: DetectedSpan)
    requires body == Slice(text, start, end) && !Blank(body) && TrimmedBy(text, start, end, l, r, t)
    requires l == LeadingBlanks(body) && r == TrailingBlanks(body)
    ensures TrimsTo(text, start, end, t)
  {
    SliceFramed(text, start, body, l, r);
    if end <= |text| {
      TightenedBy(text, start, |body|, end, l, r, t);
    } else {
      LeftTightenedBy(text, start, |body|, end, l, r, t);
    }
  }

  lemma TrimBlank(entity: string, start: nat, end: nat, text: string, body: string)
    requires body == Slice(text, start, end) && Blank(body)
    ensures Trim(entity, start, end, text) == DetectedSpan(entity, start + |body|, end - |body|, "")
  {
    VisibleInside(body);
    TrimIs(entity, start, end, text, body);
  }

  /** The three fields of a trimmed span. */
  ghost predicate TrimmedBy(text: string, start: nat, end: nat, l: nat, r: nat, t: DetectedSpan) {
    r <= end && t.start == start + l && t.end == end - r && t.text == Slice(text, start + l, end - r)
  }

  lemma TrimParts(entity: string, start: nat, end: nat, text: string)
    ensures var body := Slice(text, start, end);
            TrimmedBy(text, start, end, LeadingBlanks(body), TrailingBlanks(body), Trim(entity, start, end, text))
  {
    TrimIs(entity, start, end, text, Slice(text, start, end));
  }

  /** A span with something to show is tightened to its first and last visible
      character, unless its end lies beyond the text: then blanks at the end of
      the text stay.  An all-blank span comes back empty, with its bounds moved
      past each other. */
  lemma TrimIsTight(entity: string, start: nat, end: nat, text: string)
    ensures var body, t := Slice(text, start, end), Trim(entity, start, end, text);
            if Blank(body) then t == DetectedSpan(entity, start + |body|, end - |body|, "")
            else TrimsTo(text, start, end, t)
  {
    var body := Slice(text, start, end);
    if Blank(body) {
      TrimBlank(entity, start, end, text, body);
    } else {
      TrimParts(entity, start, end, text);
      TrimVisible(text, start, end, body, LeadingBlanks(body), TrailingBlanks(body), Trim(entity, start, end, text));
    }
  }
}
