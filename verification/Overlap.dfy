/** Pass 2 of the regex detector: greedy allocation of overlapping candidates.

    Pass 1 is not part of this model: candidates are any list of non-empty spans
    with a value and a type, in pattern order. */
module Overlap {
  import opened Matches
  import opened OrderedDicts
  import opened Sorting

  /** A half-open range of text positions. */
  datatype Span = Span(start: nat, end: nat)

  datatype Candidate = Candidate(span: Span, value: string, entityType: string)

  datatype Strategy = Longest | Priority

  function Length(s: Span): int { s.end - s.start }

  predicate NonEmpty(s: Span) { s.start < s.end }

  predicate Overlaps(a: Span, b: Span) {
    a.start < b.end && b.start < a.end
  }

  predicate Holds(s: Span, p: int) { s.start <= p < s.end }

  /** Spans overlap exactly when they share a position. */
  lemma OverlapsIff(a: Span, b: Span)
    requires NonEmpty(a) && NonEmpty(b)
    ensures Overlaps(a, b) <==> exists p :: Holds(a, p) && Holds(b, p)
  {
    if Overlaps(a, b) {
      var p := if a.start < b.start then b.start else a.start;
      assert Holds(a, p) && Holds(b, p);
    }
  }

  /** Longer first, then earlier. */
  predicate SpanLe(a: Span, b: Span) {
    Length(a) > Length(b) || (Length(a) == Length(b) && a.start <= b.start)
  }

  predicate CandidateLe(a: Candidate, b: Candidate) {
    SpanLe(a.span, b.span)
  }

  /** The order pass 2 works in. */
  function Arrange(strategy: Strategy, candidates: seq<Candidate>): seq<Candidate> {
    if strategy == Longest then Sort(CandidateLe, candidates) else candidates
  }

  predicate Blocked(claimed: seq<Candidate>, s: Span) {
    exists i :: 0 <= i < |claimed| && Overlaps(claimed[i].span, s)
  }

  /** The candidates that are claimed, in the order they are. */
  function Allocate(candidates: seq<Candidate>): seq<Candidate> {
    if candidates == [] then []
    else
      var claimed := Allocate(candidates[..|candidates| - 1]);
      var c := candidates[|candidates| - 1];
      if Blocked(claimed, c.span) then claimed else claimed + [c]
  }

  function Emit(claimed: seq<Candidate>): seq<Match> {
    seq(|claimed|, i requires 0 <= i < |claimed| => MakeMatch(claimed[i].value, claimed[i].entityType))
  }

  lemma EmitSnoc(claimed: seq<Candidate>, c: Candidate)
    ensures Emit(claimed + [c]) == Emit(claimed) + [MakeMatch(c.value, c.entityType)]
  {}

  lemma AllocateSnoc(cs: seq<Candidate>, c: Candidate)
    ensures Allocate(cs + [c]) == Allocate(cs) + if Blocked(Allocate(cs), c.span) then [] else [c]
  {}

  /** Pass 2 of `RegexDetector.detect`. */
  method Resolve(strategy: Strategy, candidates: seq<Candidate>) returns (results: seq<Match>)
    ensures results == Emit(Allocate(Arrange(strategy, candidates)))
  {
    var ordered := Arrange(strategy, candidates);
    var claimed: seq<Candidate> := [];
    results := [];
    for i := 0 to |ordered|
      invariant claimed == Allocate(ordered[..i]) && results == Emit(claimed)
    {
      var c := ordered[i];
      AllocateSnoc(ordered[..i], c);
      assert ordered[..i + 1] == ordered[..i] + [c];
      if !Blocked(claimed, c.span) {
        EmitSnoc(claimed, c);
        claimed := claimed + [c];
        results := results + [MakeMatch(c.value, c.entityType)];
      }
    }
    assert ordered[..|ordered|] == ordered;
  }

  // ---- Disjoint, and nothing dropped without a reason ----

  ghost predicate AllNonEmpty(cs: seq<Candidate>) {
    forall i :: 0 <= i < |cs| ==> NonEmpty(cs[i].span)
  }

  ghost predicate Disjoint(cs: seq<Candidate>) {
    forall i, j :: 0 <= i < j < |cs| ==> !Overlaps(cs[i].span, cs[j].span)
  }

  /** Under either strategy the claimed spans are pairwise disjoint candidates. */
  lemma {:induction false} AllocateIsDisjoint(cs: seq<Candidate>)
    ensures Disjoint(Allocate(cs))
    ensures forall c :: c in Allocate(cs) ==> c in cs
  {
    if cs == [] {
    } else {
      AllocateIsDisjoint(cs[..|cs| - 1]);
      assert cs == cs[..|cs| - 1] + [cs[|cs| - 1]];
    }
  }

  /** The candidate at `i` was claimed, and no other claimed one at an earlier place
      overlaps it. */
  ghost predicate WinsAt(cs: seq<Candidate>, i: nat)
    requires i < |cs|
  {
    forall j :: 0 <= j < i && cs[j] in Allocate(cs) && Overlaps(cs[j].span, cs[i].span) ==> cs[j] == cs[i]
  }

  /** In the order the candidates are taken, one is claimed exactly when no other
      that was claimed before it overlaps it. */
  lemma ClaimedIff(cs: seq<Candidate>, i: nat)
    requires AllNonEmpty(cs) && i < |cs|
    ensures cs[i] in Allocate(cs) <==> WinsAt(cs, i)
  {
    var claimed := Allocate(cs);
    AllocateIsDisjoint(cs);
    if cs[i] in claimed {
      forall j | 0 <= j < i && cs[j] in claimed && Overlaps(cs[j].span, cs[i].span)
        ensures cs[j] == cs[i]
      {
        var a :| 0 <= a < |claimed| && claimed[a] == cs[j];
        var b :| 0 <= b < |claimed| && claimed[b] == cs[i];
        assert a == b;
      }
    } else {
      var j := BlockedBy(cs, i);
    }
  }

  /** What kept the candidate at `i` from being claimed. */
  lemma {:induction false} BlockedBy(cs: seq<Candidate>, i: nat) returns (j: nat)
    requires i < |cs| && cs[i] !in Allocate(cs)
    ensures j < i && cs[j] in Allocate(cs) && Overlaps(cs[j].span, cs[i].span)
  {
    var n := |cs| - 1;
    var init := cs[..n];
    var claimed := Allocate(init);
    assert forall c :: c in claimed ==> c in Allocate(cs) by { ClaimsStay(cs); }
    if i < n {
      j := BlockedBy(init, i);
    } else {
      var a :| 0 <= a < |claimed| && Overlaps(claimed[a].span, cs[n].span);
      AllocateIsDisjoint(init);
      assert claimed[a] in init;
      j :| 0 <= j < n && init[j] == claimed[a];
    }
  }

  lemma ClaimsStay(cs: seq<Candidate>)
    requires cs != []
    ensures Allocate(cs[..|cs| - 1]) <= Allocate(cs)
  {}

  /** Claimed candidates come in the order in which they were taken. */
  lemma {:induction false} ClaimsInOrder(cs: seq<Candidate>, a: nat, b: nat) returns (i: nat, j: nat)
    requires a < b < |Allocate(cs)|
    ensures i < j < |cs| && cs[i] == Allocate(cs)[a] && cs[j] == Allocate(cs)[b]
  {
    var n := |cs| - 1;
    var claimed := Allocate(cs[..n]);
    ClaimsStay(cs);
    if b < |claimed| {
      i, j := ClaimsInOrder(cs[..n], a, b);
    } else {
      AllocateIsDisjoint(cs[..n]);
      assert claimed[a] in cs[..n];
      i :| 0 <= i < n && cs[..n][i] == claimed[a];
      j := n;
    }
  }

  /** Under "priority" the candidates are taken in pattern order: the first one is
      always claimed, and any other unless a claimed one that comes before it in
      the list overlaps it. */
  lemma PriorityIs(candidates: seq<Candidate>, i: nat)
    requires AllNonEmpty(candidates) && i < |candidates|
    ensures candidates[i] in Allocate(Arrange(Priority, candidates)) <==> WinsAt(candidates, i)
    ensures i == 0 ==> candidates[i] in Allocate(Arrange(Priority, candidates))
  {
    ClaimedIff(candidates, i);
  }

  /** Some claimed candidate overlaps `c` and is longer, or as long and not later in
      the text. */
  ghost predicate Dominated(claimed: seq<Candidate>, c: Candidate) {
    exists d :: d in claimed && Overlaps(d.span, c.span) && Length(c.span) <= Length(d.span)
                && (Length(c.span) == Length(d.span) ==> d.span.start <= c.span.start)
  }

  /** Under "longest", whatever is dropped overlaps something claimed that is at
      least as long. */
  lemma {:induction false} DroppedIsDominated(cs: seq<Candidate>, c: Candidate)
    requires Ordered(CandidateLe, cs) && AllNonEmpty(cs) && c in cs
    ensures Dominated(Allocate(cs), c)
  {
    var n := |cs| - 1;
    var init, last := cs[..n], cs[n];
    assert cs == init + [last];
    var claimed := Allocate(init);
    if c in init {
      DroppedIsDominated(init, c);
      var d :| d in claimed && Overlaps(d.span, c.span) && SpanLe(d.span, c.span);
      assert d in Allocate(cs);
    } else if Blocked(claimed, last.span) {
      var i :| 0 <= i < |claimed| && Overlaps(claimed[i].span, last.span);
      AllocateIsDisjoint(init);
      assert claimed[i] in init;
      var j :| 0 <= j < n && cs[j] == claimed[i];
      assert claimed[i] in Allocate(cs) && CandidateLe(cs[j], cs[n]);
    } else {
      assert last in Allocate(cs);
    }
  }

  // ---- How good greedy is ----

  /** The positions from `a` up to, not including, `b`. */
  function Positions(a: int, b: int): (r: set<int>)
    ensures forall i :: i in r <==> a <= i < b
    ensures |r| == if a <= b then b - a else 0
    decreases b - a
  {
    if a >= b then {} else Positions(a, b - 1) + {b - 1}
  }

  function Total(spans: seq<Span>): int {
    if spans == [] then 0 else Total(spans[..|spans| - 1]) + Length(spans[|spans| - 1])
  }

  function Covered(spans: seq<Span>): set<int> {
    if spans == [] then {}
    else Covered(spans[..|spans| - 1]) + Positions(spans[|spans| - 1].start, spans[|spans| - 1].end)
  }

  lemma {:induction false} CoveredIs(spans: seq<Span>, p: int)
    ensures p in Covered(spans) <==> exists s :: s in spans && s.start <= p < s.end
  {
    if spans == [] {
    } else {
      CoveredIs(spans[..|spans| - 1], p);
      assert spans == spans[..|spans| - 1] + [spans[|spans| - 1]];
    }
  }

  ghost predicate DisjointSpans(spans: seq<Span>) {
    forall i, j :: 0 <= i < j < |spans| ==> !Overlaps(spans[i], spans[j])
  }

  /** Disjoint spans cover as many positions as they are long together. */
  lemma {:induction false} DisjointTotal(spans: seq<Span>)
    requires DisjointSpans(spans) && forall i :: 0 <= i < |spans| ==> NonEmpty(spans[i])
    ensures |Covered(spans)| == Total(spans)
  {
    if spans == [] {
    } else {
      var init, s := spans[..|spans| - 1], spans[|spans| - 1];
      DisjointTotal(init);
      forall p | p in Covered(init)
        ensures p !in Positions(s.start, s.end)
      {
        CoveredIs(init, p);
        var t :| t in init && t.start <= p < t.end;
        var i :| 0 <= i < |init| && init[i] == t;
        assert !Overlaps(spans[i], spans[|spans| - 1]);
      }
      assert Covered(init) !! Positions(s.start, s.end);
    }
  }

  /** Where a span that overlaps `s` and is no longer than `s` can reach. */
  function Reach(s: Span): set<int> {
    Positions(s.start - Length(s) + 1, s.end + Length(s) - 1)
  }

  function Reaches(claimed: seq<Candidate>): set<int> {
    if claimed == [] then {} else Reaches(claimed[..|claimed| - 1]) + Reach(claimed[|claimed| - 1].span)
  }

  function Spans(cs: seq<Candidate>): seq<Span> {
    seq(|cs|, i requires 0 <= i < |cs| => cs[i].span)
  }

  lemma {:induction false} ReachesCount(claimed: seq<Candidate>)
    requires AllNonEmpty(claimed)
    ensures |Reaches(claimed)| <= 3 * Total(Spans(claimed)) - 2 * |claimed|
  {
    if claimed == [] {
    } else {
      var init, s := claimed[..|claimed| - 1], claimed[|claimed| - 1].span;
      ReachesCount(init);
      assert Spans(claimed)[..|claimed| - 1] == Spans(init);
      UnionCount(Reaches(init), Reach(s));
    }
  }

  lemma {:induction false} ReachesHas(claimed: seq<Candidate>, c: Candidate)
    requires c in claimed
    ensures Reach(c.span) <= Reaches(claimed)
  {
    var n := |claimed| - 1;
    assert claimed == claimed[..n] + [claimed[n]];
    if c in claimed[..n] { ReachesHas(claimed[..n], c); }
  }

  lemma UnionCount(a: set<int>, b: set<int>)
    ensures |a + b| <= |a| + |b|
  {}

  /** A position of a candidate is within reach of a claimed one. */
  lemma WithinReach(ordered: seq<Candidate>, c: Candidate, p: int) returns (d: Candidate)
    requires Ordered(CandidateLe, ordered) && AllNonEmpty(ordered) && c in ordered
    requires c.span.start <= p < c.span.end
    ensures d in Allocate(ordered) && p in Reach(d.span)
  {
    DroppedIsDominated(ordered, c);
    d :| d in Allocate(ordered) && Overlaps(d.span, c.span) && Length(c.span) <= Length(d.span);
  }

  /** The longest strategy never covers less than about a third of what any
      other disjoint choice of candidates would: the total of such a choice is at
      most three times the claimed total, minus two per claimed span. */
  lemma GreedyBound(candidates: seq<Candidate>, others: seq<Span>)
    requires AllNonEmpty(candidates) && DisjointSpans(others)
    requires forall s :: s in others ==> exists c :: c in candidates && c.span == s
    ensures var claimed := Allocate(Arrange(Longest, candidates));
            Total(others) <= 3 * Total(Spans(claimed)) - 2 * |claimed|
  {
    var ordered := Arrange(Longest, candidates);
    var claimed := Allocate(ordered);
    LeIsPreorder();
    SortOrdered(CandidateLe, candidates);
    AllocateIsDisjoint(ordered);
    assert AllNonEmpty(ordered) by { FromSame(candidates, ordered); }
    assert AllNonEmpty(claimed) by { FromSame(ordered, claimed); }
    forall i | 0 <= i < |others|
      ensures NonEmpty(others[i])
    {
      assert others[i] in others;
    }
    DisjointTotal(others);
    ReachesCount(claimed);
    forall p | p in Covered(others)
      ensures p in Reaches(claimed)
    {
      CoveredIs(others, p);
      var s :| s in others && s.start <= p < s.end;
      var c :| c in candidates && c.span == s;
      var d := WithinReach(ordered, c, p);
      ReachesHas(claimed, d);
    }
    SubsetCount(Covered(others), Reaches(claimed));
  }

  lemma FromSame(cs: seq<Candidate>, ds: seq<Candidate>)
    requires AllNonEmpty(cs) && forall d :: d in ds ==> d in cs
    ensures AllNonEmpty(ds)
  {
    forall i | 0 <= i < |ds|
      ensures NonEmpty(ds[i].span)
    {
      assert ds[i] in cs;
    }
  }

  lemma LeIsPreorder()
    ensures TotalPreorder(CandidateLe) && TotalOrder(SpanLe)
  {}

  // ---- Order of patterns ----

  function AllocateSpans(spans: seq<Span>): seq<Span> {
    if spans == [] then []
    else
      var claimed := AllocateSpans(spans[..|spans| - 1]);
      var s := spans[|spans| - 1];
      if exists i :: 0 <= i < |claimed| && Overlaps(claimed[i], s) then claimed else claimed + [s]
  }

  lemma {:induction false} AllocationIsOfSpans(cs: seq<Candidate>)
    ensures Spans(Allocate(cs)) == AllocateSpans(Spans(cs))
  {
    if cs == [] {
    } else {
      var init := cs[..|cs| - 1];
      AllocationIsOfSpans(init);
      assert Spans(cs)[..|cs| - 1] == Spans(init);
      var claimed := Allocate(init);
      assert forall i :: 0 <= i < |claimed| ==> Spans(claimed)[i] == claimed[i].span;
    }
  }

  lemma {:induction false} SpansOfInsert(c: Candidate, cs: seq<Candidate>)
    ensures multiset(Spans(Insert(CandidateLe, c, cs))) == multiset{c.span} + multiset(Spans(cs))
  {
    if cs == [] || CandidateLe(c, cs[0]) {
      assert Spans([c] + cs) == [c.span] + Spans(cs);
    } else {
      SpansOfInsert(c, cs[1..]);
      assert Spans(cs) == [cs[0].span] + Spans(cs[1..]);
      assert Spans([cs[0]] + Insert(CandidateLe, c, cs[1..])) == [cs[0].span] + Spans(Insert(CandidateLe, c, cs[1..]));
    }
  }

  lemma SpansCons(c: Candidate, cs: seq<Candidate>)
    ensures Spans([c] + cs) == [c.span] + Spans(cs)
  {}

  lemma {:induction false} SpansOfSort(cs: seq<Candidate>)
    ensures multiset(Spans(Sort(CandidateLe, cs))) == multiset(Spans(cs))
  {
    if cs == [] {
    } else {
      SpansOfSort(cs[1..]);
      SpansOfInsert(cs[0], Sort(CandidateLe, cs[1..]));
      SpansCons(cs[0], cs[1..]);
      assert cs == [cs[0]] + cs[1..];
    }
  }

  /** Under "longest" the claimed spans depend only on the candidate spans: not
      on the order of patterns, nor on what the candidates are labelled. */
  lemma SpansIgnorePatternOrder(a: seq<Candidate>, b: seq<Candidate>)
    requires multiset(Spans(a)) == multiset(Spans(b))
    ensures Spans(Allocate(Arrange(Longest, a))) == Spans(Allocate(Arrange(Longest, b)))
  {
    var x, y := Arrange(Longest, a), Arrange(Longest, b);
    LeIsPreorder();
    SortOrdered(CandidateLe, a);
    SortOrdered(CandidateLe, b);
    SpansOfSort(a);
    SpansOfSort(b);
    OrderedUnique(SpanLe, Spans(x), Spans(y));
    AllocationIsOfSpans(x);
    AllocationIsOfSpans(y);
  }

  /** The candidates with a given span, in list order. */
  function WithSpan(s: Span, cs: seq<Candidate>): seq<Candidate> {
    if cs == [] then []
    else Only(s, cs[0]) + WithSpan(s, cs[1..])
  }

  lemma WithSpanCons(s: Span, c: Candidate, cs: seq<Candidate>)
    ensures WithSpan(s, [c] + cs) == Only(s, c) + WithSpan(s, cs)
  {}

  function Only(s: Span, c: Candidate): seq<Candidate> {
    if c.span == s then [c] else []
  }

  lemma SkipsOver(s: Span, c: Candidate, x: Candidate, tail: seq<Candidate>, r: seq<Candidate>)
    requires c.span != x.span && WithSpan(s, r) == Only(s, c) + WithSpan(s, tail)
    ensures WithSpan(s, [x] + r) == Only(s, c) + WithSpan(s, [x] + tail)
  {}

  lemma {:induction false} InsertIsStable(s: Span, c: Candidate, cs: seq<Candidate>)
    ensures WithSpan(s, Insert(CandidateLe, c, cs)) == Only(s, c) + WithSpan(s, cs)
  {
    if cs == [] || CandidateLe(c, cs[0]) {
      WithSpanCons(s, c, cs);
    } else {
      InsertIsStable(s, c, cs[1..]);
      assert cs == [cs[0]] + cs[1..];
      SkipsOver(s, c, cs[0], cs[1..], Insert(CandidateLe, c, cs[1..]));
    }
  }

  lemma {:induction false} SortIsStable(s: Span, cs: seq<Candidate>)
    ensures WithSpan(s, Sort(CandidateLe, cs)) == WithSpan(s, cs)
  {
    if cs == [] {
    } else {
      SortIsStable(s, cs[1..]);
      InsertIsStable(s, cs[0], Sort(CandidateLe, cs[1..]));
    }
  }

  lemma {:induction false} WithSpanIs(s: Span, cs: seq<Candidate>)
    ensures forall c :: c in WithSpan(s, cs) <==> c in cs && c.span == s
  {
    if cs == [] {
    } else {
      WithSpanIs(s, cs[1..]);
      assert cs == [cs[0]] + cs[1..];
    }
  }

  lemma {:induction false} WithSpanSnoc(s: Span, a: seq<Candidate>, c: Candidate)
    ensures WithSpan(s, a + [c]) == WithSpan(s, a) + Only(s, c)
  {
    if a == [] {
      assert a + [c] == [c] + [];
      WithSpanCons(s, c, []);
    } else {
      var tail := a[1..];
      WithSpanSnoc(s, tail, c);
      assert (a + [c])[1..] == tail + [c];
      assert Only(s, a[0]) + (WithSpan(s, tail) + Only(s, c)) == (Only(s, a[0]) + WithSpan(s, tail)) + Only(s, c);
    }
  }

  /** Whoever claims a span came first among the candidates with that span. */
  lemma {:induction false} ClaimIsFirst(cs: seq<Candidate>, c: Candidate)
    requires AllNonEmpty(cs) && c in Allocate(cs)
    ensures WithSpan(c.span, cs) != [] && WithSpan(c.span, cs)[0] == c
  {
    var init, last := cs[..|cs| - 1], cs[|cs| - 1];
    assert cs == init + [last];
    WithSpanSnoc(c.span, init, last);
    if c in Allocate(init) {
      ClaimIsFirst(init, c);
    } else {
      WithSpanIs(c.span, init);
      if d :| d in init && d.span == c.span { EarlierBlocks(init, d); }
    }
  }

  /** The place of a candidate is taken, by itself or by what blocked it. */
  lemma {:induction false} EarlierBlocks(cs: seq<Candidate>, d: Candidate)
    requires d in cs && NonEmpty(d.span)
    ensures Blocked(Allocate(cs), d.span)
  {
    var init, last := cs[..|cs| - 1], cs[|cs| - 1];
    assert cs == init + [last];
    var before, claimed := Allocate(init), Allocate(cs);
    if d in init {
      EarlierBlocks(init, d);
      var i :| 0 <= i < |before| && Overlaps(before[i].span, d.span);
      assert claimed[i] == before[i];
    } else if !Blocked(before, last.span) {
      assert claimed[|before|] == d;
    }
  }

  /** Of several patterns with the very same span, the first in pattern order
      names it; this is all that the order can change. */
  lemma FirstPatternNames(candidates: seq<Candidate>, c: Candidate)
    requires AllNonEmpty(candidates) && c in Allocate(Arrange(Longest, candidates))
    ensures WithSpan(c.span, candidates) != [] && WithSpan(c.span, candidates)[0] == c
  {
    var ordered := Arrange(Longest, candidates);
    assert AllNonEmpty(ordered) by { FromSame(candidates, ordered); }
    ClaimIsFirst(ordered, c);
    SortIsStable(c.span, candidates);
  }
}
