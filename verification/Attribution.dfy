/** Which detectors reported what: deduplicating match lists while keeping track
    of every detector that produced a text. */
module Attribution {
  import opened Matches
  import opened OrderedDicts

  /** A match and the detectors it is attributed to. */
  type Reported = (Match, seq<string>)

  /** What one detector returned. */
  type Detection = (string, seq<Match>)

  /** The two dicts both deduplication loops fill; each match is filed under its
      own text. */
  datatype Ledger = Ledger(found: OrderedDict<string, Match>, sources: map<string, seq<string>>)
  {
    ghost predicate Valid() {
      && found.Valid() && found.vals.Keys == sources.Keys
      && forall t :: t in found.vals ==> found.vals[t].text == t
    }
  }

  /** Append what is not there yet. */
  function Union(existing: seq<string>, more: seq<string>): seq<string>
    decreases |more|
  {
    if more == [] then existing
    else Union(if more[0] in existing then existing else existing + [more[0]], more[1..])
  }

  /** One report: the first one for a text fixes the match, later ones add
      their sources. */
  function Record(l: Ledger, r: Reported): Ledger {
    var text := r.0.text;
    if text in l.sources then Ledger(l.found, l.sources[text := Union(l.sources[text], r.1)])
    else Ledger(l.found.Put(text, r.0), l.sources[text := r.1])
  }

  function RecordAll(reports: seq<Reported>): Ledger {
    if reports == [] then Ledger(Empty(), map[])
    else Record(RecordAll(reports[..|reports| - 1]), reports[|reports| - 1])
  }

  /** The ledger as the list of pairs the source returns. */
  function Entries(l: Ledger): seq<Reported>
    requires l.Valid()
  {
    seq(|l.found.keys|, i requires 0 <= i < |l.found.keys| =>
      (l.found.vals[l.found.keys[i]], l.sources[l.found.keys[i]]))
  }

  /** What a detector's non-empty matches report. */
  function ReportsOf(name: string, matches: seq<Match>): seq<Reported> {
    if matches == [] then []
    else
      var last := matches[|matches| - 1];
      ReportsOf(name, matches[..|matches| - 1]) + if last.text == "" then [] else [(last, [name])]
  }

  function AllReports(perDetector: seq<Detection>): seq<Reported> {
    if perDetector == [] then []
    else
      var last := perDetector[|perDetector| - 1];
      AllReports(perDetector[..|perDetector| - 1]) + ReportsOf(last.0, last.1)
  }

  function Dedup(perDetector: seq<Detection>): seq<Reported> {
    RecordAllValid(AllReports(perDetector));
    Entries(RecordAll(AllReports(perDetector)))
  }

  lemma RecordValid(l: Ledger, r: Reported)
    requires l.Valid()
    ensures Record(l, r).Valid()
  {}

  lemma {:induction false} RecordAllValid(reports: seq<Reported>)
    ensures RecordAll(reports).Valid()
  {
    if reports == [] {
    } else {
      RecordAllValid(reports[..|reports| - 1]);
      RecordValid(RecordAll(reports[..|reports| - 1]), reports[|reports| - 1]);
    }
  }

  /** Whatever was reported, the ledger of it is valid. */
  function LedgerOf(reports: seq<Reported>): (l: Ledger)
    ensures l.Valid()
  {
    RecordAllValid(reports);
    RecordAll(reports)
  }

  lemma RecordSnoc(reports: seq<Reported>, r: Reported)
    ensures RecordAll(reports + [r]) == Record(RecordAll(reports), r)
  {}

  /** Recording a single source, as the inner loop does it. */
  lemma RecordOne(l: Ledger, m: Match, name: string)
    ensures Record(l, (m, [name])) ==
              if m.text !in l.sources then Ledger(l.found.Put(m.text, m), l.sources[m.text := [name]])
              else if name !in l.sources[m.text] then l.(sources := l.sources[m.text := l.sources[m.text] + [name]])
              else l
  {
    if m.text in l.sources {
      var existing := l.sources[m.text];
      assert [name][1..] == [];
      assert Union(existing, [name]) == if name in existing then existing else existing + [name];
      assert l.sources[m.text := existing] == l.sources;
    }
  }

  lemma ReportsNext(done: seq<Reported>, name: string, matches: seq<Match>, j: nat)
    requires j < |matches|
    ensures var before, m := done + ReportsOf(name, matches[..j]), matches[j];
            RecordAll(done + ReportsOf(name, matches[..j + 1]))
            == if m.text == "" then RecordAll(before) else Record(RecordAll(before), (m, [name]))
  {
    var before := done + ReportsOf(name, matches[..j]);
    var all := done + ReportsOf(name, matches[..j + 1]);
    assert matches[..j + 1][..j] == matches[..j];
    if matches[j].text == "" {
      assert all == before;
    } else {
      assert all == before + [(matches[j], [name])];
      RecordSnoc(before, (matches[j], [name]));
    }
  }

  /** `_dedup_with_sources` */
  method DedupWithSources(perDetector: seq<Detection>) returns (deduped: seq<Reported>)
    ensures deduped == Dedup(perDetector)
  {
    var ledger := Ledger(Empty(), map[]);
    for i := 0 to |perDetector|
      invariant ledger == RecordAll(AllReports(perDetector[..i]))
    {
      assert perDetector[..i + 1][..i] == perDetector[..i];
      ledger := TakeMatches(AllReports(perDetector[..i]), ledger, perDetector[i].0, perDetector[i].1);
    }
    assert perDetector[..|perDetector|] == perDetector;
    RecordAllValid(AllReports(perDetector));
    deduped := Entries(ledger);
  }

  /** The inner loop, over the matches of one detector. */
  method TakeMatches(ghost done: seq<Reported>, ledger: Ledger, name: string, matches: seq<Match>)
    returns (ledger': Ledger)
    requires ledger == RecordAll(done)
    ensures ledger' == RecordAll(done + ReportsOf(name, matches))
  {
    ledger' := ledger;
    assert done + ReportsOf(name, matches[..0]) == done;
    for j := 0 to |matches|
      invariant ledger' == RecordAll(done + ReportsOf(name, matches[..j]))
    {
      ReportsNext(done, name, matches, j);
      ledger' := TakeMatch(ledger', name, matches[j]);
    }
    assert matches[..|matches|] == matches;
  }

  /** One turn of it. */
  method TakeMatch(ledger: Ledger, name: string, m: Match) returns (ledger': Ledger)
    ensures ledger' == if m.text == "" then ledger else Record(ledger, (m, [name]))
  {
    ledger' := ledger;
    if m.text == "" { return; }
    RecordOne(ledger, m, name);
    if m.text !in ledger.sources {
      ledger' := Ledger(ledger.found.Put(m.text, m), ledger.sources[m.text := [name]]);
    } else if name !in ledger.sources[m.text] {
      ledger' := ledger.(sources := ledger.sources[m.text := ledger.sources[m.text] + [name]]);
    }
  }

  // ---- What a ledger says ----

  /** `text` was reported, and `det` was among the sources of a report of it. */
  ghost predicate Mentions(reports: seq<Reported>, text: string) {
    exists i :: 0 <= i < |reports| && reports[i].0.text == text
  }

  ghost predicate Attributes(reports: seq<Reported>, text: string, det: string) {
    exists i :: 0 <= i < |reports| && reports[i].0.text == text && det in reports[i].1
  }

  lemma {:induction false} UnionIs(existing: seq<string>, more: seq<string>)
    ensures Distinct(existing) ==> Distinct(Union(existing, more))
    ensures forall d :: d in Union(existing, more) <==> d in existing || d in more
    decreases |more|
  {
    if more == [] {
    } else {
      UnionIs(if more[0] in existing then existing else existing + [more[0]], more[1..]);
      assert forall d :: d in more <==> d == more[0] || d in more[1..];
    }
  }

  /** The first report of a text is the one that is kept. */
  ghost predicate FirstOf(reports: seq<Reported>, m: Match) {
    exists i :: 0 <= i < |reports| && reports[i].0 == m && forall j :: 0 <= j < i ==> reports[j].0.text != m.text
  }

  /** A ledger knows exactly the texts reported, keeps the first match of each,
      and attributes it, without repetition, to exactly its reporters. */
  lemma {:induction false} LedgerIs(reports: seq<Reported>, text: string)
    requires forall i :: 0 <= i < |reports| ==> Distinct(reports[i].1)
    ensures RecordAll(reports).Valid()
    ensures text in RecordAll(reports).sources <==> Mentions(reports, text)
    ensures text in RecordAll(reports).sources ==>
              var l := RecordAll(reports);
              && l.found.vals[text].text == text && FirstOf(reports, l.found.vals[text])
              && Distinct(l.sources[text])
              && forall d :: d in l.sources[text] <==> Attributes(reports, text, d)
  {
    RecordAllValid(reports);
    if reports == [] {
    } else {
      var n := |reports| - 1;
      var before, r := reports[..n], reports[n];
      LedgerIs(before, text);
      MentionsSnoc(before, r, text);
      assert reports == before + [r];
      if r.0.text == text {
        var l := RecordAll(before);
        if text in l.sources { UnionIs(l.sources[text], r.1); }
        forall d
          ensures Attributes(reports, text, d) <==> Attributes(before, text, d) || d in r.1
        {
          AttributesSnoc(before, r, text, d);
        }
        FirstSnoc(before, r, text);
      } else if text in RecordAll(before).sources {
        forall d
          ensures Attributes(reports, text, d) <==> Attributes(before, text, d)
        {
          AttributesSnoc(before, r, text, d);
        }
        FirstSnoc(before, r, text);
      }
    }
  }

  lemma MentionsSnoc(before: seq<Reported>, r: Reported, text: string)
    ensures Mentions(before + [r], text) <==> Mentions(before, text) || r.0.text == text
  {
    var all := before + [r];
    assert all[|before|] == r;
    if i :| 0 <= i < |before| && before[i].0.text == text { assert all[i] == before[i]; }
  }

  lemma AttributesSnoc(before: seq<Reported>, r: Reported, text: string, d: string)
    ensures Attributes(before + [r], text, d) <==> Attributes(before, text, d) || (r.0.text == text && d in r.1)
  {
    var all := before + [r];
    assert all[|before|] == r;
    if i :| 0 <= i < |before| && before[i].0.text == text && d in before[i].1 { assert all[i] == before[i]; }
  }

  lemma FirstSnoc(before: seq<Reported>, r: Reported, text: string)
    ensures forall m: Match :: FirstOf(before, m) ==> FirstOf(before + [r], m)
    ensures !Mentions(before, text) && r.0.text == text ==> FirstOf(before + [r], r.0)
  {
    var all := before + [r];
    forall m: Match | FirstOf(before, m)
      ensures FirstOf(all, m)
    {
      var i :| 0 <= i < |before| && before[i].0 == m && forall j :: 0 <= j < i ==> before[j].0.text != m.text;
      assert all[i].0 == m;
    }
    if !Mentions(before, text) && r.0.text == text {
      assert all[|before|].0 == r.0;
      assert forall j :: 0 <= j < |before| ==> all[j] == before[j];
    }
  }

  // ---- In which order ----

  /** The first entry of `s` that is `x` stands before one that is `y`. */
  ghost predicate Precedes<T(!new)>(s: seq<T>, x: T, y: T) {
    exists i, j :: 0 <= i < j < |s| && s[i] == x && s[j] == y
  }

  lemma LaterPrecedes<T(!new)>(p: seq<T>, q: seq<T>, x: T, y: T)
    requires p <= q && x in p && y in q && y !in p
    ensures Precedes(q, x, y)
  {
    assert forall j :: 0 <= j < |p| ==> q[j] == p[j] && p[j] in p;
    var i :| 0 <= i < |p| && q[i] == x;
    var j :| 0 <= j < |q| && q[j] == y;
  }

  lemma {:induction false} UnionGrows(existing: seq<string>, more: seq<string>)
    ensures existing <= Union(existing, more)
    decreases |more|
  {
    if more == [] {
    } else {
      UnionGrows(if more[0] in existing then existing else existing + [more[0]], more[1..]);
    }
  }

  /** Nothing that was recorded moves or changes. */
  ghost predicate Grows(p: Ledger, q: Ledger) {
    && p.found.keys <= q.found.keys
    && (forall t :: t in p.found.vals ==> t in q.found.vals && q.found.vals[t] == p.found.vals[t])
    && (forall t :: t in p.sources ==> t in q.sources && p.sources[t] <= q.sources[t])
  }

  lemma RecordGrows(l: Ledger, r: Reported)
    requires l.Valid()
    ensures Grows(l, Record(l, r))
  {
    if r.0.text in l.sources { UnionGrows(l.sources[r.0.text], r.1); }
  }

  lemma GrowsOn(p: Ledger, q: Ledger, r: Ledger)
    requires Grows(p, q) && Grows(q, r)
    ensures Grows(p, r)
  {
    PrefixOf(p.found.keys, q.found.keys, r.found.keys);
    forall t | t in p.sources
      ensures t in r.sources && p.sources[t] <= r.sources[t]
    {
      PrefixOf(p.sources[t], q.sources[t], r.sources[t]);
    }
  }

  lemma PrefixOf(a: seq<string>, b: seq<string>, c: seq<string>)
    requires a <= b && b <= c
    ensures a <= c
  {}

  lemma {:induction false} RecordAllGrows(a: seq<Reported>, b: seq<Reported>)
    ensures Grows(RecordAll(a), RecordAll(a + b))
  {
    if b == [] {
      assert a + b == a;
    } else {
      var n := |b| - 1;
      assert (a + b)[..|a + b| - 1] == a + b[..n];
      RecordAllGrows(a, b[..n]);
      RecordAllValid(a + b[..n]);
      RecordGrows(RecordAll(a + b[..n]), b[n]);
      GrowsOn(RecordAll(a), RecordAll(a + b[..n]), RecordAll(a + b));
    }
  }

  lemma {:induction false} RecordedIff(reports: seq<Reported>, text: string)
    ensures text in RecordAll(reports).sources <==> Mentions(reports, text)
  {
    if reports == [] {
    } else {
      var n := |reports| - 1;
      assert reports == reports[..n] + [reports[n]];
      RecordedIff(reports[..n], text);
      MentionsSnoc(reports[..n], reports[n], text);
    }
  }

  /** The first report of a text: its match stays, and takes the next place. */
  lemma FirstReport(before: seq<Reported>, r: Reported, after: seq<Reported>)
    requires !Mentions(before, r.0.text)
    ensures var l := RecordAll(before + [r] + after);
            l.Valid() && r.0.text in l.found.vals && l.found.vals[r.0.text] == r.0
  {
    RecordSnoc(before, r);
    RecordedIff(before, r.0.text);
    RecordAllValid(before + [r] + after);
    RecordAllGrows(before + [r], after);
  }

  /** Texts are filed in the order of their first reports. */
  lemma FirstReportsInOrder(before: seq<Reported>, text: string, r: Reported, after: seq<Reported>)
    requires Mentions(before, text) && !Mentions(before, r.0.text)
    ensures Precedes(RecordAll(before + [r] + after).found.keys, text, r.0.text)
  {
    var p, q := RecordAll(before), RecordAll(before + [r] + after);
    RecordAllValid(before);
    RecordAllValid(before + [r] + after);
    RecordedIff(before, text);
    RecordedIff(before, r.0.text);
    FirstReport(before, r, after);
    assert before + [r] + after == before + ([r] + after);
    RecordAllGrows(before, [r] + after);
    assert text in p.found.vals.Keys && r.0.text !in p.found.vals.Keys;
    LaterPrecedes(p.found.keys, q.found.keys, text, r.0.text);
  }

  lemma MentionsPlus(a: seq<Reported>, b: seq<Reported>, text: string)
    ensures Mentions(a + b, text) <==> Mentions(a, text) || Mentions(b, text)
  {
    if i :| 0 <= i < |a| && a[i].0.text == text { assert (a + b)[i] == a[i]; }
    if i :| 0 <= i < |b| && b[i].0.text == text { assert (a + b)[|a| + i] == b[i]; }
  }

  /** Every match kept was reported. */
  lemma {:induction false} KeptWasReported(reports: seq<Reported>, text: string)
    requires text in RecordAll(reports).found.vals
    ensures exists i :: 0 <= i < |reports| && reports[i].0 == RecordAll(reports).found.vals[text]
  {
    var n := |reports| - 1;
    var before := RecordAll(reports[..n]);
    RecordAllValid(reports[..n]);
    if text in before.found.vals {
      KeptWasReported(reports[..n], text);
      var i :| 0 <= i < n && reports[..n][i].0 == before.found.vals[text];
      assert reports[i].0 == before.found.vals[text];
    }
  }

  lemma {:induction false} UnionSplit(existing: seq<string>, a: seq<string>, b: seq<string>)
    ensures Union(existing, a + b) == Union(Union(existing, a), b)
    decreases |a|
  {
    if a == [] {
      assert a + b == b;
    } else {
      assert (a + b)[1..] == a[1..] + b;
      UnionSplit(if a[0] in existing then existing else existing + [a[0]], a[1..], b);
    }
  }

  /** New sources are named after the known ones, and in their own order. */
  lemma UnionInOrder(existing: seq<string>, a: seq<string>, b: seq<string>, x: string, y: string)
    requires (x in existing || x in a) && y in b && y !in existing && y !in a
    ensures Precedes(Union(existing, a + b), x, y)
  {
    UnionSplit(existing, a, b);
    UnionIs(existing, a);
    UnionIs(Union(existing, a), b);
    UnionGrows(Union(existing, a), b);
    LaterPrecedes(Union(existing, a), Union(existing, a + b), x, y);
  }

  /** Who was recorded for a text before is named before who is recorded later. */
  lemma SourcesInOrderOfReports(before: seq<Reported>, after: seq<Reported>, text: string, x: string, y: string)
    requires text in RecordAll(before).sources && text in RecordAll(before + after).sources
    requires x in RecordAll(before).sources[text] && y !in RecordAll(before).sources[text]
    requires y in RecordAll(before + after).sources[text]
    ensures Precedes(RecordAll(before + after).sources[text], x, y)
  {
    RecordAllGrows(before, after);
    LaterPrecedes(RecordAll(before).sources[text], RecordAll(before + after).sources[text], x, y);
  }
}
