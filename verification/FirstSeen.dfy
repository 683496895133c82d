/** What deduplication keeps, said of the match lists the detectors returned: the
    first match of a text in detector order, the texts in the order in which they
    were first seen, and for each the detectors that returned it. */
module FirstSeen {
  import opened Attribution
  import opened Matches
  import opened OrderedDicts

  // ---- Who reported a text ----

  ghost predicate Returned(detection: Detection, text: string) {
    exists i :: 0 <= i < |detection.1| && detection.1[i].text == text
  }

  ghost predicate SourcesDistinct(reports: seq<Reported>) {
    forall i :: 0 <= i < |reports| ==> Distinct(reports[i].1)
  }

  lemma AttributesConcat(a: seq<Reported>, b: seq<Reported>, text: string, det: string)
    ensures Attributes(a + b, text, det) <==> Attributes(a, text, det) || Attributes(b, text, det)
  {
    var all := a + b;
    if i :| 0 <= i < |a| && a[i].0.text == text && det in a[i].1 { assert all[i] == a[i]; }
    if i :| 0 <= i < |b| && b[i].0.text == text && det in b[i].1 { assert all[|a| + i] == b[i]; }
  }

  lemma ReturnedSnoc(name: string, before: seq<Match>, m: Match, text: string)
    ensures Returned((name, before + [m]), text) <==> Returned((name, before), text) || m.text == text
  {
    var all := before + [m];
    assert all[|before|] == m;
    if i :| 0 <= i < |before| && before[i].text == text { assert all[i] == before[i]; }
  }

  lemma AttributesOne(m: Match, name: string, text: string, det: string)
    ensures Attributes([(m, [name])], text, det) <==> m.text == text && det == name
  {
    assert [(m, [name])][0] == (m, [name]);
  }

  lemma {:induction false} ReportsOfIs(name: string, matches: seq<Match>, text: string, det: string)
    ensures SourcesDistinct(ReportsOf(name, matches))
    ensures Attributes(ReportsOf(name, matches), text, det) <==>
              text != "" && det == name && Returned((name, matches), text)
  {
    if matches == [] {
    } else {
      var n := |matches| - 1;
      var m := matches[n];
      ReportsOfIs(name, matches[..n], text, det);
      assert matches == matches[..n] + [m];
      ReturnedSnoc(name, matches[..n], m, text);
      AttributesOne(m, name, text, det);
      AttributesConcat(ReportsOf(name, matches[..n]), if m.text == "" then [] else [(m, [name])], text, det);
    }
  }

  lemma {:induction false} AllReportsAre(perDetector: seq<Detection>, text: string, det: string)
    ensures SourcesDistinct(AllReports(perDetector))
    ensures Attributes(AllReports(perDetector), text, det) <==>
              && text != ""
              && exists k :: 0 <= k < |perDetector| && perDetector[k].0 == det && Returned(perDetector[k], text)
  {
    if perDetector == [] {
    } else {
      var n := |perDetector| - 1;
      var before, last := perDetector[..n], perDetector[n];
      AllReportsAre(before, text, det);
      ReportsOfIs(last.0, last.1, text, det);
      AttributesConcat(AllReports(before), ReportsOf(last.0, last.1), text, det);
      assert perDetector == before + [last];
    }
  }

  /** Deduplicating one text's detections changes nobody's attribution. */
  lemma DedupIs(perDetector: seq<Detection>, text: string, det: string)
    ensures SourcesDistinct(Dedup(perDetector))
    ensures Attributes(Dedup(perDetector), text, det) <==> Attributes(AllReports(perDetector), text, det)
  {
    var reports := AllReports(perDetector);
    var l := RecordAll(reports);
    RecordAllValid(reports);
    forall i | 0 <= i < |l.found.keys|
      ensures l.found.vals[l.found.keys[i]].text == l.found.keys[i] && Distinct(l.sources[l.found.keys[i]])
    {
      AllReportsAre(perDetector, text, det);
      assert l.found.keys[i] in l.found.vals.Keys;
      LedgerIs(reports, l.found.keys[i]);
    }
    AllReportsAre(perDetector, text, det);
    LedgerIs(reports, text);
    if Attributes(reports, text, det) {
      var i :| 0 <= i < |reports| && reports[i].0.text == text && det in reports[i].1;
      assert Mentions(reports, text);
      assert text in l.found.vals.Keys;
      var k :| 0 <= k < |l.found.keys| && l.found.keys[k] == text;
      assert Dedup(perDetector)[k] == (l.found.vals[text], l.sources[text]);
    }
  }

  // ---- Which match is first ----

  /** `perDetector[k].1[i]` is the first match with its text: no earlier detector
      has the text, and no earlier match of this one. */
  ghost predicate FirstAt(perDetector: seq<Detection>, k: nat, i: nat) {
    && k < |perDetector| && i < |perDetector[k].1| && perDetector[k].1[i].text != ""
    && (forall j :: 0 <= j < k ==> !Returned(perDetector[j], perDetector[k].1[i].text))
    && (forall j :: 0 <= j < i ==> perDetector[k].1[j].text != perDetector[k].1[i].text)
  }

  lemma {:induction false} ReportsSplit(name: string, a: seq<Match>, b: seq<Match>)
    ensures ReportsOf(name, a + b) == ReportsOf(name, a) + ReportsOf(name, b)
  {
    if b == [] {
      assert a + b == a;
    } else {
      assert (a + b)[..|a + b| - 1] == a + b[..|b| - 1];
      ReportsSplit(name, a, b[..|b| - 1]);
    }
  }

  lemma {:induction false} AllReportsSplit(a: seq<Detection>, b: seq<Detection>)
    ensures AllReports(a + b) == AllReports(a) + AllReports(b)
  {
    if b == [] {
      assert a + b == a;
    } else {
      assert (a + b)[..|a + b| - 1] == a + b[..|b| - 1];
      AllReportsSplit(a, b[..|b| - 1]);
    }
  }

  lemma {:induction false} ReportsMention(name: string, matches: seq<Match>, text: string)
    ensures Mentions(ReportsOf(name, matches), text) <==> text != "" && Returned((name, matches), text)
  {
    if matches == [] {
    } else {
      var n := |matches| - 1;
      var last := if matches[n].text == "" then [] else [(matches[n], [name])];
      ReportsMention(name, matches[..n], text);
      MentionsPlus(ReportsOf(name, matches[..n]), last, text);
      assert last != [] ==> last[0] == (matches[n], [name]);
      assert Mentions(last, text) <==> text != "" && matches[n].text == text;
      assert Returned((name, matches), text) <==> Returned((name, matches[..n]), text) || matches[n].text == text;
    }
  }

  lemma {:induction false} AllReportsMention(perDetector: seq<Detection>, text: string)
    ensures Mentions(AllReports(perDetector), text) <==>
              text != "" && exists k :: 0 <= k < |perDetector| && Returned(perDetector[k], text)
  {
    if perDetector == [] {
    } else {
      var n := |perDetector| - 1;
      var last := perDetector[n];
      AllReportsMention(perDetector[..n], text);
      ReportsMention(last.0, last.1, text);
      MentionsPlus(AllReports(perDetector[..n]), ReportsOf(last.0, last.1), text);
    }
  }

  /** What is reported before the `i`-th match of detector `k`. */
  function ReportsBefore(perDetector: seq<Detection>, k: nat, i: nat): seq<Reported>
    requires k < |perDetector| && i <= |perDetector[k].1|
  {
    AllReports(perDetector[..k]) + ReportsOf(perDetector[k].0, perDetector[k].1[..i])
  }

  lemma ReportsAround(perDetector: seq<Detection>, k: nat, i: nat) returns (after: seq<Reported>)
    requires k < |perDetector| && i < |perDetector[k].1| && perDetector[k].1[i].text != ""
    ensures AllReports(perDetector)
         == ReportsBefore(perDetector, k, i) + [(perDetector[k].1[i], [perDetector[k].0])] + after
  {
    var (name, matches) := perDetector[k];
    assert perDetector == perDetector[..k + 1] + perDetector[k + 1..];
    AllReportsSplit(perDetector[..k + 1], perDetector[k + 1..]);
    assert perDetector[..k + 1][..k] == perDetector[..k];
    assert matches == matches[..i + 1] + matches[i + 1..];
    ReportsSplit(name, matches[..i + 1], matches[i + 1..]);
    assert matches[..i + 1][..i] == matches[..i];
    after := ReportsOf(name, matches[i + 1..]) + AllReports(perDetector[k + 1..]);
  }

  lemma BeforeMentions(perDetector: seq<Detection>, k: nat, i: nat, text: string)
    requires k < |perDetector| && i <= |perDetector[k].1| && text != ""
    ensures Mentions(ReportsBefore(perDetector, k, i), text) <==>
              || (exists j :: 0 <= j < k && Returned(perDetector[j], text))
              || (exists j :: 0 <= j < i && perDetector[k].1[j].text == text)
  {
    var (name, matches) := perDetector[k];
    AllReportsMention(perDetector[..k], text);
    ReportsMention(name, matches[..i], text);
    MentionsPlus(AllReports(perDetector[..k]), ReportsOf(name, matches[..i]), text);
    assert forall j :: 0 <= j < k ==> perDetector[..k][j] == perDetector[j];
    assert forall j :: 0 <= j < i ==> matches[..i][j] == matches[j];
  }

  ghost predicate Earlier(k: nat, i: nat, k': nat, i': nat) { k < k' || (k == k' && i < i') }

  /** The first match with a text is the one that is kept. */
  lemma FirstIsKept(perDetector: seq<Detection>, k: nat, i: nat)
    requires FirstAt(perDetector, k, i)
    ensures var l, m := RecordAll(AllReports(perDetector)), perDetector[k].1[i];
            l.Valid() && m.text in l.found.vals && l.found.vals[m.text] == m
  {
    var after := ReportsAround(perDetector, k, i);
    BeforeMentions(perDetector, k, i, perDetector[k].1[i].text);
    FirstReport(ReportsBefore(perDetector, k, i), (perDetector[k].1[i], [perDetector[k].0]), after);
  }

  /** Entries stand in the order in which their texts were first seen. */
  lemma FirstsInOrder(perDetector: seq<Detection>, k: nat, i: nat, k': nat, i': nat)
    requires FirstAt(perDetector, k, i) && FirstAt(perDetector, k', i') && Earlier(k, i, k', i')
    ensures Precedes(RecordAll(AllReports(perDetector)).found.keys,
                     perDetector[k].1[i].text, perDetector[k'].1[i'].text)
  {
    var text, later := perDetector[k].1[i].text, perDetector[k'].1[i'];
    var after := ReportsAround(perDetector, k', i');
    BeforeMentions(perDetector, k', i', text);
    BeforeMentions(perDetector, k', i', later.text);
    FirstReportsInOrder(ReportsBefore(perDetector, k', i'), text, (later, [perDetector[k'].0]), after);
  }

  /** Detector `k` is the first of its name to return the text. */
  ghost predicate FirstReporter(perDetector: seq<Detection>, text: string, k: nat) {
    && k < |perDetector| && Returned(perDetector[k], text)
    && forall j :: 0 <= j < k && Returned(perDetector[j], text) ==> perDetector[j].0 != perDetector[k].0
  }

  /** Sources are named in the order of the detectors that returned the text. */
  lemma SourcesInOrder(perDetector: seq<Detection>, text: string, j: nat, k: nat)
    requires text != "" && FirstReporter(perDetector, text, j) && FirstReporter(perDetector, text, k) && j < k
    ensures var l := RecordAll(AllReports(perDetector));
            l.Valid() && text in l.sources && Precedes(l.sources[text], perDetector[j].0, perDetector[k].0)
  {
    var before, after := AllReports(perDetector[..k]), AllReports(perDetector[k..]);
    assert perDetector == perDetector[..k] + perDetector[k..];
    AllReportsSplit(perDetector[..k], perDetector[k..]);
    AllReportsMention(perDetector[..k], text);
    AllReportsMention(perDetector, text);
    assert perDetector[..k][j] == perDetector[j];
    RecordAllGrows(before, after);
    RecordedIff(before, text);
    RecordedIff(before + after, text);
    SourcesOf(perDetector[..k], text, perDetector[j].0);
    SourcesOf(perDetector[..k], text, perDetector[k].0);
    SourcesOf(perDetector, text, perDetector[k].0);
    LaterPrecedes(RecordAll(before).sources[text], RecordAll(before + after).sources[text],
                  perDetector[j].0, perDetector[k].0);
  }

  /** The sources of a text are the detectors that returned it. */
  lemma SourcesOf(perDetector: seq<Detection>, text: string, det: string)
    requires text in RecordAll(AllReports(perDetector)).sources
    ensures RecordAll(AllReports(perDetector)).Valid()
    ensures det in RecordAll(AllReports(perDetector)).sources[text] <==>
              && text != ""
              && exists k :: 0 <= k < |perDetector| && perDetector[k].0 == det && Returned(perDetector[k], text)
  {
    AllReportsAre(perDetector, text, det);
    LedgerIs(AllReports(perDetector), text);
  }

  // ---- The deduplicated list ----

  /** The entry of a text, with the match that was seen first. */
  lemma DedupHasFirst(perDetector: seq<Detection>, k: nat, i: nat) returns (n: nat)
    requires FirstAt(perDetector, k, i)
    ensures n < |Dedup(perDetector)| && Dedup(perDetector)[n].0 == perDetector[k].1[i]
    ensures forall det :: det in Dedup(perDetector)[n].1 <==>
              exists j :: 0 <= j < |perDetector| && perDetector[j].0 == det
                          && Returned(perDetector[j], perDetector[k].1[i].text)
    ensures forall j: nat, j': nat ::
              (j < j' && FirstReporter(perDetector, perDetector[k].1[i].text, j)
               && FirstReporter(perDetector, perDetector[k].1[i].text, j')) ==>
              Precedes(Dedup(perDetector)[n].1, perDetector[j].0, perDetector[j'].0)
  {
    var l, text := RecordAll(AllReports(perDetector)), perDetector[k].1[i].text;
    FirstIsKept(perDetector, k, i);
    n :| 0 <= n < |l.found.keys| && l.found.keys[n] == text;
    assert Dedup(perDetector)[n] == (l.found.vals[text], l.sources[text]);
    forall det
      ensures det in l.sources[text] <==>
                exists j :: 0 <= j < |perDetector| && perDetector[j].0 == det && Returned(perDetector[j], text)
    {
      SourcesOf(perDetector, text, det);
    }
    forall j: nat, j': nat | j < j' && FirstReporter(perDetector, text, j) && FirstReporter(perDetector, text, j')
      ensures Precedes(l.sources[text], perDetector[j].0, perDetector[j'].0)
    {
      SourcesInOrder(perDetector, text, j, j');
    }
  }

  /** There is nothing else in it, and it is in the order of first appearance. */
  lemma DedupIsFirsts(perDetector: seq<Detection>, n: nat) returns (k: nat, i: nat)
    requires n < |Dedup(perDetector)|
    ensures FirstAt(perDetector, k, i) && Dedup(perDetector)[n].0 == perDetector[k].1[i]
  {
    var reports := AllReports(perDetector);
    RecordAllValid(reports);
    var text := RecordAll(reports).found.keys[n];
    assert text in RecordAll(reports).found.vals.Keys;
    RecordedIff(reports, text);
    AllReportsMention(perDetector, text);
    k, i := FirstWith(perDetector, text);
    FirstIsKept(perDetector, k, i);
  }

  lemma {:induction false} FirstWith(perDetector: seq<Detection>, text: string) returns (k: nat, i: nat)
    requires text != "" && exists j :: 0 <= j < |perDetector| && Returned(perDetector[j], text)
    ensures FirstAt(perDetector, k, i) && perDetector[k].1[i].text == text
  {
    var n := |perDetector| - 1;
    if exists j :: 0 <= j < n && Returned(perDetector[..n][j], text) {
      k, i := FirstWith(perDetector[..n], text);
      assert forall j :: 0 <= j <= k ==> perDetector[..n][j] == perDetector[j];
    } else {
      assert forall j :: 0 <= j < n ==> perDetector[..n][j] == perDetector[j];
      k := n;
      i := FirstMatchWith(perDetector[n].1, text);
    }
  }

  lemma {:induction false} FirstMatchWith(matches: seq<Match>, text: string) returns (i: nat)
    requires exists j :: 0 <= j < |matches| && matches[j].text == text
    ensures i < |matches| && matches[i].text == text && forall j :: 0 <= j < i ==> matches[j].text != text
  {
    if matches[0].text == text {
      i := 0;
    } else {
      var m := FirstMatchWith(matches[1..], text);
      i := m + 1;
      assert forall j :: 0 < j < i ==> matches[j] == matches[1..][j - 1];
    }
  }

  lemma DedupInOrder(perDetector: seq<Detection>, n: nat, k: nat, i: nat, n': nat, k': nat, i': nat)
    requires n < |Dedup(perDetector)| && FirstAt(perDetector, k, i) && Dedup(perDetector)[n].0 == perDetector[k].1[i]
    requires n' < |Dedup(perDetector)| && FirstAt(perDetector, k', i')
    requires Dedup(perDetector)[n'].0 == perDetector[k'].1[i']
    ensures n < n' <==> Earlier(k, i, k', i')
  {
    if Earlier(k, i, k', i') {
      PlacesInOrder(perDetector, n, k, i, n', k', i');
    } else if Earlier(k', i', k, i) {
      PlacesInOrder(perDetector, n', k', i', n, k, i);
    } else {
      assert k == k' && i == i';
      PlaceIs(perDetector, n);
      PlaceIs(perDetector, n');
    }
  }

  lemma PlaceIs(perDetector: seq<Detection>, n: nat)
    requires n < |Dedup(perDetector)|
    ensures var l := RecordAll(AllReports(perDetector));
            l.Valid() && n < |l.found.keys| && l.found.keys[n] == Dedup(perDetector)[n].0.text
  {
    RecordAllValid(AllReports(perDetector));
    assert RecordAll(AllReports(perDetector)).found.keys[n] in RecordAll(AllReports(perDetector)).found.vals;
  }

  lemma PlacesInOrder(perDetector: seq<Detection>, n: nat, k: nat, i: nat, n': nat, k': nat, i': nat)
    requires n < |Dedup(perDetector)| && FirstAt(perDetector, k, i) && Dedup(perDetector)[n].0 == perDetector[k].1[i]
    requires n' < |Dedup(perDetector)| && FirstAt(perDetector, k', i')
    requires Dedup(perDetector)[n'].0 == perDetector[k'].1[i'] && Earlier(k, i, k', i')
    ensures n < n'
  {
    FirstsInOrder(perDetector, k, i, k', i');
    PlaceIs(perDetector, n);
    PlaceIs(perDetector, n');
    var keys := RecordAll(AllReports(perDetector)).found.keys;
    var a, b :| 0 <= a < b < |keys| && keys[a] == keys[n] && keys[b] == keys[n'];
    assert a == n && b == n';
  }
}
