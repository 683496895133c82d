/** Writing the caches ahead of the next turn, from the vault entry alone. */
module Prewarm {
  import opened Attribution
  import opened CacheKeys
  import opened EndToEnd
  import opened FirstSeen
  import opened Matches
  import opened OrderedDicts
  import opened Pipelines
  import opened RoundTrip
  import opened Sorting
  import opened Texts
  import opened Vault
  import opened Wrappers

  // ---- Who reported what in a request ----

  /** `perText[i]` are the detections on text `i`, `merged` those on the blob. */
  function ResultsOf(perText: seq<seq<Detection>>, merged: seq<Detection>): seq<seq<Reported>> {
    seq(|perText|, i requires 0 <= i < |perText| => Dedup(perText[i]))
    + seq(|merged|, k requires 0 <= k < |merged| => MergedReports(merged[k].0, merged[k].1))
  }

  /** `det` returned `text` in this request: on one of the texts, or on the
      merged blob without touching a segment border. */
  ghost predicate ReportedBy(perText: seq<seq<Detection>>, merged: seq<Detection>, text: string, det: string) {
    || (text != "" && exists i, k :: 0 <= i < |perText| && 0 <= k < |perText[i]|
                                     && perText[i][k].0 == det && Returned(perText[i][k], text))
    || (!Occurs(MERGE_SENTINEL_MARKER, text)
        && exists k :: 0 <= k < |merged| && merged[k].0 == det && Returned(merged[k], text))
  }

  lemma {:induction false} MergedReportsAre(name: string, matches: seq<Match>, text: string, det: string)
    ensures SourcesDistinct(MergedReports(name, matches))
    ensures Attributes(MergedReports(name, matches), text, det) <==>
              !Occurs(MERGE_SENTINEL_MARKER, text) && det == name && Returned((name, matches), text)
  {
    if matches == [] {
    } else {
      var n := |matches| - 1;
      var m := matches[n];
      MergedReportsAre(name, matches[..n], text, det);
      assert matches == matches[..n] + [m];
      ReturnedSnoc(name, matches[..n], m, text);
      AttributesOne(m, name, text, det);
      AttributesConcat(MergedReports(name, matches[..n]),
                       if Occurs(MERGE_SENTINEL_MARKER, m.text) then [] else [(m, [name])], text, det);
    }
  }

  lemma DistinctConcat(a: seq<Reported>, b: seq<Reported>)
    requires SourcesDistinct(a) && SourcesDistinct(b)
    ensures SourcesDistinct(a + b)
  {}

  lemma {:induction false} FlattenIs(results: seq<seq<Reported>>, text: string, det: string)
    ensures (forall r :: r in results ==> SourcesDistinct(r)) ==> SourcesDistinct(Flatten(results))
    ensures Attributes(Flatten(results), text, det) <==>
              exists r :: 0 <= r < |results| && Attributes(results[r], text, det)
  {
    if results == [] {
    } else {
      var n := |results| - 1;
      FlattenIs(results[..n], text, det);
      assert results == results[..n] + [results[n]];
      AttributesConcat(Flatten(results[..n]), results[n], text, det);
      if forall r :: r in results ==> SourcesDistinct(r) {
        DistinctConcat(Flatten(results[..n]), results[n]);
      }
    }
  }

  lemma ResultsAreDistinct(perText: seq<seq<Detection>>, merged: seq<Detection>)
    ensures forall r :: r in ResultsOf(perText, merged) ==> SourcesDistinct(r)
  {
    var results := ResultsOf(perText, merged);
    forall r | 0 <= r < |results|
      ensures SourcesDistinct(results[r])
    {
      if r < |perText| { DedupIs(perText[r], "", ""); }
      else { MergedReportsAre(merged[r - |perText|].0, merged[r - |perText|].1, "", ""); }
    }
  }

  /** The `r`-th result list of the request attributes `text` to `det`. */
  ghost predicate ReportedIn(perText: seq<seq<Detection>>, merged: seq<Detection>, r: nat, text: string, det: string)
    requires r < |perText| + |merged|
  {
    if r < |perText| then
      && text != ""
      && exists k :: 0 <= k < |perText[r]| && perText[r][k].0 == det && Returned(perText[r][k], text)
    else
      && !Occurs(MERGE_SENTINEL_MARKER, text)
      && merged[r - |perText|].0 == det && Returned(merged[r - |perText|], text)
  }

  lemma ResultAttributes(perText: seq<seq<Detection>>, merged: seq<Detection>, r: nat, text: string, det: string)
    requires r < |perText| + |merged|
    ensures Attributes(ResultsOf(perText, merged)[r], text, det) <==> ReportedIn(perText, merged, r, text, det)
  {
    if r < |perText| {
      DedupIs(perText[r], text, det);
      AllReportsAre(perText[r], text, det);
    } else {
      MergedReportsAre(merged[r - |perText|].0, merged[r - |perText|].1, text, det);
    }
  }

  ghost predicate ReportedSomewhere(perText: seq<seq<Detection>>, merged: seq<Detection>, text: string, det: string) {
    exists r :: 0 <= r < |perText| + |merged| && ReportedIn(perText, merged, r, text, det)
  }

  lemma SomewhereIff(perText: seq<seq<Detection>>, merged: seq<Detection>, text: string, det: string)
    ensures ReportedSomewhere(perText, merged, text, det) <==> ReportedBy(perText, merged, text, det)
  {
    if i, k :| text != "" && 0 <= i < |perText| && 0 <= k < |perText[i]|
               && perText[i][k].0 == det && Returned(perText[i][k], text)
    {
      assert ReportedIn(perText, merged, i, text, det);
    }
    if k :| !Occurs(MERGE_SENTINEL_MARKER, text) && 0 <= k < |merged|
            && merged[k].0 == det && Returned(merged[k], text)
    {
      assert ReportedIn(perText, merged, |perText| + k, text, det);
    }
  }

  lemma RequestAttributes(perText: seq<seq<Detection>>, merged: seq<Detection>, text: string, det: string)
    ensures SourcesDistinct(Flatten(ResultsOf(perText, merged)))
    ensures Attributes(Flatten(ResultsOf(perText, merged)), text, det) <==> ReportedBy(perText, merged, text, det)
  {
    var results := ResultsOf(perText, merged);
    ResultsAreDistinct(perText, merged);
    FlattenIs(results, text, det);
    forall r | 0 <= r < |results|
      ensures Attributes(results[r], text, det) <==> ReportedIn(perText, merged, r, text, det)
    {
      ResultAttributes(perText, merged, r, text, det);
    }
    SomewhereIff(perText, merged, text, det);
  }

  /** The sources recorded for an original are duplicate-free and exactly the
      detectors that reported it in this request. */
  lemma SourcesAreReporters(perText: seq<seq<Detection>>, merged: seq<Detection>, text: string)
    ensures var l := RecordAll(Flatten(ResultsOf(perText, merged)));
            && l.Valid()
            && (text in l.sources ==> Distinct(l.sources[text]) && l.found.vals[text].text == text)
            && forall d :: (text in l.sources && d in l.sources[text]) <==> ReportedBy(perText, merged, text, d)
  {
    var reports := Flatten(ResultsOf(perText, merged));
    RequestAttributes(perText, merged, text, "");
    LedgerIs(reports, text);
    forall d
      ensures (text in RecordAll(reports).sources && d in RecordAll(reports).sources[text]) <==>
                ReportedBy(perText, merged, text, d)
    {
      RequestAttributes(perText, merged, text, d);
      if Attributes(reports, text, d) { assert Mentions(reports, text); }
    }
  }

  // ---- The writes ----

  /** One cache write: to the pipeline cache, or to a detector's own. */
  datatype Write =
    | PipelineWrite(text: string, detectorMode: seq<string>, kwargs: FrozenCallKwargs, reported: seq<Reported>)
    | DetectorWrite(detector: Active, text: string, matches: seq<Match>)

  /** A detector whose cache is written, with the arguments its key is built from. */
  datatype Active = Active(name: string, kwargs: OrderedDict<string, Value>)

  /** `{key: value for key, value in frozen}` */
  function AsDict(frozen: FrozenKwargs): OrderedDict<string, Value> {
    FromItems(seq(|frozen|, i requires 0 <= i < |frozen| => frozen[i].0),
              seq(|frozen|, i requires 0 <= i < |frozen| => frozen[i].1))
  }

  function KwargsByDetector(kwargs: FrozenCallKwargs): OrderedDict<string, OrderedDict<string, Value>> {
    FromItems(seq(|kwargs|, i requires 0 <= i < |kwargs| => kwargs[i].0),
              seq(|kwargs|, i requires 0 <= i < |kwargs| => AsDict(kwargs[i].1)))
  }

  function SynthOne(vs: VaultSurrogate): Reported {
    (MakeMatch(vs.original, vs.entityType), vs.sourceDetectors)
  }

  /** The matches synthesised from the surrogates, in dict order. */
  function Synth(entry: VaultEntry): seq<Reported>
    requires entry.surrogates.Valid()
  {
    seq(|entry.surrogates.keys|, i requires 0 <= i < |entry.surrogates.keys| =>
      SynthOne(entry.surrogates.vals[entry.surrogates.keys[i]]))
  }

  function PresentIn(reports: seq<Reported>, text: string): seq<Reported> {
    if reports == [] then []
    else
      var last := reports[|reports| - 1];
      PresentIn(reports[..|reports| - 1], text) + if Occurs(last.0.text, text) then [last] else []
  }

  function FoundBy(reports: seq<Reported>, det: string): seq<Match> {
    if reports == [] then []
    else
      var last := reports[|reports| - 1];
      FoundBy(reports[..|reports| - 1], det) + if det in last.1 then [last.0] else []
  }

  /** What is prewarmed for one text. */
  function TextSynth(entry: VaultEntry, text: string): seq<Reported>
    requires entry.surrogates.Valid()
  {
    PresentIn(Synth(entry), text)
  }

  function DetectorWrites(matches: seq<Reported>, text: string, detectors: seq<Active>): seq<Write> {
    if detectors == [] then []
    else
      var last := detectors[|detectors| - 1];
      DetectorWrites(matches, text, detectors[..|detectors| - 1])
      + [DetectorWrite(last, text, FoundBy(matches, last.name))]
  }

  function WritesFor(entry: VaultEntry, text: string, pipelineCache: bool, detectors: seq<Active>): seq<Write>
    requires entry.surrogates.Valid()
  {
    if Blank(text) then []
    else
      var matches := TextSynth(entry, text);
      (if pipelineCache then [PipelineWrite(text, entry.detectorMode, entry.kwargs, matches)] else [])
      + DetectorWrites(matches, text, detectors)
  }

  function AllWrites(entry: VaultEntry, outbound: seq<string>, pipelineCache: bool, detectors: seq<Active>): seq<Write>
    requires entry.surrogates.Valid()
  {
    if outbound == [] then []
    else
      AllWrites(entry, outbound[..|outbound| - 1], pipelineCache, detectors)
      + WritesFor(entry, outbound[|outbound| - 1], pipelineCache, detectors)
  }

  /** The one list of synthesised matches that all texts share. */
  method Synthesise(entry: VaultEntry) returns (synth: seq<Reported>)
    requires entry.surrogates.Valid()
    ensures synth == Synth(entry)
  {
    synth := [];
    ghost var all := Synth(entry);
    for n := 0 to |entry.surrogates.keys|
      invariant |synth| == n && forall j :: 0 <= j < n ==> synth[j] == all[j]
    {
      synth := synth + [SynthOne(entry.surrogates.vals[entry.surrogates.keys[n]])];
    }
  }

  lemma DetectorWritesNext(matches: seq<Reported>, text: string, active: seq<Active>, j: nat)
    requires j < |active|
    ensures DetectorWrites(matches, text, active[..j + 1])
            == DetectorWrites(matches, text, active[..j])
               + [DetectorWrite(active[j], text, FoundBy(matches, active[j].name))]
  {
    assert active[..j + 1][..j] == active[..j];
  }

  /** The writes for one text: its pipeline slot, then one slot per detector. */
  method PrewarmText(entry: VaultEntry, text: string, synth: seq<Reported>, pipelineCache: bool, active: seq<Active>)
    returns (writes: seq<Write>)
    requires entry.surrogates.Valid() && synth == Synth(entry)
    ensures writes == WritesFor(entry, text, pipelineCache, active)
  {
    writes := [];
    if Blank(text) { return; }
    var textSynth := PresentIn(synth, text);
    if pipelineCache {
      writes := [PipelineWrite(text, entry.detectorMode, entry.kwargs, textSynth)];
    }
    ghost var before := writes;
    for j := 0 to |active|
      invariant writes == before + DetectorWrites(textSynth, text, active[..j])
    {
      DetectorWritesNext(textSynth, text, active, j);
      writes := writes + [DetectorWrite(active[j], text, FoundBy(textSynth, active[j].name))];
    }
    assert active[..|active|] == active;
  }

  /** `_prewarm_caches`.  `detectors` are the active detectors whose own cache is
      enabled; those absent from the entry's kwargs are skipped. */
  method PrewarmCaches(outbound: seq<string>, entry: VaultEntry, pipelineCache: bool, detectors: seq<string>)
    returns (writes: seq<Write>)
    requires entry.surrogates.Valid()
    ensures entry.IsEmpty() ==> writes == []
    ensures !entry.IsEmpty() ==> writes == AllWrites(entry, outbound, pipelineCache, WithKwargs(entry, detectors))
  {
    writes := [];
    if entry.IsEmpty() { return; }
    var synth := Synthesise(entry);
    var active := WithKwargs(entry, detectors);
    for i := 0 to |outbound|
      invariant writes == AllWrites(entry, outbound[..i], pipelineCache, active)
    {
      assert outbound[..i + 1][..i] == outbound[..i];
      var more := PrewarmText(entry, outbound[i], synth, pipelineCache, active);
      writes := writes + more;
    }
    assert outbound[..|outbound|] == outbound;
  }

  function WithKwargs(entry: VaultEntry, detectors: seq<string>): seq<Active> {
    if detectors == [] then []
    else
      var last, known := detectors[|detectors| - 1], KwargsByDetector(entry.kwargs).vals;
      WithKwargs(entry, detectors[..|detectors| - 1]) + if last in known then [Active(last, known[last])] else []
  }

  // ---- What a prewarmed slot holds ----

  lemma {:induction false} PresentInIs(reports: seq<Reported>, text: string, r: Reported)
    ensures r in PresentIn(reports, text) <==> r in reports && Occurs(r.0.text, text)
  {
    if reports == [] {
    } else {
      PresentInIs(reports[..|reports| - 1], text, r);
      assert reports == reports[..|reports| - 1] + [reports[|reports| - 1]];
    }
  }

  lemma {:induction false} PresentInSplit(a: seq<Reported>, b: seq<Reported>, text: string)
    ensures PresentIn(a + b, text) == PresentIn(a, text) + PresentIn(b, text)
  {
    if b == [] {
      assert a + b == a;
    } else {
      assert (a + b)[..|a + b| - 1] == a + b[..|b| - 1];
      PresentInSplit(a, b[..|b| - 1], text);
    }
  }

  lemma {:induction false} FoundBySplit(a: seq<Reported>, b: seq<Reported>, det: string)
    ensures FoundBy(a + b, det) == FoundBy(a, det) + FoundBy(b, det)
  {
    if b == [] {
      assert a + b == a;
    } else {
      assert (a + b)[..|a + b| - 1] == a + b[..|b| - 1];
      FoundBySplit(a, b[..|b| - 1], det);
    }
  }

  /** A slot keeps the order of the vault entry and repeats nothing. */
  lemma SlotAround(before: seq<Reported>, r: Reported, after: seq<Reported>, text: string, det: string)
    ensures PresentIn(before + [r] + after, text)
         == PresentIn(before, text) + (if Occurs(r.0.text, text) then [r] else []) + PresentIn(after, text)
    ensures FoundBy(before + [r] + after, det)
         == FoundBy(before, det) + (if det in r.1 then [r.0] else []) + FoundBy(after, det)
  {
    PresentInSplit(before + [r], after, text);
    PresentInSplit(before, [r], text);
    FoundBySplit(before + [r], after, det);
    FoundBySplit(before, [r], det);
  }

  lemma {:induction false} FoundByIs(reports: seq<Reported>, det: string, m: Match)
    ensures m in FoundBy(reports, det) <==> exists srcs :: (m, srcs) in reports && det in srcs
  {
    if reports == [] {
    } else {
      var n := |reports| - 1;
      FoundByIs(reports[..n], det, m);
      assert reports == reports[..n] + [reports[n]];
      if m in FoundBy(reports[..n], det) {
        var srcs :| (m, srcs) in reports[..n] && det in srcs;
        assert (m, srcs) in reports;
      } else if reports[n].0 == m && det in reports[n].1 {
        assert (m, reports[n].1) in reports;
      }
    }
  }

  lemma {:induction false} DetectorWritesAre(matches: seq<Reported>, text: string, detectors: seq<Active>, w: Write)
    ensures w in DetectorWrites(matches, text, detectors) <==>
              && w.DetectorWrite? && w.detector in detectors && w.text == text
              && w.matches == FoundBy(matches, w.detector.name)
  {
    if detectors == [] {
    } else {
      var n := |detectors| - 1;
      DetectorWritesAre(matches, text, detectors[..n], w);
      assert detectors == detectors[..n] + [detectors[n]];
    }
  }

  /** This is what one text has prewarmed. */
  ghost predicate Prewarms(entry: VaultEntry, pipelineCache: bool, detectors: seq<Active>, text: string, w: Write)
    requires entry.surrogates.Valid()
  {
    && !Blank(text) && w.text == text
    && match w
       case PipelineWrite(_, mode, kwargs, reported) =>
         pipelineCache && mode == entry.detectorMode && kwargs == entry.kwargs && reported == TextSynth(entry, text)
       case DetectorWrite(det, _, matches) =>
         det in detectors && matches == FoundBy(TextSynth(entry, text), det.name)
  }

  lemma WritesForAre(entry: VaultEntry, text: string, pipelineCache: bool, detectors: seq<Active>, w: Write)
    requires entry.surrogates.Valid()
    ensures w in WritesFor(entry, text, pipelineCache, detectors)
            <==> Prewarms(entry, pipelineCache, detectors, text, w)
  {
    DetectorWritesAre(TextSynth(entry, text), text, detectors, w);
  }

  /** Every visible text gets its pipeline slot and a slot for each detector, and
      nothing else is written. */
  lemma {:induction false} WritesAre(entry: VaultEntry, outbound: seq<string>, pipelineCache: bool,
                                     detectors: seq<Active>, w: Write)
    requires entry.surrogates.Valid()
    ensures w in AllWrites(entry, outbound, pipelineCache, detectors)
            <==> w.text in outbound && Prewarms(entry, pipelineCache, detectors, w.text, w)
  {
    if outbound == [] {
    } else {
      var n := |outbound| - 1;
      WritesAre(entry, outbound[..n], pipelineCache, detectors, w);
      WritesForAre(entry, outbound[n], pipelineCache, detectors, w);
      assert outbound == outbound[..n] + [outbound[n]];
    }
  }

  function VisibleTexts(outbound: seq<string>): nat {
    if outbound == [] then 0
    else VisibleTexts(outbound[..|outbound| - 1]) + if Blank(outbound[|outbound| - 1]) then 0 else 1
  }

  lemma {:induction false} DetectorWritesCount(matches: seq<Reported>, text: string, detectors: seq<Active>)
    ensures |DetectorWrites(matches, text, detectors)| == |detectors|
  {
    if detectors == [] {
    } else {
      DetectorWritesCount(matches, text, detectors[..|detectors| - 1]);
    }
  }

  lemma WritesForCount(entry: VaultEntry, text: string, pipelineCache: bool, detectors: seq<Active>)
    requires entry.surrogates.Valid()
    ensures |WritesFor(entry, text, pipelineCache, detectors)|
         == if Blank(text) then 0 else (if pipelineCache then 1 else 0) + |detectors|
  {
    DetectorWritesCount(TextSynth(entry, text), text, detectors);
  }

  lemma OneMoreTime(n: nat, each: nat)
    ensures (n + 1) * each == n * each + each
  {}

  /** No slot is written twice for one occurrence of a text. */
  lemma {:induction false} WritesCount(entry: VaultEntry, outbound: seq<string>, pipelineCache: bool,
                                       detectors: seq<Active>, each: nat)
    requires entry.surrogates.Valid() && each == (if pipelineCache then 1 else 0) + |detectors|
    ensures |AllWrites(entry, outbound, pipelineCache, detectors)| == VisibleTexts(outbound) * each
  {
    if outbound == [] {
    } else {
      var n := |outbound| - 1;
      WritesCount(entry, outbound[..n], pipelineCache, detectors, each);
      WritesForCount(entry, outbound[n], pipelineCache, detectors);
      OneMoreTime(VisibleTexts(outbound[..n]), each);
    }
  }

  /** All matches of a request came out of the normalising constructor. */
  ghost predicate AllNormal(l: Ledger) {
    forall t :: t in l.found.vals ==> Normal(l.found.vals[t])
  }

  /** A surrogate of the entry stands for the match its original was found as. */
  lemma SynthAt(rev: OrderedDict<string, string>, l: Ledger, settings: Settings, i: nat)
    requires rev.Valid() && l.Valid() && AllNormal(l)
    requires (forall k :: k in rev.vals ==> rev.vals[k] in l.sources) && i < |rev.keys|
    ensures EntryFrom(rev, l, settings).surrogates.Valid() && rev.keys[i] in rev.vals
    ensures var t := rev.vals[rev.keys[i]];
            Synth(EntryFrom(rev, l, settings))[i] == (l.found.vals[t], l.sources[t]) && l.found.vals[t].text == t
  {}

  /** Synthesising from the entry gives back the ledger of the request. */
  lemma SynthFromLedger(mapping: OrderedDict<string, string>, l: Ledger, settings: Settings, r: Reported)
    requires mapping.Valid() && Injective(mapping.vals) && l.Valid() && mapping.vals.Keys == l.sources.Keys
    requires AllNormal(l)
    ensures EntryFor(mapping, l, settings).surrogates.Valid()
    ensures r in Synth(EntryFor(mapping, l, settings)) <==>
              r.0.text in l.sources && r == (l.found.vals[r.0.text], l.sources[r.0.text])
  {
    EntryReverses(mapping, l, settings);
    ReverseKeepsAll(mapping);
    var rev, synth := Reverse(mapping), Synth(EntryFor(mapping, l, settings));
    if r in synth {
      var i :| 0 <= i < |synth| && synth[i] == r;
      SynthAt(rev, l, settings, i);
    }
    if r.0.text in l.sources {
      var s := SurrogateOf(mapping, r.0.text);
      var i :| 0 <= i < |rev.keys| && rev.keys[i] == s;
      SynthAt(rev, l, settings, i);
    }
  }

  lemma SurrogateOf(mapping: OrderedDict<string, string>, text: string) returns (s: string)
    requires mapping.Valid() && Injective(mapping.vals) && text in mapping.vals.Keys
    ensures s in Reverse(mapping).keys && s in Reverse(mapping).vals && Reverse(mapping).vals[s] == text
  {
    ReverseKeepsAll(mapping);
    s := mapping.vals[text];
    assert s in Reverse(mapping).vals.Keys;
  }

  /** The request whose entry is prewarmed, as its detectors reported it. */
  ghost predicate Ledgered(l: Ledger, mapping: OrderedDict<string, string>) {
    && l.Valid() && AllNormal(l)
    && mapping.Valid() && Injective(mapping.vals) && mapping.vals.Keys == l.sources.Keys
  }

  lemma PresentReports(l: Ledger, mapping: OrderedDict<string, string>, settings: Settings, text: string, r: Reported)
    requires Ledgered(l, mapping)
    ensures EntryFor(mapping, l, settings).surrogates.Valid()
    ensures r in TextSynth(EntryFor(mapping, l, settings), text) <==>
              Occurs(r.0.text, text) && r.0.text in l.sources && r == (l.found.vals[r.0.text], l.sources[r.0.text])
  {
    SynthFromLedger(mapping, l, settings, r);
    PresentInIs(Synth(EntryFor(mapping, l, settings)), text, r);
  }

  /** The slot prewarmed for a detector and a text holds exactly the originals
      that occur in the text and that this detector reported, as the match that
      was reported first in the request. */
  lemma DetectorSlotIs(perText: seq<seq<Detection>>, merged: seq<Detection>, mapping: OrderedDict<string, string>,
                       settings: Settings, outbound: seq<string>, pipelineCache: bool, detectors: seq<Active>,
                       w: Write, m: Match)
    requires Ledgered(RecordAll(Flatten(ResultsOf(perText, merged))), mapping)
    ensures var l := RecordAll(Flatten(ResultsOf(perText, merged)));
            var entry := EntryFor(mapping, l, settings);
            && entry.surrogates.Valid()
            && (w in AllWrites(entry, outbound, pipelineCache, detectors) && w.DetectorWrite? ==>
                  (m in w.matches <==>
                     Occurs(m.text, w.text) && ReportedBy(perText, merged, m.text, w.detector.name)
                     && m.text in l.sources && m == l.found.vals[m.text]))
  {
    var l := RecordAll(Flatten(ResultsOf(perText, merged)));
    var entry := EntryFor(mapping, l, settings);
    PresentReports(l, mapping, settings, w.text, (m, []));
    WritesAre(entry, outbound, pipelineCache, detectors, w);
    if w.DetectorWrite? {
      var present := TextSynth(entry, w.text);
      FoundByIs(present, w.detector.name, m);
      SourcesAreReporters(perText, merged, m.text);
      if srcs :| (m, srcs) in present && w.detector.name in srcs {
        PresentReports(l, mapping, settings, w.text, (m, srcs));
      }
      if m.text in l.sources { PresentReports(l, mapping, settings, w.text, (m, l.sources[m.text])); }
    }
  }

  /** The pipeline slot of a text is keyed by the entry's mode and arguments and
      holds exactly the reports of the request whose originals occur in it. */
  lemma PipelineSlotIs(l: Ledger, mapping: OrderedDict<string, string>, settings: Settings, outbound: seq<string>,
                       pipelineCache: bool, detectors: seq<Active>, w: Write, r: Reported)
    requires Ledgered(l, mapping)
    ensures var entry := EntryFor(mapping, l, settings);
            && entry.surrogates.Valid()
            && (w in AllWrites(entry, outbound, pipelineCache, detectors) && w.PipelineWrite? ==>
                  && w.detectorMode == settings.detectorMode && w.kwargs == settings.kwargs
                  && (r in w.reported <==>
                        Occurs(r.0.text, w.text) && r.0.text in l.sources
                        && r == (l.found.vals[r.0.text], l.sources[r.0.text])))
  {
    PresentReports(l, mapping, settings, w.text, r);
    WritesAre(EntryFor(mapping, l, settings), outbound, pipelineCache, detectors, w);
  }

  // ---- The arguments in a detector's cache key ----

  lemma {:induction false} WithKwargsAre(entry: VaultEntry, detectors: seq<string>, a: Active)
    ensures var known := KwargsByDetector(entry.kwargs).vals;
            a in WithKwargs(entry, detectors) <==> a.name in detectors && a.name in known && a.kwargs == known[a.name]
  {
    if detectors == [] {
    } else {
      var n := |detectors| - 1;
      WithKwargsAre(entry, detectors[..n], a);
      assert detectors == detectors[..n] + [detectors[n]];
    }
  }

  lemma {:induction false} WithKwargsSplit(entry: VaultEntry, a: seq<string>, b: seq<string>)
    ensures WithKwargs(entry, a + b) == WithKwargs(entry, a) + WithKwargs(entry, b)
  {
    if b == [] {
      assert a + b == a;
    } else {
      assert (a + b)[..|a + b| - 1] == a + b[..|b| - 1];
      WithKwargsSplit(entry, a, b[..|b| - 1]);
    }
  }

  /** Each detector that the entry has arguments for once, in order, and no other. */
  lemma WithKwargsAround(entry: VaultEntry, before: seq<string>, name: string, after: seq<string>)
    ensures var known := KwargsByDetector(entry.kwargs).vals;
            WithKwargs(entry, before + [name] + after)
            == WithKwargs(entry, before) + (if name in known then [Active(name, known[name])] else [])
               + WithKwargs(entry, after)
  {
    WithKwargsSplit(entry, before + [name], after);
    WithKwargsSplit(entry, before, [name]);
  }

  lemma SortedKeysDistinct(d: OrderedDict<string, Value>)
    requires d.Valid()
    ensures Distinct(Sort(LexLe, d.keys))
  {
    var keys := Sort(LexLe, d.keys);
    forall i, j | 0 <= i < j < |keys|
      ensures keys[i] != keys[j]
    {
      DistinctBag(d.keys, keys[i]);
      if keys[i] == keys[j] { TwiceInBag(keys, i, j); }
    }
  }

  lemma TwiceInBag(s: seq<string>, i: nat, j: nat)
    requires i < j < |s| && s[i] == s[j]
    ensures multiset(s)[s[i]] >= 2
  {
    assert s == s[..j] + s[j..];
    assert s[i] in s[..j] && s[i] in s[j..];
  }

  /** The dict rebuilt from pairs with distinct names holds each pair. */
  lemma AsDictAt(pairs: FrozenKwargs, i: nat)
    requires i < |pairs| && forall j, k :: 0 <= j < k < |pairs| ==> pairs[j].0 != pairs[k].0
    ensures pairs[i].0 in AsDict(pairs).vals && AsDict(pairs).vals[pairs[i].0] == pairs[i].1
  {
    FromItemsAt(seq(|pairs|, i requires 0 <= i < |pairs| => pairs[i].0),
                seq(|pairs|, i requires 0 <= i < |pairs| => pairs[i].1), i);
  }

  /** And nothing else. */
  lemma AsDictIs(pairs: FrozenKwargs, names: seq<string>)
    requires |names| == |pairs| && Distinct(names) && forall i :: 0 <= i < |pairs| ==> pairs[i].0 == names[i]
    ensures AsDict(pairs).Valid()
    ensures forall k :: k in AsDict(pairs).vals <==> k in names
  {
    var keys := seq(|pairs|, i requires 0 <= i < |pairs| => pairs[i].0);
    assert keys == names;
    FromItemsIs(keys, seq(|pairs|, i requires 0 <= i < |pairs| => pairs[i].1));
  }

  lemma FrozenNames(raw: OrderedDict<string, Value>)
    requires raw.Valid() && FreezeKwargsSpec(raw).Ok?
    ensures var names, pairs := Sort(LexLe, raw.keys), FreezeKwargsSpec(raw).value;
            && |names| == |pairs| && Distinct(names)
            && forall i :: 0 <= i < |pairs| ==> pairs[i].0 == names[i]
  {
    SortedKeysDistinct(raw);
    forall i | 0 <= i < |raw.keys|
      ensures FreezeKwargsSpec(raw).value[i].0 == Sort(LexLe, raw.keys)[i]
    {
      PairsAt(raw, i);
    }
  }

  /** The dict rebuilt from frozen pairs holds the frozen arguments. */
  lemma RebuiltIs(raw: OrderedDict<string, Value>, k: string)
    requires raw.Valid() && FreezeKwargsSpec(raw).Ok?
    ensures var d := AsDict(FreezeKwargsSpec(raw).value);
            && d.Valid() && (k in d.vals <==> k in raw.vals)
            && (k in raw.vals ==> FreezeValue(raw.vals[k]) == Ok(d.vals[k]))
  {
    FrozenNames(raw);
    AsDictIs(FreezeKwargsSpec(raw).value, Sort(LexLe, raw.keys));
    if k in raw.vals {
      var i := SortedIndex(raw, k);
      PairsAt(raw, i);
      AsDictAt(FreezeKwargsSpec(raw).value, i);
    }
  }

  /** A detector's slot is keyed by exactly the arguments the request gave the
      detector, frozen. */
  lemma {:induction false} SlotArgumentsAre(active: seq<Detector>, raw: seq<OrderedDict<string, Value>>,
                                            entry: VaultEntry, detectors: seq<string>, i: nat, a: Active, k: string)
    requires Distinct(Names(active)) && ArgumentDicts(active, raw) && i < |active|
    requires CallKwargs(active, raw, |active|) == Ok(entry.kwargs)
    requires a in WithKwargs(entry, detectors) && a.name == active[i].name
    ensures k in a.kwargs.vals <==> k in raw[i].vals
    ensures k in raw[i].vals ==> FreezeValue(raw[i].vals[k]) == Ok(a.kwargs.vals[k])
  {
    var kwargs := entry.kwargs;
    var names := seq(|kwargs|, j requires 0 <= j < |kwargs| => kwargs[j].0);
    var dicts := seq(|kwargs|, j requires 0 <= j < |kwargs| => AsDict(kwargs[j].1));
    forall j | 0 <= j < |active|
      ensures names[j] == Names(active)[j]
    {
      CallKwargsAre(active, raw, |active|, j);
    }
    assert names == Names(active);
    WithKwargsAre(entry, detectors, a);
    FromItemsAt(names, dicts, i);
    CallKwargsAre(active, raw, |active|, i);
    RebuiltIs(raw[i], k);
  }
}
