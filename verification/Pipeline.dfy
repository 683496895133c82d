/** `Pipeline.anonymize`: from detector results to surrogates, one substitution
    pass, and the vault entry from which the reply is restored. */
module Pipelines {
  import opened Attribution
  import opened Deanonymize
  import opened Matches
  import opened MemoryVaults
  import opened OrderedDicts
  import opened RoundTrip
  import opened Surrogates
  import opened Texts
  import opened Vault
  import opened Wrappers

  /** The per-request overrides and what the vault entry records of the call. */
  datatype Settings = Settings(
    useFaker: Option<bool>, locale: Locale, detectorMode: seq<string>, kwargs: FrozenCallKwargs)

  const MERGE_SENTINEL_MARKER := "ANONYMIZER-SEGMENT-BREAK"

  /** Matches of a merged-mode detector that do not touch a segment border. */
  function MergedReports(name: string, matches: seq<Match>): seq<Reported> {
    if matches == [] then []
    else
      var last := matches[|matches| - 1];
      MergedReports(name, matches[..|matches| - 1])
      + if Occurs(MERGE_SENTINEL_MARKER, last.text) then [] else [(last, [name])]
  }

  function Flatten(results: seq<seq<Reported>>): seq<Reported> {
    if results == [] then [] else Flatten(results[..|results| - 1]) + results[|results| - 1]
  }

  lemma {:induction false} MergedSplit(name: string, a: seq<Match>, b: seq<Match>)
    ensures MergedReports(name, a + b) == MergedReports(name, a) + MergedReports(name, b)
  {
    if b == [] {
      assert a + b == a;
    } else {
      assert (a + b)[..|a + b| - 1] == a + b[..|b| - 1];
      MergedSplit(name, a, b[..|b| - 1]);
    }
  }

  /** What a merged-mode detector reports, in its order: each match once, unless it
      touches a segment border. */
  lemma MergedAround(name: string, before: seq<Match>, m: Match, after: seq<Match>)
    ensures MergedReports(name, before + [m] + after)
         == MergedReports(name, before) + (if Occurs(MERGE_SENTINEL_MARKER, m.text) then [] else [(m, [name])])
          + MergedReports(name, after)
  {
    MergedSplit(name, before + [m], after);
    MergedSplit(name, before, [m]);
  }

  lemma {:induction false} FlattenSplit(a: seq<seq<Reported>>, b: seq<seq<Reported>>)
    ensures Flatten(a + b) == Flatten(a) + Flatten(b)
  {
    if b == [] {
      assert a + b == a;
    } else {
      assert (a + b)[..|a + b| - 1] == a + b[..|b| - 1];
      FlattenSplit(a, b[..|b| - 1]);
    }
  }

  lemma {:induction false} FlattenMentions(results: seq<seq<Reported>>, text: string)
    ensures Mentions(Flatten(results), text) <==> exists r :: 0 <= r < |results| && Mentions(results[r], text)
  {
    if results == [] {
    } else {
      var n := |results| - 1;
      FlattenMentions(results[..n], text);
      MentionsPlus(Flatten(results[..n]), results[n], text);
    }
  }

  /** `results[r][j]` is the first report of its text in the request. */
  ghost predicate FirstReported(results: seq<seq<Reported>>, r: nat, j: nat) {
    && r < |results| && j < |results[r]|
    && (forall q :: 0 <= q < r ==> !Mentions(results[q], results[r][j].0.text))
    && (forall i :: 0 <= i < j ==> results[r][i].0.text != results[r][j].0.text)
  }

  function ReportedBefore(results: seq<seq<Reported>>, r: nat, j: nat): seq<Reported>
    requires r < |results| && j <= |results[r]|
  {
    Flatten(results[..r]) + results[r][..j]
  }

  lemma ReportedAround(results: seq<seq<Reported>>, r: nat, j: nat) returns (after: seq<Reported>)
    requires r < |results| && j < |results[r]|
    ensures Flatten(results) == ReportedBefore(results, r, j) + [results[r][j]] + after
  {
    assert results == results[..r + 1] + results[r + 1..];
    FlattenSplit(results[..r + 1], results[r + 1..]);
    assert results[..r + 1][..r] == results[..r];
    assert results[r] == results[r][..j] + [results[r][j]] + results[r][j + 1..];
    after := results[r][j + 1..] + Flatten(results[r + 1..]);
  }

  lemma MentionedBefore(results: seq<seq<Reported>>, r: nat, j: nat, text: string)
    requires r < |results| && j <= |results[r]|
    ensures Mentions(ReportedBefore(results, r, j), text) <==>
              || (exists q :: 0 <= q < r && Mentions(results[q], text))
              || (exists i :: 0 <= i < j && results[r][i].0.text == text)
  {
    FlattenMentions(results[..r], text);
    MentionsPlus(Flatten(results[..r]), results[r][..j], text);
    assert forall q :: 0 <= q < r ==> results[..r][q] == results[q];
    assert forall i :: 0 <= i < j ==> results[r][..j][i] == results[r][i];
  }

  /** Over the whole request: the first report of a text decides its match. */
  lemma FirstReportedIsKept(results: seq<seq<Reported>>, r: nat, j: nat)
    requires FirstReported(results, r, j)
    ensures var l, m := RecordAll(Flatten(results)), results[r][j].0;
            l.Valid() && m.text in l.found.vals && l.found.vals[m.text] == m
  {
    var after := ReportedAround(results, r, j);
    MentionedBefore(results, r, j, results[r][j].0.text);
    FirstReport(ReportedBefore(results, r, j), results[r][j], after);
  }

  /** And texts are given surrogates in the order of their first reports. */
  lemma RequestInOrder(results: seq<seq<Reported>>, r: nat, j: nat, r': nat, j': nat)
    requires FirstReported(results, r, j) && FirstReported(results, r', j') && (r < r' || (r == r' && j < j'))
    ensures Precedes(RecordAll(Flatten(results)).found.keys, results[r][j].0.text, results[r'][j'].0.text)
  {
    var text := results[r][j].0.text;
    var after := ReportedAround(results, r', j');
    MentionedBefore(results, r', j', text);
    MentionedBefore(results, r', j', results[r'][j'].0.text);
    assert r < r' ==> Mentions(results[r], text);
    FirstReportsInOrder(ReportedBefore(results, r', j'), text, results[r'][j'], after);
  }

  function KeysFor(useFaker: bool, settings: Settings, l: Ledger): seq<CacheKey>
    requires l.Valid()
  {
    seq(|l.found.keys|, i requires 0 <= i < |l.found.keys| =>
      KeyFor(useFaker, l.found.vals[l.found.keys[i]], settings.useFaker, settings.locale))
  }

  /** original -> surrogate for everything reported, in order of first report. */
  function MappingSpec(o: Oracle, max: nat, m: Memory, useFaker: bool, settings: Settings, l: Ledger)
    : (Memory, OrderedDict<string, string>)
    requires l.Valid()
  {
    var run := Run(o, max, m, KeysFor(useFaker, settings, l));
    (run.0, FromItems(l.found.keys, run.1))
  }

  /** The structured entry: the reversed mapping with type and sources. */
  function EntryFrom(rev: OrderedDict<string, string>, l: Ledger, settings: Settings): VaultEntry
    requires l.Valid() && forall s :: s in rev.vals ==> rev.vals[s] in l.sources
  {
    VaultEntry(
      OrderedDict(rev.keys, map s | s in rev.vals ::
        VaultSurrogate(rev.vals[s], l.found.vals[rev.vals[s]].entityType, l.sources[rev.vals[s]])),
      settings.detectorMode, settings.kwargs)
  }

  function EntryFor(mapping: OrderedDict<string, string>, l: Ledger, settings: Settings): VaultEntry
    requires mapping.Valid() && l.Valid() && mapping.vals.Keys == l.sources.Keys
  {
    ReverseKeepsAll(mapping);
    EntryFrom(Reverse(mapping), l, settings)
  }

  lemma EntryIsValid(rev: OrderedDict<string, string>, l: Ledger, settings: Settings)
    requires rev.Valid() && l.Valid() && forall s :: s in rev.vals ==> rev.vals[s] in l.sources
    ensures EntryFrom(rev, l, settings).surrogates.Valid()
    ensures FlatMapping(EntryFrom(rev, l, settings)) == rev
  {
    var d := EntryFrom(rev, l, settings).surrogates;
    assert d.keys == rev.keys && forall s :: s in d.vals <==> s in rev.vals;
  }

  lemma MappingIs(o: Oracle, max: nat, m: Memory, useFaker: bool, settings: Settings, l: Ledger)
    requires l.Valid()
    ensures var mapping := MappingSpec(o, max, m, useFaker, settings, l).1;
            mapping.Valid() && mapping.keys == l.found.keys && mapping.vals.Keys == l.sources.Keys
  {
    var mapping := MappingSpec(o, max, m, useFaker, settings, l).1;
    FromItemsIs(l.found.keys, Run(o, max, m, KeysFor(useFaker, settings, l)).1);
    assert forall k :: k in mapping.vals <==> k in mapping.keys;
  }

  class Pipeline {
    const surrogates: SurrogateGenerator
    const vault: MemoryVault

    constructor (surrogates: SurrogateGenerator, vault: MemoryVault)
      ensures this.surrogates == surrogates && this.vault == vault
    {
      this.surrogates, this.vault := surrogates, vault;
    }

    /** `results` are the attributed match lists, per-text ones first. */
    method Anonymize(texts: seq<string>, results: seq<seq<Reported>>, callId: Option<string>, settings: Settings,
                     now1: real, now2: real)
      returns (modified: seq<string>, reverse: OrderedDict<string, string>)
      requires surrogates.Valid() && vault.Valid()
      modifies surrogates, vault
      ensures surrogates.Valid() && vault.Valid()
      ensures RecordAll(Flatten(results)).Valid()
      ensures texts == [] ==>
                modified == [] && reverse == Empty()
                && surrogates.View() == old(surrogates.View()) && vault.store == old(vault.store)
      ensures texts != [] ==>
                var l := RecordAll(Flatten(results));
                var (memory, mapping) := MappingSpec(surrogates.oracle, surrogates.maxCacheSize,
                                                     old(surrogates.View()), surrogates.useFaker, settings, l);
                && surrogates.View() == memory
                && mapping.Valid() && mapping.vals.Keys == l.sources.Keys
                && modified == ReplaceAll(mapping, texts) && reverse == Reverse(mapping)
                && vault.store == if callId.None? then old(vault.store)
                                  else PutSpec(vault.ttl, vault.maxEntries, old(vault.store), callId.value,
                                               EntryFor(mapping, l, settings), now1, now2)
    {
      ghost var l := RecordAll(Flatten(results));
      RecordAllValid(Flatten(results));
      if texts == [] { return [], Empty(); }
      var mapping, ledger := BuildMapping(results, settings);
      MappingIs(surrogates.oracle, surrogates.maxCacheSize, old(surrogates.View()), surrogates.useFaker, settings, l);
      ReverseKeepsAll(mapping);
      reverse := Reverse(mapping);
      modified := ReplaceEach(mapping, texts);
      var entry := EntryFor(mapping, ledger, settings);
      EntryIsValid(reverse, ledger, settings);
      if reverse.keys != [] && callId.Some? {
        vault.Put(callId.value, entry, now1, now2);
      }
    }

    /** `mapping` and the generator are where the reports in `ledger` took them,
        starting from `start`. */
    ghost predicate Built(start: Memory, settings: Settings, ledger: Ledger, mapping: OrderedDict<string, string>)
      reads surrogates
    {
      && surrogates.Valid() && ledger.Valid()
      && (surrogates.View(), mapping)
      == MappingSpec(surrogates.oracle, surrogates.maxCacheSize, start, surrogates.useFaker, settings, ledger)
    }

    /** The double loop that asks for one surrogate per distinct text. */
    method BuildMapping(results: seq<seq<Reported>>, settings: Settings)
      returns (mapping: OrderedDict<string, string>, ledger: Ledger)
      requires surrogates.Valid()
      modifies surrogates
      ensures ledger == RecordAll(Flatten(results))
      ensures Built(old(surrogates.View()), settings, ledger, mapping)
    {
      ghost var start := surrogates.View();
      mapping, ledger := Empty(), Ledger(Empty(), map[]);
      for i := 0 to |results|
        invariant ledger == RecordAll(Flatten(results[..i])) && Built(start, settings, ledger, mapping)
      {
        assert results[..i + 1][..i] == results[..i];
        mapping, ledger := TakeReports(start, Flatten(results[..i]), mapping, ledger, results[i], settings);
      }
      assert results[..|results|] == results;
    }

    method TakeReports(ghost start: Memory, ghost done: seq<Reported>, mapping: OrderedDict<string, string>,
                       ledger: Ledger, reports: seq<Reported>, settings: Settings)
      returns (mapping': OrderedDict<string, string>, ledger': Ledger)
      requires ledger == RecordAll(done) && Built(start, settings, ledger, mapping)
      modifies surrogates
      ensures ledger' == RecordAll(done + reports) && Built(start, settings, ledger', mapping')
    {
      mapping', ledger' := mapping, ledger;
      assert done + reports[..0] == done;
      for j := 0 to |reports|
        invariant ledger' == RecordAll(done + reports[..j]) && Built(start, settings, ledger', mapping')
      {
        RecordNext(done, reports, j);
        mapping', ledger' := TakeReport(start, mapping', ledger', reports[j], settings);
      }
      assert reports[..|reports|] == reports;
    }

    /** One turn of the inner loop; `start` is the memory before the request. */
    method TakeReport(ghost start: Memory, mapping: OrderedDict<string, string>, ledger: Ledger, r: Reported,
                      settings: Settings)
      returns (mapping': OrderedDict<string, string>, ledger': Ledger)
      requires Built(start, settings, ledger, mapping)
      modifies surrogates
      ensures ledger' == Record(ledger, r) && Built(start, settings, ledger', mapping')
    {
      RecordValid(ledger, r);
      MappingStep(surrogates.oracle, surrogates.maxCacheSize, start, surrogates.useFaker, settings, ledger, r);
      mapping' := mapping;
      if r.0.text !in ledger.sources {
        var surrogate := surrogates.ForMatch(r.0, settings.useFaker, settings.locale);
        mapping' := mapping.Put(r.0.text, surrogate);
      }
      ledger' := Record(ledger, r);
    }
  }

  lemma RecordNext(done: seq<Reported>, reports: seq<Reported>, j: nat)
    requires j < |reports|
    ensures RecordAll(done + reports[..j + 1]) == Record(RecordAll(done + reports[..j]), reports[j])
  {
    RecordSnoc(done + reports[..j], reports[j]);
    assert done + reports[..j + 1] == (done + reports[..j]) + [reports[j]];
  }

  lemma KeysGrow(useFaker: bool, settings: Settings, l: Ledger, r: Reported)
    requires l.Valid() && Record(l, r).Valid()
    ensures Record(l, r).found.keys == l.found.keys + if r.0.text in l.sources then [] else [r.0.text]
    ensures KeysFor(useFaker, settings, Record(l, r))
         == KeysFor(useFaker, settings, l)
          + if r.0.text in l.sources then [] else [KeyFor(useFaker, r.0, settings.useFaker, settings.locale)]
  {}

  /** What one more report does to memory and mapping. */
  lemma MappingStep(o: Oracle, max: nat, m: Memory, useFaker: bool, settings: Settings, l: Ledger, r: Reported)
    requires l.Valid() && Record(l, r).Valid()
    ensures var before := MappingSpec(o, max, m, useFaker, settings, l);
            var after := MappingSpec(o, max, m, useFaker, settings, Record(l, r));
            if r.0.text in l.sources then after == before
            else
              var call := ForMatchSpec(o, max, before.0, KeyFor(useFaker, r.0, settings.useFaker, settings.locale));
              after == (call.0, before.1.Put(r.0.text, call.1))
  {
    KeysGrow(useFaker, settings, l, r);
    if r.0.text !in l.sources {
      var keys, key := KeysFor(useFaker, settings, l), KeyFor(useFaker, r.0, settings.useFaker, settings.locale);
      RunSnoc(o, max, m, keys, key);
      var run := Run(o, max, m, keys);
      FromItemsSnoc(l.found.keys, run.1, r.0.text, ForMatchSpec(o, max, run.0, key).1);
    }
  }
}
