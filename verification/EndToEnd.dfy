/** What a whole request promises: nothing is lost on the way out, the reply is
    restored exactly, and every original is attributed to its reporters. */
module EndToEnd {
  import opened Attribution
  import opened Deanonymize
  import opened Guardrails
  import opened Matches
  import opened MemoryVaults
  import opened OrderedDicts
  import opened Pipelines
  import opened Replacer
  import opened RoundTrip
  import opened Surrogates
  import opened Texts
  import opened Tokens
  import opened Vault

  // ---- Nothing is lost ----

  lemma RequestKeysDistinct(useFaker: bool, settings: Settings, l: Ledger)
    requires l.Valid()
    ensures Distinct(KeysFor(useFaker, settings, l))
  {}

  /** With distinct surrogates the reversed mapping has an entry per original. */
  lemma DistinctRunReverses(o: Oracle, max: nat, m: Memory, useFaker: bool, settings: Settings, l: Ledger)
    requires l.Valid() && Distinct(Run(o, max, m, KeysFor(useFaker, settings, l)).1)
    ensures var mapping := MappingSpec(o, max, m, useFaker, settings, l).1;
            mapping.Valid() && Injective(mapping.vals) && |Reverse(mapping).keys| == |l.found.keys|
  {
    var mapping := MappingSpec(o, max, m, useFaker, settings, l).1;
    var r := Run(o, max, m, KeysFor(useFaker, settings, l)).1;
    MappingIs(o, max, m, useFaker, settings, l);
    forall i | 0 <= i < |r|
      ensures mapping.vals[mapping.keys[i]] == r[i]
    {
      FromItemsAt(l.found.keys, r, i);
    }
    DistinctIsInjective(mapping);
    ReverseKeepsAll(mapping);
  }

  /** From any sound state of the generator, a request of up to `max + 1`
      originals whose calls are fresh loses no vault entry. */
  lemma RequestLosesNothing(o: Oracle, max: nat, m: Memory, useFaker: bool, settings: Settings, l: Ledger)
    requires 1 <= max && Sound(max, m) && l.Valid() && |l.found.keys| <= max + 1
    requires FreshRun(o, max, m, KeysFor(useFaker, settings, l))
    ensures var mapping := MappingSpec(o, max, m, useFaker, settings, l).1;
            mapping.Valid() && Injective(mapping.vals) && |Reverse(mapping).keys| == |l.found.keys|
  {
    RequestKeysDistinct(useFaker, settings, l);
    NoSurrogateLost(o, max, m, KeysFor(useFaker, settings, l));
    DistinctRunReverses(o, max, m, useFaker, settings, l);
  }

  // ---- The reply comes back ----

  /** A request in opaque mode, by its override or by default, of a size the cache
      can bear, after any calls that left the cache sound: no two of its seeds
      collide, and no other cached entity holds the fallback token of one of its
      originals.  Detectors return matches of canonical types. */
  ghost predicate OpaqueRequest(o: Oracle, max: nat, history: seq<CacheKey>, useFaker: bool, settings: Settings,
                                reports: seq<Reported>)
  {
    var l := LedgerOf(reports);
    var keys := set k | k in KeysFor(useFaker, settings, l);
    && 1 <= max && |l.found.keys| <= max + 1
    && !FakerMode(useFaker, settings.useFaker)
    && (forall i :: 0 <= i < |reports| ==> reports[i].0.entityType in ENTITY_TYPES)
    && SeedsDiffer(o, keys)
    && Sound(max, MemoryAfter(o, max, history)) && TokensFree(o, MemoryAfter(o, max, history), keys)
  }

  /** Then every call is made in opaque mode. */
  lemma OpaqueKeys(o: Oracle, max: nat, history: seq<CacheKey>, useFaker: bool, settings: Settings,
                   reports: seq<Reported>, t: string)
    requires OpaqueRequest(o, max, history, useFaker, settings, reports) && t in LedgerOf(reports).found.vals
    ensures OpaqueKey(KeyFor(useFaker, LedgerOf(reports).found.vals[t], settings.useFaker, settings.locale))
  {
    KeptWasReported(reports, t);
    KeyIsOpaqueIff(useFaker, LedgerOf(reports).found.vals[t], settings.useFaker, settings.locale);
  }

  lemma OpaqueRequestIsReady(o: Oracle, max: nat, history: seq<CacheKey>, useFaker: bool, settings: Settings,
                             reports: seq<Reported>)
    requires OpaqueRequest(o, max, history, useFaker, settings, reports)
    ensures OpaqueReady(o, max, history, KeysFor(useFaker, settings, LedgerOf(reports)))
  {
    var l := LedgerOf(reports);
    var keys := KeysFor(useFaker, settings, l);
    forall i | 0 <= i < |keys|
      ensures OpaqueKey(keys[i])
    {
      OpaqueKeys(o, max, history, useFaker, settings, reports, l.found.keys[i]);
    }
  }

  /** original -> surrogate for what was found, after `history`. */
  function MappingAfter(o: Oracle, max: nat, history: seq<CacheKey>, useFaker: bool, settings: Settings, l: Ledger)
    : OrderedDict<string, string>
    requires l.Valid()
  {
    MappingSpec(o, max, MemoryAfter(o, max, history), useFaker, settings, l).1
  }

  lemma OpaqueMapping(o: Oracle, max: nat, history: seq<CacheKey>, useFaker: bool, settings: Settings,
                      reports: seq<Reported>)
    requires OpaqueRequest(o, max, history, useFaker, settings, reports)
    ensures var l := LedgerOf(reports);
            var mapping := MappingAfter(o, max, history, useFaker, settings, l);
            && mapping.Valid() && Injective(mapping.vals) && mapping.keys == l.found.keys
            && mapping.vals.Keys == l.sources.Keys
            && forall t :: t in mapping.vals ==>
                 && Bracketed(mapping.vals[t])
                 && OpaqueShape(o, KeyFor(useFaker, l.found.vals[t], settings.useFaker, settings.locale),
                                mapping.vals[t])
  {
    var l := LedgerOf(reports);
    var keys, m := KeysFor(useFaker, settings, l), MemoryAfter(o, max, history);
    RequestKeysDistinct(useFaker, settings, l);
    OpaqueRequestIsReady(o, max, history, useFaker, settings, reports);
    OpaqueRequestLosesNothing(o, max, history, keys);
    DistinctRunReverses(o, max, m, useFaker, settings, l);
    MappingIs(o, max, m, useFaker, settings, l);
    var mapping, r := MappingAfter(o, max, history, useFaker, settings, l), Run(o, max, m, keys).1;
    forall t | t in mapping.vals
      ensures Bracketed(mapping.vals[t])
      ensures OpaqueShape(o, KeyFor(useFaker, l.found.vals[t], settings.useFaker, settings.locale), mapping.vals[t])
    {
      var i :| 0 <= i < |mapping.keys| && mapping.keys[i] == t;
      FromItemsAt(l.found.keys, r, i);
      assert mapping.vals[t] == r[i] && r[i] in r;
      assert OpaqueShape(o, keys[i], r[i]);
    }
  }

  lemma EntryReverses(mapping: OrderedDict<string, string>, l: Ledger, settings: Settings)
    requires mapping.Valid() && l.Valid() && mapping.vals.Keys == l.sources.Keys
    ensures EntryFor(mapping, l, settings).surrogates.Valid()
    ensures FlatMapping(EntryFor(mapping, l, settings)) == Reverse(mapping)
  {
    ReverseKeepsAll(mapping);
    EntryIsValid(Reverse(mapping), l, settings);
  }

  lemma TextsComeBack(mapping: OrderedDict<string, string>, rev: OrderedDict<string, string>, texts: seq<string>)
    requires mapping.Valid() && Injective(mapping.vals) && rev == Reverse(mapping)
    requires forall t :: t in mapping.vals ==> Bracketed(mapping.vals[t])
    requires forall t, i :: t in mapping.vals && 0 <= i < |texts| ==> !Occurs(mapping.vals[t], texts[i])
    ensures rev.Valid() && ReplaceAll(rev, ReplaceAll(mapping, texts)) == texts
  {
    ReverseKeepsAll(mapping);
    forall i | 0 <= i < |texts|
      ensures Replace(rev, Replace(mapping, texts[i])) == texts[i]
    {
      RoundTrip.RoundTrip(mapping, texts[i]);
    }
  }

  /** Nothing was found: nothing is replaced, and nothing needs restoring. */
  lemma EmptyMapping(mapping: OrderedDict<string, string>, rev: OrderedDict<string, string>, texts: seq<string>)
    requires mapping.Valid() && Injective(mapping.vals) && rev == Reverse(mapping) && rev.keys == []
    ensures ReplaceAll(mapping, texts) == texts
  {
    ReverseKeepsAll(mapping);
    assert |mapping.keys| == 0;
  }

  lemma RestoreIs(substitute: bool, entry: VaultEntry, rev: OrderedDict<string, string>, texts: seq<string>)
    requires entry.surrogates.Valid() && rev.Valid() && FlatMapping(entry) == rev && substitute
    ensures Restore(substitute, entry, texts) == if rev.keys == [] then texts else ReplaceAll(rev, texts)
  {}

  lemma MappingRestores(mapping: OrderedDict<string, string>, l: Ledger, settings: Settings, texts: seq<string>)
    requires mapping.Valid() && Injective(mapping.vals) && l.Valid() && mapping.vals.Keys == l.sources.Keys
    requires forall t :: t in mapping.vals ==> Bracketed(mapping.vals[t])
    requires forall t, i :: t in mapping.vals && 0 <= i < |texts| ==> !Occurs(mapping.vals[t], texts[i])
    ensures EntryFor(mapping, l, settings).surrogates.Valid()
    ensures Restore(true, EntryFor(mapping, l, settings), ReplaceAll(mapping, texts)) == texts
  {
    var rev := Reverse(mapping);
    EntryReverses(mapping, l, settings);
    TextsComeBack(mapping, rev, texts);
    RestoreIs(true, EntryFor(mapping, l, settings), rev, ReplaceAll(mapping, texts));
    if rev.keys == [] { EmptyMapping(mapping, rev, texts); }
  }

  /** End to end: in opaque mode, after any such calls, whatever was detected, the
      texts a client sent come back exactly when the model echoes what it was
      given, provided no text mentioned an issued surrogate to begin with. */
  lemma RequestComesBack(o: Oracle, max: nat, history: seq<CacheKey>, useFaker: bool, settings: Settings,
                         reports: seq<Reported>, texts: seq<string>)
    requires OpaqueRequest(o, max, history, useFaker, settings, reports)
    requires var mapping := MappingAfter(o, max, history, useFaker, settings, LedgerOf(reports));
             forall t, i :: t in mapping.vals && 0 <= i < |texts| ==> !Occurs(mapping.vals[t], texts[i])
    ensures var l := LedgerOf(reports);
            var mapping := MappingAfter(o, max, history, useFaker, settings, l);
            && mapping.Valid() && mapping.vals.Keys == l.sources.Keys
            && EntryFor(mapping, l, settings).surrogates.Valid()
            && Restore(true, EntryFor(mapping, l, settings), ReplaceAll(mapping, texts)) == texts
  {
    var l := LedgerOf(reports);
    OpaqueMapping(o, max, history, useFaker, settings, reports);
    MappingRestores(MappingAfter(o, max, history, useFaker, settings, l), l, settings, texts);
  }

  /** This original got the token of the last resort. */
  predicate UsedFallback(o: Oracle, useFaker: bool, settings: Settings, m: Match, surrogate: string) {
    var key := KeyFor(useFaker, m, settings.useFaker, settings.locale);
    surrogate == FallbackToken(key.entityType, SeedFor(o, key))
  }

  lemma MappingStreams(o: Oracle, useFaker: bool, mapping: OrderedDict<string, string>, l: Ledger, settings: Settings,
                       config: Config)
    requires mapping.Valid() && l.Valid() && mapping.vals.Keys == l.sources.Keys
    requires forall t :: t in mapping.vals && t in l.found.vals ==>
               var key := KeyFor(useFaker, l.found.vals[t], settings.useFaker, settings.locale);
               && OpaqueKey(key) && OpaqueShape(o, key, mapping.vals[t])
               && !UsedFallback(o, useFaker, settings, l.found.vals[t], mapping.vals[t])
    ensures StreamSafe(config, EntryFor(mapping, l, settings))
  {
    ReverseKeepsAll(mapping);
    forall s | s in Reverse(mapping).vals
      ensures TokenWaits(s)
    {
      var t := Reverse(mapping).vals[s];
      assert t in mapping.vals.Keys && t in l.found.vals.Keys;
      ShapeIsBracketed(o, KeyFor(useFaker, l.found.vals[t], settings.useFaker, settings.locale), s);
    }
  }

  /** No original of the request got the token of the last resort. */
  predicate NoFallback(o: Oracle, useFaker: bool, settings: Settings, l: Ledger, mapping: OrderedDict<string, string>) {
    forall t :: t in mapping.vals && t in l.found.vals ==>
      !UsedFallback(o, useFaker, settings, l.found.vals[t], mapping.vals[t])
  }

  /** If moreover no fallback token had to be used, the entry streams safely. */
  lemma RequestStreams(o: Oracle, max: nat, history: seq<CacheKey>, useFaker: bool, settings: Settings,
                       reports: seq<Reported>, config: Config)
    requires var l := LedgerOf(reports);
             && OpaqueRequest(o, max, history, useFaker, settings, reports)
             && NoFallback(o, useFaker, settings, l, MappingAfter(o, max, history, useFaker, settings, l))
    ensures var l := LedgerOf(reports);
            var mapping := MappingAfter(o, max, history, useFaker, settings, l);
            && mapping.Valid() && mapping.vals.Keys == l.sources.Keys
            && StreamSafe(config, EntryFor(mapping, l, settings))
  {
    var l := LedgerOf(reports);
    var mapping := MappingAfter(o, max, history, useFaker, settings, l);
    OpaqueMapping(o, max, history, useFaker, settings, reports);
    forall t | t in mapping.vals && t in l.found.vals
      ensures OpaqueKey(KeyFor(useFaker, l.found.vals[t], settings.useFaker, settings.locale))
    {
      OpaqueKeys(o, max, history, useFaker, settings, reports, t);
    }
    MappingStreams(o, useFaker, mapping, l, settings, config);
  }

  /** Every reply of the stream is deferred or a prefix of `texts`, which the
      last one delivers. */
  ghost predicate Approaches(config: Config, ttl: real, cap: nat, trace: seq<Event>, id: string, calls: seq<Call>,
                             texts: seq<string>)
    requires calls != []
  {
    && (forall i :: 0 <= i < |calls| ==>
          && calls[i].events <= |trace|
          && EntrySeen(ttl, cap, trace, id, calls[i]).surrogates.Valid()
          && var reply := ReplyTo(config, ttl, cap, trace, id, calls[i]);
             reply.Wait? || Extends(Delivered(reply, calls[i].texts), texts))
    && var last := calls[|calls| - 1];
       var reply := ReplyTo(config, ttl, cap, trace, id, last);
       !reply.Wait? && Delivered(reply, last.texts) == texts
  }

  lemma StreamEndsAt(config: Config, ttl: real, cap: nat, trace: seq<Event>, id: string, entry: VaultEntry,
                     calls: seq<Call>, texts: seq<string>)
    requires 1 <= cap && entry.surrogates.Valid() && StreamSafe(config, entry) && Stream(calls) && calls != []
    requires forall i :: 0 <= i < |calls| ==> LiveAt(ttl, cap, trace, id, entry, calls[i])
    requires Restore(config.substitute, entry, calls[|calls| - 1].texts) == texts
    ensures Approaches(config, ttl, cap, trace, id, calls, texts)
  {
    StreamIsMonotone(config, ttl, cap, trace, id, entry, calls);
  }

  /** The whole way, streamed: an opaque request after any such calls, its entry
      live in the vault whatever other requests do to it meanwhile, and a reply
      that arrives in any chunks.  Everything sent extends what was sent before,
      and if the reply echoes the request the client ends up with its own texts. */
  lemma StreamedEchoComesBack(o: Oracle, max: nat, history: seq<CacheKey>, useFaker: bool, settings: Settings,
                              reports: seq<Reported>, texts: seq<string>, config: Config, ttl: real, cap: nat,
                              trace: seq<Event>, id: string, calls: seq<Call>)
    requires 1 <= cap && config.substitute && Stream(calls) && calls != []
    requires var l := LedgerOf(reports);
             var mapping := MappingAfter(o, max, history, useFaker, settings, l);
             && OpaqueRequest(o, max, history, useFaker, settings, reports)
             && NoFallback(o, useFaker, settings, l, mapping)
             && (forall t, i :: t in mapping.vals && 0 <= i < |texts| ==> !Occurs(mapping.vals[t], texts[i]))
    requires var l := LedgerOf(reports);
             var mapping := MappingAfter(o, max, history, useFaker, settings, l);
             && mapping.Valid() && mapping.vals.Keys == l.sources.Keys
             && (forall i :: 0 <= i < |calls| ==> LiveAt(ttl, cap, trace, id, EntryFor(mapping, l, settings), calls[i]))
             && calls[|calls| - 1].texts == ReplaceAll(mapping, texts)
    ensures Approaches(config, ttl, cap, trace, id, calls, texts)
  {
    var l := LedgerOf(reports);
    var mapping := MappingAfter(o, max, history, useFaker, settings, l);
    RequestComesBack(o, max, history, useFaker, settings, reports, texts);
    RequestStreams(o, max, history, useFaker, settings, reports, config);
    StreamEndsAt(config, ttl, cap, trace, id, EntryFor(mapping, l, settings), calls, texts);
  }
}
