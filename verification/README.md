# Verification of the anonymizer guardrail

A Dafny project (4.11) that models the logic of the guardrail and proves
properties of the model. `dafny verify dfyconfig.toml` checks all of it.

The guardrail sits between a client and a language model. A request's texts are
scanned by detectors; every sensitive substring (an *original*) is replaced by a
*surrogate*; the reverse mapping is kept in a *vault* under the call id; the
reply, which may arrive in chunks, has its surrogates replaced by the originals
again. The project follows that path and the algorithms it relies on:

| file | part of the system |
|---|---|
| `Replacer`, `RoundTrip` | the one-pass substitution, and substituting there and back |
| `Tokens`, `Surrogates`, `SurrogateLimits` | opaque token shapes; the surrogate cache with its set of issued surrogates; where its guarantee ends |
| `Attribution`, `FirstSeen`, `Pipeline`, `Prewarm` | deduplication with sources, what it keeps and in which order, building mapping and vault entry, seeding caches from an entry |
| `Streaming`, `Deanonymize`, `Guardrail` | the WAIT predicate, restoring a reply, the per-call decision on a stream |
| `EndToEnd` | statements across all of the above |
| `MemoryVault`, `LruCache` | the stores, over all runs and interleavings |
| `Vault`, `VaultCodec`, `CacheKeys` | frozen arguments, the JSON form of a vault entry, the two ways a pipeline-cache key is built |
| `Matches` | normalisation of a detected match |
| `Bioes`, `SpanMerge`, `SpanMatches`, `Overlap`, `Checksums` | grouping of BIOES tags, merge and split of spans, the matches they end in, greedy overlap allocation, Luhn and IBAN checks |
| `OrderedDicts`, `Sorting`, `Texts`, `Wrappers` | Python's ordered dict, stable sort, white space and substrings, the alphabet of tokens; option and result |

Objects the source updates in place (surrogate generator, vault, LRU cache,
pipeline, request handler) are classes; its loops are methods with invariants,
each proved equal to a function about which the lemmas speak. A text is a
`seq<char>`. An ordered dict is a duplicate-free key sequence with a map. Keyed
hashes and Faker are an `Oracle`, a record of arbitrary functions; Python's
character tables are one as well (`Unicode`). Clock readings are parameters. The lock of each store makes its methods atomic steps; what runs
outside the lock (computing a missing cache value) is a step of its own, so runs
of the caches are arbitrary interleavings.

## What the proofs show about the code

- Replacing there and back restores a text if and only if no surrogate stood in a
  stretch of it that no original covers. This holds for any originals, even an
  empty one, which the merged-dispatch path does not filter.
- A request of `n` originals whose calls are all fresh gets `n` different surrogates,
  whatever the hashes and whatever was cached, if and only if `n` is at most
  `max_cache_size + 1`: the collision check happens before eviction
  (`LosesNothingIff`; for caps below 2^64, as there are no more seeds). One original
  keeps one surrogate throughout a request of any size (`BuildMapping`), but beyond
  that size two may be given the same one (`BeyondTheCapLosesOne`). In a fresh
  process, a request of that size loses nothing if and only if each of its calls is
  fresh (`LosesNothingFromStartIff`): the entity is cached, an attempt of the retry
  loop works, or nobody holds its fallback token.
- The fallback token is not checked against the issued surrogates. An opaque request
  up to that size is nevertheless safe, after any calls that left the cache sound,
  unless two of its 64-bit seeds collide or another cached entity holds the fallback
  token of one of its originals (`OpaqueRequestLosesNothing`); after opaque calls only,
  the latter takes a seed collision as well (`OpaqueHistoryIsReady`). Two entities none
  of whose four attempts works share one token if and only if they have one type and
  one seed
  (`SeedCollisionLosesOne`). In a fresh process with a cap of two or more this happens
  to the opaque texts "a", "b" and "c" if the hashes do not tell them apart
  (`SeedCollisionHappens`).
- A reply in the middle of a stream is held back if and only if some text stops inside
  a token of the WAIT pattern, or Faker's replies are buffered (`WaitsIff`, `ReplyIs`).
  The pattern knows upper-case digests only. The fallback token prints
  lower-case hexadecimal, so a reply cut inside one is sent too early
  (`FallbackTokenWaitsIff`, `ChunkSafeIff`). All streams over a live entry extend what
  was sent if and only if the pattern knows all its tokens, nothing is substituted, or
  nothing is sent before the end (`SentSafeIff`, `StreamSafeIff`).
- If the entry is lost between two calls of a stream (expired, popped or evicted), the
  later reply extends the earlier if and only if the first call had nothing to restore
  (`LossBreaksStreamIff`, `ExpiryBreaksStreamIff`), and there is a run in which it had
  (`ExpiryBreaksStream`).
- The caches are exact LRU caches in every interleaving of their calls: a call computes
  unless its key was used before and fewer other keys than the cap since
  (`AnsweredIff`).
- Every visible character that the privacy-filter service marks is in a match with the
  label's type, and nothing is matched but what it marks and the gaps that are closed
  (`MarkedIsMatched`, `MatchedIsMarked`).
- Demoted detectors are appended to the per-text ones. That keeps the configured order
  if and only if no per-text detector is listed after a demoted one
  (`DemotingKeepsOrderIff`); of two detectors, a demoted one listed first runs last
  (`DemotingChangesOrder`).
- The prewarmed pipeline-cache key, rebuilt from the stored entry, equals the key a
  later request looks up if and only if both requests give every detector the same
  arguments (in any order, as lists or as tuples), no detector stays in merged
  dispatch, and no demoted one precedes a per-text one in the configured order. As
  keys of a Python dict, which takes `True`, `1` and `1.0` for one, they are equal if
  and only if the same holds of equal arguments (`KeysAgreeIff`).
- Decoding an encoded vault entry gives the entry back if and only if its arguments
  are storable: no list outside a dict and no tuple inside one (`RoundTripIff`).
  Frozen arguments are; without dicts, only they are (`RoundTripIffFrozen`).
- Trimming moves the bounds of an all-blank span past each other, and leaves blanks
  at the end of the text in place when the span's end lies beyond it (`TrimIsTight`).
- E-mail spans are joined if and only if nothing lies between them (`EmailsJoinIff`).
- In an IBAN, swapping neighbouring characters goes unnoticed if and only if they
  have one value or are one of the pairs 1B, 2M and 3X, which denote the same number
  in either order (`IbanCatchesSwapIff`). The last check digit and a digit after it,
  which end up at the two ends of the rearranged number, may be swapped unnoticed
  only if equal or a multiple of 96 digits apart (`IbanCatchesDistantSwapIff`).

Where code and comments disagree the model follows the code:

- `src/anonymizer_guardrail/pipeline.py:814-819` says that demoting a detector
  preserves the detector order. It does under the condition of
  `DemotingKeepsOrderIff` only.
- `src/anonymizer_guardrail/pipeline_cache_memory.py:105-107` takes synthesised
  values to equal detected ones. Nothing in the code makes them so: transparency of
  the caches is proved under that hypothesis only (`CacheIsTransparent`).
- `src/anonymizer_guardrail/main.py:6` says that a response evicts its mapping; it is
  only peeked at.
- `src/anonymizer_guardrail/detector/remote_privacy_filter.py:189` says that e-mail
  spans never merge; adjacent ones with nothing between them do (`EmailsJoinIff`).
  The guard at lines 326-330 against text that is not in the source never fires
  (`SliceOccurs`).

## Model

| member | source | states |
|---|---|---|
| Replacer.ReplaceMeetsSpec | src/anonymizer_guardrail/pipeline.py:214-233 | The result is the rendering of any leftmost-longest reading of the text over the set of keys; inserted text is never scanned again. |
| Replacer.UniqueParse | src/anonymizer_guardrail/pipeline.py:226-233 | There is only one such reading. |
| Replacer.ReplaceIgnoresOrder | src/anonymizer_guardrail/pipeline.py:226-231 | Dict order and the order among equally long keys do not matter: the map alone decides. |
| Replacer.GapsAreClean | src/anonymizer_guardrail/pipeline.py:219-222 | No stretch that was copied contains a key anywhere. |
| RoundTrip.ReverseKeepsAll | src/anonymizer_guardrail/pipeline.py:970-972 | The reversed mapping has an entry per original if and only if surrogates are distinct, and inverts the mapping on its keys. |
| RoundTrip.LastOneWins | src/anonymizer_guardrail/pipeline.py:970-972 | If two originals share a surrogate, it leads back to the one found last. |
| RoundTrip.ReverseKeepsOrder | src/anonymizer_guardrail/pipeline.py:970-972 | Otherwise the reversed mapping is in the order of the originals. |
| RoundTrip.RoundTripIff | src/anonymizer_guardrail/pipeline.py:970-975 | With distinct bracketed surrogates, there and back is the identity on a text if and only if no surrogate stood in an uncovered gap; originals are arbitrary. |
| RoundTrip.RoundTrip | src/anonymizer_guardrail/pipeline.py:1055-1060 | A text that mentions no surrogate comes back unchanged. |
| RoundTrip.AnyShapeRoundTrip | src/anonymizer_guardrail/pipeline.py:970-975 | Surrogates of any shape are undone whenever the leftmost-longest reading of the outgoing text lands exactly on the inserted ones. |
| Tokens.DigestTokenWaits | src/anonymizer_guardrail/surrogate.py:126-134 | A digest token, cut anywhere, is recognised by the WAIT pattern. |
| Tokens.DigestParts | src/anonymizer_guardrail/surrogate.py:126-134 | A digest token tells its type, and its last eight digits read back to the digest. |
| Tokens.HexReadsBack | src/anonymizer_guardrail/surrogate.py:439-445 | Reading the digits of a number gives the number back. |
| Tokens.FallbackTokenWaitsIff | src/anonymizer_guardrail/surrogate.py:439-445 | A fallback token is bracketed, and recognised if and only if its sixteen digits contain no letter. |
| Tokens.ShapesDiffer | src/anonymizer_guardrail/surrogate.py:129-134 | No digest token equals a fallback token. |
| Tokens.FallbackInjective | src/anonymizer_guardrail/surrogate.py:441-445 | Two fallback tokens are equal only for the same type and the same 64-bit seed. |
| Matches.RebuildsIff | src/anonymizer_guardrail/detector/base.py:67-80 | Building a match normalises it, and building one from a match's fields leaves exactly the normal ones alone. |
| Matches.MatchIs | src/anonymizer_guardrail/detector/base.py:67-80 | A type that is not canonical becomes OTHER; exactly the trailing punctuation is taken off the text, and nothing where it may belong to the value. |
| Matches.TypesAreTokenPrefixes | src/anonymizer_guardrail/detector/base.py:12-42 | Every canonical type name is spelled in the characters of the WAIT pattern. |
| Surrogates.SurrogateGenerator.constructor | src/anonymizer_guardrail/surrogate.py:222-237 | Starts empty, with a cap of at least one. |
| Surrogates.SurrogateGenerator.ForMatch | src/anonymizer_guardrail/surrogate.py:358-458 | Result, cache and issued set after the call are those of one step of the specification, under the canonical key. |
| Surrogates.SurrogateGenerator.Pick | src/anonymizer_guardrail/surrogate.py:426-445 | The retry loop returns the first acceptable candidate, or the fallback token when all four collide. |
| Surrogates.SurrogateGenerator.EvictOverflow | src/anonymizer_guardrail/surrogate.py:449-457 | Oldest entries go, with their surrogates, until the cap is met. |
| Surrogates.KeyIsOpaqueIff | src/anonymizer_guardrail/surrogate.py:376-385 | A call is made in opaque mode if and only if its override says so, or it has none and the default does; a Faker call keeps its locale. |
| Surrogates.SameKeyIff | src/anonymizer_guardrail/surrogate.py:380-397 | Two calls share a cache entry if and only if they ask for the same type and text in the same mode and, for Faker, in the same locale. |
| Surrogates.IndependentOfFakerIff | src/anonymizer_guardrail/surrogate.py:145-199 | A candidate is an opaque token of the entity's type if and only if the mode or the type is opaque; otherwise it is Faker's. |
| Surrogates.OneSeedIff | src/anonymizer_guardrail/surrogate.py:103-113 | Whatever the hash, two entities have one seed if and only if they have the same type and text. |
| Surrogates.AttemptsDiffer | src/anonymizer_guardrail/surrogate.py:427-429 | Each attempt hashes a text of its own, the first one the original. |
| Surrogates.FirstThatWorks | src/anonymizer_guardrail/surrogate.py:427-437 | The first attempt that gets past the guard decides. |
| Surrogates.NoneWorks | src/anonymizer_guardrail/surrogate.py:439-445 | If none does, the fallback token is handed out. |
| Surrogates.ChosenIsFreshOrFallback | src/anonymizer_guardrail/surrogate.py:427-437 | What the retry loop yields is not in use and differs from the original, unless it is the fallback token. |
| Surrogates.ChosenIsUnusedIff | src/anonymizer_guardrail/surrogate.py:427-445 | The surrogate handed out is held by nobody if and only if an attempt gets past the guard or the fallback token is free. |
| Surrogates.StepKeepsSoundIff | src/anonymizer_guardrail/surrogate.py:397-458 | A call keeps "cache injective, issued set exactly its values, within the cap" if and only if the entity is cached, an attempt gets past the guard, or its fallback token is free. |
| Surrogates.RequestStaysLive | src/anonymizer_guardrail/surrogate.py:404-457 | From any sound state, the keys of a request within the cap end up together at the recent end of the cache, each with the surrogate that was returned. |
| Surrogates.NoSurrogateLost | src/anonymizer_guardrail/surrogate.py:416-458 | From any sound state, up to cap + 1 distinct originals get pairwise distinct surrogates when every call is fresh. |
| Surrogates.OpaqueRequestLosesNothing | src/anonymizer_guardrail/surrogate.py:439-448 | An opaque request after any calls, Faker's included, that left the cache sound: all its calls are fresh and its surrogates distinct and bracketed, if no two of its seeds collide and no other cached entity holds the fallback token of one of its originals. |
| Surrogates.OpaqueHistoryIsReady | src/anonymizer_guardrail/surrogate.py:439-448 | After opaque calls only these conditions hold unless two 64-bit seeds of history and request collide. |
| SurrogateLimits.BeyondTheCapLosesOne | src/anonymizer_guardrail/surrogate.py:449-457 | At every cap below 2^64, where such hashes exist, a request of any size from cap + 2 on, all calls fresh, gets one surrogate twice: freed by eviction, it is issued again. |
| SurrogateLimits.LosesNothingIff | src/anonymizer_guardrail/surrogate.py:416-458 | For caps below 2^64: requests of a given size never lose a surrogate, whatever the hashes and the cache, if and only if that size is at most cap + 1. |
| SurrogateLimits.LosesNothingFromStartIff | src/anonymizer_guardrail/surrogate.py:416-448 | In a fresh process a request of up to cap + 1 originals loses nothing if and only if every call is fresh. |
| SurrogateLimits.SeedCollisionLosesOne | src/anonymizer_guardrail/surrogate.py:439-448 | In any state with room for one entry, two uncached entities none of whose attempts works get one token if and only if type and seed are the same. |
| SurrogateLimits.SeedCollisionHappens | src/anonymizer_guardrail/surrogate.py:427-448 | A run from the empty cache, at every cap from two on, in which that happens: a request of three opaque texts, small enough to be safe, gets the same fallback token for two of them, and not all its calls are fresh. |
| Attribution.DedupWithSources | src/anonymizer_guardrail/pipeline.py:183-198 | The double loop returns the ledger of its reports, in first-seen order, without empty texts. |
| Attribution.LedgerIs | src/anonymizer_guardrail/pipeline.py:952-968 | The ledger knows exactly the reported texts, keeps the first match of each, and attributes it without repetition to exactly its reporters. |
| FirstSeen.DedupHasFirst | src/anonymizer_guardrail/pipeline.py:171-198 | The first match with a text, no earlier detector and no earlier match of its detector having the text, is in the deduplicated list; its sources are exactly the detectors that returned the text, in detector order. |
| FirstSeen.DedupIsFirsts | src/anonymizer_guardrail/pipeline.py:183-198 | Nothing else is in the list. |
| FirstSeen.DedupInOrder | src/anonymizer_guardrail/pipeline.py:179-198 | The list is in the order in which its texts were first seen. |
| Attribution.UnionInOrder | src/anonymizer_guardrail/pipeline.py:964-968 | New sources are named after the known ones, in their own order. |
| Attribution.SourcesInOrderOfReports | src/anonymizer_guardrail/pipeline.py:962-968 | Who reported a text first is named first. |
| Prewarm.SourcesAreReporters | src/anonymizer_guardrail/pipeline.py:952-968 | Over per-text and merged results of a request: the sources of an original are duplicate-free and exactly the detectors that reported it. |
| Pipelines.MappingStep | src/anonymizer_guardrail/pipeline.py:953-968 | One more report changes the mapping only for a new text, by one generator call. |
| Pipelines.FirstReportedIsKept | src/anonymizer_guardrail/pipeline.py:946-961 | Over the result lists of a request, in their order: the first report of a text decides its match. |
| Pipelines.RequestInOrder | src/anonymizer_guardrail/pipeline.py:952-961 | Texts are filed, and given surrogates, in the order of their first reports. |
| Pipelines.MergedAround | src/anonymizer_guardrail/pipeline.py:869-889 | A merged-mode detector's matches are reported in order, once each, unless they touch a segment border. |
| Pipelines.Pipeline.BuildMapping | src/anonymizer_guardrail/pipeline.py:943-968 | The loop yields the ledger of all reports and a mapping with one surrogate per distinct text, asked for in first-seen order. |
| Pipelines.Pipeline.Anonymize | src/anonymizer_guardrail/pipeline.py:927-998 | Modified texts, returned mapping, generator state and vault after a request; without texts, call id or findings the vault is untouched. |
| Pipelines.EntryIsValid | src/anonymizer_guardrail/pipeline.py:983-997 | The stored entry has exactly the reversed mapping's surrogates, with each one's original. |
| EndToEnd.RequestLosesNothing | src/anonymizer_guardrail/pipeline.py:943-972 | A request of up to cap + 1 originals whose calls are fresh stores as many vault surrogates as it found originals. |
| EndToEnd.OpaqueMapping | src/anonymizer_guardrail/pipeline.py:943-975 | For any reports with canonical types, in opaque mode by the request's override or by default, and after any calls as for OpaqueRequestLosesNothing: the mapping is injective, bracketed, and covers exactly the reported texts. |
| EndToEnd.RequestComesBack | src/anonymizer_guardrail/pipeline.py:970-998 | Under the same settings and after the same calls, whatever was reported: restoring an echo of the sent texts gives the client's texts, if they mentioned no issued surrogate. |
| EndToEnd.RequestStreams | src/anonymizer_guardrail/main.py:360-387 | If no fallback token was issued, the entry stored by such a request is safe to stream. |
| EndToEnd.StreamedEchoComesBack | src/anonymizer_guardrail/main.py:352-387 | The same through the vault and in chunks: while the entry is live, every reply sent is a prefix of the client's texts and the last one is equal to them. |
| Streaming.ChunkHomomorphism | src/anonymizer_guardrail/main.py:50-54 | Where the handler does not wait, replacing a text and its continuation separately is replacing the whole. |
| Streaming.ChunkSafeIff | src/anonymizer_guardrail/main.py:45-50 | For bracketed tokens that law holds if and only if each is built from the pattern's characters. |
| Streaming.SentSafeIff | src/anonymizer_guardrail/main.py:45-54 | Likewise for what the client sees: nothing sent where the handler does not wait is taken back later, if and only if each token is built from these characters. No token may begin like its original. |
| Streaming.SentIsPrefix | src/anonymizer_guardrail/main.py:354-359 | What was sent is a prefix of the substitution of every longer text. |
| Streaming.WaitsIff | src/anonymizer_guardrail/main.py:50-54 | The predicate holds of a text if and only if it stops inside a token of the pattern: nothing else is held back. |
| Deanonymize.ReplaceEach | src/anonymizer_guardrail/pipeline.py:1059-1060 | One compiled replacer serves all texts. |
| Guardrails.Guardrail.Respond | src/anonymizer_guardrail/main.py:352-387 | The action is WAIT, NONE or INTERVENED as the vault's entry, the mode and the final flag require; the vault is only read. |
| Guardrails.ReplyIs | src/anonymizer_guardrail/main.py:352-387 | The reply is WAIT if and only if the call is in the middle of a stream and Faker's replies are buffered or some text stops inside such a token; otherwise it is NONE if nothing changed and INTERVENED with the restored texts if something did. |
| Guardrails.EarlierIsPrefix | src/anonymizer_guardrail/main.py:354-387 | What one call of a stream sends is extended by what a later one sends. |
| Guardrails.StreamIsMonotone | src/anonymizer_guardrail/main.py:360-387 | Over a whole stream, with any other vault traffic between its calls: all replies that are not deferred extend each other and the final one, never deferred, is the substitution of the full text. |
| Guardrails.StreamSafeIff | src/anonymizer_guardrail/main.py:360-387 | For bracketed surrogates that do not begin like their originals: in all streams over any vault traffic, while the entry is live, replies extend each other if and only if the pattern knows all its surrogates, Faker's replies are buffered, or nothing is substituted. |
| Streaming.TakenBackIff | src/anonymizer_guardrail/main.py:354-359 | A substituted text is a prefix of a longer, unsubstituted one if and only if it mentions no surrogate, provided none begins like its original. |
| Guardrails.LossBreaksStreamIff | src/anonymizer_guardrail/main.py:379-387 | Over any vault traffic, one call finds the entry and a later one of the stream finds none, for whatever reason: the later reply extends the earlier if and only if the earlier call's texts mention no surrogate. |
| Guardrails.ExpiryBreaksStreamIff | src/anonymizer_guardrail/vault_memory.py:127-145 | In particular when the entry is live for the one call and expired or popped at the other. |
| Guardrails.ExpiryBreaksStream | src/anonymizer_guardrail/vault_memory.py:133-144 | A run in which that happens: one put, a call within the time to live that restores a token, a call after it that takes it back. |
| Prewarm.PrewarmCaches | src/anonymizer_guardrail/pipeline.py:1158-1246 | An empty entry writes nothing; otherwise the loop makes the specified writes, for the detectors the entry has arguments for and with these arguments. |
| Prewarm.SlotArgumentsAre | src/anonymizer_guardrail/pipeline.py:1171-1203 | The arguments a detector's slot is keyed by, rebuilt from the entry, are exactly those the request gave the detector, frozen. |
| Prewarm.WritesAre | src/anonymizer_guardrail/pipeline.py:1206-1246 | Exactly the visible texts are written, each to its pipeline slot and to one slot per detector; nothing else is. |
| Prewarm.WritesCount | src/anonymizer_guardrail/pipeline.py:1206-1246 | Per occurrence of a visible text there is one pipeline write, if that cache is on, and one write per detector. |
| Prewarm.WithKwargsAround | src/anonymizer_guardrail/pipeline.py:1188-1203 | The detectors written for are those the entry has arguments for, once each and in order. |
| Prewarm.DetectorSlotIs | src/anonymizer_guardrail/pipeline.py:1229-1238 | What is written for a detector and a text are exactly the originals that occur in the text and that this detector reported in the request. |
| Prewarm.SlotAround | src/anonymizer_guardrail/pipeline.py:1206-1238 | Slots keep the order of the vault entry and repeat nothing. |
| Prewarm.PipelineSlotIs | src/anonymizer_guardrail/pipeline.py:1218-1227 | The pipeline slot is keyed by the request's mode and arguments and holds exactly its reports whose originals occur in the text. |
| CacheKeys.BuildCallKwargs | src/anonymizer_guardrail/pipeline.py:236-256 | The loop over the active detectors yields their frozen arguments in order, or the first error. |
| CacheKeys.CallKwargsAre | src/anonymizer_guardrail/pipeline.py:251-256 | Each position names its detector, with the detector's frozen arguments. |
| CacheKeys.BuildFailsIff | src/anonymizer_guardrail/pipeline.py:251-256 | It fails if and only if some argument of some detector has a dict inside. |
| CacheKeys.CallKwargsAgreeIff | src/anonymizer_guardrail/pipeline.py:241-256 | Two requests freeze to one tuple if and only if they give every detector the same arguments, up to order and list or tuple. |
| CacheKeys.CallKwargsEqualIff | src/anonymizer_guardrail/pipeline.py:241-256 | They freeze to equal tuples, as Python compares dictionary keys, if and only if they give every detector equal arguments. |
| CacheKeys.KeysAgreeIff | src/anonymizer_guardrail/pipeline.py:604-607 | The key a later request looks up is the one prewarmed from the entry, stored in memory or as JSON, if and only if the arguments are the same, no detector stays merged and no demoted one precedes a per-text one; it is equal to it as a dictionary key if and only if that holds with equal arguments. |
| CacheKeys.FanOutIs | src/anonymizer_guardrail/pipeline.py:653-702 | The per-text fan-out has exactly the active detectors that are not configured for merged dispatch or have a size cap that the blob exceeds. |
| CacheKeys.DemotingKeepsOrderIff | src/anonymizer_guardrail/pipeline.py:800-819 | Whichever detectors stay merged, the per-text fan-out has the configured order if and only if no per-text detector is listed after a demoted one. |
| CacheKeys.DemotingChangesOrder | src/anonymizer_guardrail/pipeline.py:814-819 | Two detectors for which it has not: a demoted one before a per-text one. |
| MemoryVaults.MemoryVault.constructor | src/anonymizer_guardrail/vault_memory.py:58-78 | Starts empty, with a cap of at least one. |
| MemoryVaults.MemoryVault.Put | src/anonymizer_guardrail/vault_memory.py:80-111 | The store afterwards: swept, the id moved to the end with the new entry, cut to the cap; an empty id or entry changes nothing. |
| MemoryVaults.PutIs | src/anonymizer_guardrail/vault_memory.py:80-111 | An empty id or an entry without surrogates changes nothing; any other entry is there afterwards, with the time of the second clock reading. |
| MemoryVaults.MemoryVault.Peek | src/anonymizer_guardrail/vault_memory.py:113-145 | The unexpired entry of the id or an empty one; nothing is removed. |
| MemoryVaults.MemoryVault.Pop | src/anonymizer_guardrail/vault_memory.py:147-178 | The same, and the id is gone, expired or not. |
| MemoryVaults.MemoryVault.EvictExpired | src/anonymizer_guardrail/vault_memory.py:190-216 | Removes the expired entries at the front, up to the first live one. |
| MemoryVaults.SweepRemovesExactlyExpired | src/anonymizer_guardrail/vault_memory.py:190-213 | In a chronological store that early stop misses nothing: exactly the expired entries go, the rest keep order and content. |
| MemoryVaults.RunIs | src/anonymizer_guardrail/vault_memory.py:89-104 | After any run with a non-decreasing clock the store is chronological and within the cap, and knows each id as the run allows. |
| MemoryVaults.PeekAfterAnyRun | src/anonymizer_guardrail/vault_memory.py:127-145 | A peek returns the latest unpopped entry of the id for sure while it is unexpired and fewer than the cap other ids were put since; otherwise that entry or an empty one; never an expired or older one. |
| LruCaches.LruCache.constructor | src/anonymizer_guardrail/pipeline_cache_memory.py:50-58 | Starts empty; a non-positive size disables the cache. |
| LruCaches.LruCache.Lookup | src/anonymizer_guardrail/pipeline_cache_memory.py:81-90 | The first locked section: a hit is moved to the recent end and counted, a miss is counted. |
| LruCaches.LruCache.Store | src/anonymizer_guardrail/pipeline_cache_memory.py:94-98 | The second locked section: the computed value becomes the most recent one and the cap is restored. |
| LruCaches.LruCache.Put | src/anonymizer_guardrail/pipeline_cache_memory.py:109-121 | The prewarm write, which leaves a populated slot and its recency alone. |
| LruCaches.ReachableIs | src/anonymizer_guardrail/detector/cache_memory.py:87-105 | In every interleaving: within the cap, every cached value was produced for its key, hits and misses count the lookups. |
| LruCaches.ReturnedWasProduced | src/anonymizer_guardrail/detector/cache_memory.py:87-105 | Whatever is returned for a key was computed or prewarmed for that key. |
| LruCaches.CacheIsTransparent | src/anonymizer_guardrail/detector/cache_memory.py:79-85 | If every value produced for a key is the one the key determines, callers cannot tell the cache from always computing. |
| LruCaches.PrewarmNeverOverwrites | src/anonymizer_guardrail/pipeline_cache_memory.py:101-121 | In every reachable state a prewarm changes no populated slot and fills an empty one. |
| LruCaches.CachedIff | src/anonymizer_guardrail/pipeline_cache_memory.py:84-98 | A key is cached if and only if it was used and fewer other keys than the cap were used after it. |
| LruCaches.AnsweredIff | src/anonymizer_guardrail/detector/cache_memory.py:87-105 | In every interleaving a call is answered without computing if and only if its key was used before and fewer other keys than the cap since, and then with the value last written for the key; every other call goes on to compute. |
| LruCaches.CountersAre | src/anonymizer_guardrail/detector/cache_memory.py:87-95 | Hits are exactly the calls so answered, misses all others. |
| Vault.FreezeKwargs | src/anonymizer_guardrail/vault.py:69-89 | The loop returns the pairs sorted by key with frozen values, or the error of a nested dict. |
| Vault.LexIff | src/anonymizer_guardrail/vault.py:85-89 | The order of the keys is Python's: a prefix comes first, otherwise the first difference decides. |
| Vault.FreezeIs | src/anonymizer_guardrail/vault.py:92-103 | Freezing fails exactly on a dict somewhere inside and leaves exactly the frozen values alone. |
| Vault.FreezesToIff | src/anonymizer_guardrail/vault.py:92-103 | A value freezes to the same value with every list, at any depth, a tuple, and to nothing else. |
| Vault.FreezeIgnoresOrder | src/anonymizer_guardrail/vault.py:80-89 | Arguments given in any order freeze to the same tuple. |
| Vault.FreezeAlikeIff | src/anonymizer_guardrail/vault.py:69-103 | Two argument dicts freeze alike if and only if they have the same keys and, key by key, the same frozen values. |
| Vault.FreezeEqualIff | src/anonymizer_guardrail/vault.py:69-103 | They freeze to tuples that Python takes for equal if and only if, key by key, the frozen values are equal, numbers being compared by value. |
| Vault.FreezeFailsIff | src/anonymizer_guardrail/vault.py:85-89 | Freezing all arguments fails if and only if one of them contains a dict. |
| Vault.FreezePairsAre | src/anonymizer_guardrail/vault.py:85-89 | Otherwise every argument is named, with its frozen value. |
| VaultCodec.DecodeEntry | src/anonymizer_guardrail/vault_redis.py:319-394 | The decoding loops return what the shape specification returns, with the same first error. |
| VaultCodec.DecodeEncoded | src/anonymizer_guardrail/vault_redis.py:300-316 | An encoded entry always decodes, to the entry with its argument values coerced. |
| VaultCodec.RoundTripIff | src/anonymizer_guardrail/vault_redis.py:300-403 | Decoding inverts encoding if and only if no argument has a list outside a dict or a tuple inside one. |
| VaultCodec.RoundTripIffFrozen | src/anonymizer_guardrail/vault_redis.py:397-403 | Among entries without dicts in their arguments, if and only if the arguments are frozen. |
| VaultCodec.EncodeDecoded | src/anonymizer_guardrail/vault_redis.py:319-394 | What decodes is what encoding its result writes, up to unknown fields and filled-in defaults. |
| VaultCodec.DecodesIff | src/anonymizer_guardrail/vault_redis.py:324-390 | Decoding accepts exactly the trees of the entry shape. |
| Bioes.BioesToSpans | services/privacy_filter_hf/main.py:119-198 | The loop emits, trimmed, exactly the segments of the token-level decoder, first token's start to last token's end. |
| Bioes.TokensAre | services/privacy_filter_hf/main.py:141-148 | A label id is read as its tag, an unknown one as outside. |
| Bioes.Turn | services/privacy_filter_hf/main.py:148-191 | One token's effect on the emitted spans and the open one. |
| Bioes.DecodeGroups | services/privacy_filter_hf/main.py:141-198 | For any tag sequence, however ill-formed: segments are ordered, disjoint and of one label, break at every outside tag, and every tagged token is in exactly one. |
| Bioes.TogetherIff | services/privacy_filter_hf/main.py:141-191 | For any tag sequence: neighbouring tagged tokens are in one segment if and only if the first is a B or I, the second an I or E with the same label, and no outside tag stands between them. |
| Bioes.DecodeInvertsEncode | services/privacy_filter_hf/main.py:154-191 | Encoding any ordered disjoint labelled segments as S or B I* E and decoding gives exactly those segments, special tokens notwithstanding. |
| Bioes.TrimIsTight | services/privacy_filter_hf/main.py:201-224 | For any offsets: bounds move over white space only, to the first and last visible character; an end beyond the text leaves blanks at the end of the text; an all-blank span has its bounds moved past each other. |
| SpanMerge.Extract | src/anonymizer_guardrail/detector/remote_privacy_filter.py:260-285 | Usable offsets are taken, otherwise the first place the span's text occurs; everything else is dropped. |
| SpanMerge.ExtractedIff | src/anonymizer_guardrail/detector/remote_privacy_filter.py:260-285 | An item is extracted if and only if some named span yields it: the label's type with the span's offsets, if they lie in the text, or else with the first place of its stripped text. |
| SpanMerge.ExtractAround | src/anonymizer_guardrail/detector/remote_privacy_filter.py:260-285 | Spans are taken in the order in which they come, and each yields one item at most. |
| Texts.StripIs | src/anonymizer_guardrail/detector/remote_privacy_filter.py:280 | Stripping takes away all white space at both ends and nothing else. |
| SpanMerge.Find | src/anonymizer_guardrail/detector/remote_privacy_filter.py:280-283 | The first occurrence. |
| SpanMerge.MergeSpans | src/anonymizer_guardrail/detector/remote_privacy_filter.py:292-302 | The merge loop, which overwrites the last span, computes the merge specification. |
| SpanMerge.MergeCoverage | src/anonymizer_guardrail/detector/remote_privacy_filter.py:293-302 | A position is covered under a label after merging if and only if it was before or lies in a gap between consecutive spans of that label that are joined. |
| SpanMerge.JoinsIff | src/anonymizer_guardrail/detector/remote_privacy_filter.py:209-238 | Spans of one label are joined if and only if they do not overlap and are adjacent, or have between them only the label's connectors, within its limit, and no two newlines in a row. |
| SpanMerge.EmailsJoinIff | src/anonymizer_guardrail/detector/remote_privacy_filter.py:227-237 | Two e-mail spans are joined if and only if nothing lies between them. |
| SpanMerge.MergeLeavesNone | src/anonymizer_guardrail/detector/remote_privacy_filter.py:293-302 | After merging no two neighbours are mergeable. |
| SpanMerge.SplitSpans | src/anonymizer_guardrail/detector/remote_privacy_filter.py:308-320 | The split loop computes the split specification. |
| SpanMerge.SplitAtBreaks | src/anonymizer_guardrail/detector/remote_privacy_filter.py:314-320 | The cursor loop over the newline runs of one span. |
| SpanMerge.BreaksExact | src/anonymizer_guardrail/detector/remote_privacy_filter.py:245 | The scan finds exactly the positions in runs of two or more newlines. |
| SpanMerge.SplitCoverage | src/anonymizer_guardrail/detector/remote_privacy_filter.py:308-320 | Splitting removes exactly those positions inside a span and keeps the labels of the others. |
| SpanMerge.SplitIsTidy | src/anonymizer_guardrail/detector/remote_privacy_filter.py:304-320 | Pieces of ordered, disjoint, unmergeable spans are so again, even when a span vanishes or is cut at its edge. |
| SpanMerge.MergeSplitSettles | src/anonymizer_guardrail/detector/remote_privacy_filter.py:290-320 | On spans that do not overlap, sort-merge-split yields ordered, disjoint, unmergeable pieces without paragraph breaks, and is idempotent. |
| SpanMatches.EmitMatches | src/anonymizer_guardrail/detector/remote_privacy_filter.py:323-332 | The emit loop computes the emit specification. |
| SpanMatches.EmitAround | src/anonymizer_guardrail/detector/remote_privacy_filter.py:323-332 | Each piece with a visible character is emitted once, in order, stripped and under its label; no other is. |
| SpanMatches.ToMatches | src/anonymizer_guardrail/detector/remote_privacy_filter.py:248-332 | The four passes together. |
| SpanMatches.SortedByStart | src/anonymizer_guardrail/detector/remote_privacy_filter.py:287-290 | Items are taken by start, and by end where they start together. |
| SpanMatches.MarkedIsMatched | src/anonymizer_guardrail/detector/remote_privacy_filter.py:248-332 | Every visible character inside the usable offsets of a named span is in a match with the label's type. |
| SpanMatches.MatchedIsMarked | src/anonymizer_guardrail/detector/remote_privacy_filter.py:248-332 | Every match is for a stretch of the text each position of which was marked with that label or lies in a closed gap. |
| SpanMatches.SliceOccurs | src/anonymizer_guardrail/detector/remote_privacy_filter.py:325-330 | The guard against text that is not in the source never fires. |
| SpanMatches.MatchesStayInParagraph | src/anonymizer_guardrail/detector/remote_privacy_filter.py:248-332 | Whatever spans the service sends, no emitted match contains a paragraph break. |
| SpanMerge.SplitHasNoBreak | src/anonymizer_guardrail/detector/remote_privacy_filter.py:304-320 | Whatever the spans, overlapping or not, no piece contains a paragraph break. |
| Overlap.Resolve | src/anonymizer_guardrail/detector/regex.py:549-568 | The loop emits the matches of the greedy allocation in the strategy's order. |
| Overlap.OverlapsIff | src/anonymizer_guardrail/detector/regex.py:561-566 | Spans overlap if and only if they share a position. |
| Overlap.AllocateIsDisjoint | src/anonymizer_guardrail/detector/regex.py:561-568 | Claimed spans are candidates and pairwise disjoint, under either strategy. |
| Overlap.ClaimedIff | src/anonymizer_guardrail/detector/regex.py:561-568 | In the strategy's order, a candidate is claimed if and only if no other claimed before it overlaps it. |
| Overlap.ClaimsInOrder | src/anonymizer_guardrail/detector/regex.py:561-568 | Claimed candidates come in the order in which they were taken. |
| Overlap.PriorityIs | src/anonymizer_guardrail/detector/regex.py:549-568 | Under "priority" that is pattern order: the first candidate is always claimed, any other unless a claimed one before it overlaps it. |
| Overlap.DroppedIsDominated | src/anonymizer_guardrail/detector/regex.py:549-568 | Under "longest", whatever is dropped overlaps a claimed span that is longer, or as long and not later in the text. |
| Overlap.GreedyBound | src/anonymizer_guardrail/detector/regex.py:558-568 | Any disjoint choice of candidate spans totals at most three times the claimed total, minus two per claimed span. |
| Overlap.SpansIgnorePatternOrder | src/anonymizer_guardrail/detector/regex.py:550-559 | Under "longest" the claimed spans depend only on the candidate spans, not on pattern order or labels. |
| Overlap.FirstPatternNames | src/anonymizer_guardrail/detector/regex.py:551-553 | Of candidates with the same span the first in pattern order is the one claimed. |
| Checksums.Luhn | src/anonymizer_guardrail/detector/regex.py:338-357 | The loop from the left accepts exactly what the standard's sum from the right accepts, and raises exactly on a figure that `isdigit` admits and `int` refuses. |
| Checksums.DigitsAround | src/anonymizer_guardrail/detector/regex.py:346 | Every decimal digit of the text counts once, with its value and in its place, and nothing else does. |
| Checksums.LuhnCatchesChange | src/anonymizer_guardrail/detector/regex.py:349-357 | At any length, every single changed digit turns an accepted number into a rejected one. |
| Checksums.LuhnCatchesSwapIff | src/anonymizer_guardrail/detector/regex.py:349-357 | At any length, swapping neighbouring digits goes unnoticed if and only if they are equal or 0 and 9. |
| Checksums.LuhnCheckDigit | src/anonymizer_guardrail/detector/regex.py:357 | Exactly one check digit completes any number; fewer than two digits are no number. |
| Checksums.LuhnSample | src/anonymizer_guardrail/detector/regex.py:349-357 | The card number of the project's tests is accepted, and rejected with its last digit changed. |
| Checksums.LuhnCatchesMistype | src/anonymizer_guardrail/detector/regex.py:341-357 | The same on the text, with separators anywhere and digits of any script. |
| Checksums.LuhnIgnoresSeparators | src/anonymizer_guardrail/detector/regex.py:341-346 | Characters that are not digits may be put anywhere and change nothing. |
| Checksums.IbanMod97 | src/anonymizer_guardrail/detector/regex.py:360-382 | The loop accepts exactly the compacted texts that pass the ISO 13616 check and have no more digits than `int` takes. |
| Checksums.IbanIgnoresLayout | src/anonymizer_guardrail/detector/regex.py:367 | Spaces anywhere and the case of letters make no difference. |
| Checksums.ValuesCountUp | src/anonymizer_guardrail/detector/regex.py:371-378 | Digits keep their value, A counts 10, and every letter one more than the one before it. |
| Checksums.IbanSample | src/anonymizer_guardrail/detector/regex.py:367-380 | The account number of the project's tests is accepted. |
| Checksums.NumberCatchesChange | src/anonymizer_guardrail/detector/regex.py:370-380 | Changing one digit of the rearranged number, of any length, is caught. |
| Checksums.NumberCatchesSwap | src/anonymizer_guardrail/detector/regex.py:370-380 | Swapping two neighbouring unequal digits of it is caught. |
| Checksums.IbanCatchesMistype | src/anonymizer_guardrail/detector/regex.py:363-380 | One wrong letter for a letter or digit of another value for a digit, anywhere in an account number, is caught. |
| Checksums.IbanCatchesSwapIff | src/anonymizer_guardrail/detector/regex.py:363-380 | Swapping characters that stay neighbours is caught unless they have one value or are one of the pairs 1B, 2M, 3X. |
| Checksums.IbanCatchesDistantSwapIff | src/anonymizer_guardrail/detector/regex.py:370-380 | Swapping the second check digit with a digit after it is caught unless they are equal or a multiple of 96 digits apart in the rearranged number. |
| Checksums.ExactlyOneCheckPair | src/anonymizer_guardrail/detector/regex.py:363-380 | For every country and account string exactly one pair from 02 to 98 is accepted, the one MOD 97-10 assigns. |

## Left out

- Checksums.IbanCatchesDistantSwapIff: a letter after the second check digit is left out; the digits between them then shift as well.
- Guardrails.LossBreaksStreamIff: a surrogate that begins like its original is left out; what was restored may then happen to be a prefix of the unrestored text.
- Guardrails.StreamSafeIff: such surrogates are left out as well, since the original may happen to continue the cut surrogate.
- Vault.FreezeEqualIff: floating-point values are real numbers; NaN, which equals nothing, and the infinities are left out.
- SurrogateLimits.LosesNothingIff: caps of 2^64 and more, for which there are not enough seeds to fill the cache with Faker surrogates.
- Guardrails.StreamIsMonotone: needs a live entry whose surrogates the WAIT pattern knows (or Faker's buffer mode); for Faker surrogates streamed without buffering the source promises nothing.
- SpanMerge.MergeSplitSettles: idempotence is for spans that do not overlap; pieces of overlapping spans can come out unordered and a second round sorts them.
- RoundTrip.AnyShapeRoundTrip: for Faker surrogates, which may occur in one another or in the text, the scan landing on the inserted ones is a hypothesis.
- Surrogates.NoSurrogateLost: freshness of the fallback token is a hypothesis; for opaque requests OpaqueRequestLosesNothing and OpaqueHistoryIsReady reduce it to seed collisions and to tokens already held.
- VaultCodec.RoundTripIff: an entry is a JSON tree; turning the tree into text and back, and floating-point values, are not modelled.
- Overlap.Resolve: pass 1 of the regex detector is not modelled; candidates are any list of non-empty spans.
- Values of keyed hashes and of Faker (how salt, seed and attempt enter them), Faker's locale cache and an unavailable Faker, which the retry loop would call as if it were there.
- The Redis vault and Redis caches apart from the entry codec: connections, expiry and write conditions on the server.
- HTTP endpoint, request parsing, the BLOCKED answers and the fail-open and fail-closed branches of detector errors.
- Detectors themselves: patterns, denylist, the language-model, GLiNER and privacy-filter clients, Viterbi decoding; what they return is arbitrary.
- IPv4 and IPv6 validators, which are decided one part at a time.
- Task scheduling of detection beyond the locked sections of the caches; best-effort error handling of prewarm writes, whose order is not fixed in the source and is here the order of creation.
- Configuration, override parsing, logging and the counters shown by the health probe.
