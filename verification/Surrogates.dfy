/** The process-wide surrogate cache: an LRU of original -> surrogate kept in
    step with the set of surrogates already issued. */
module Surrogates {
  import opened Matches
  import opened OrderedDicts
  import opened RoundTrip
  import opened Tokens
  import opened Wrappers

  type Locale = Option<seq<string>>

  datatype CacheKey = CacheKey(entityType: string, text: string, useFaker: bool, locale: Locale)

  /** The keyed hashes and Faker, which this project does not look into. `faker`
      takes the entity type, the locale, the seed and the attempt number. */
  datatype Oracle = Oracle(
    digest: string -> Digest32,
    seed: string -> Digest64,
    faker: (string, Locale, Digest64, nat) -> string)

  /** Types whose generator is opaque even in Faker mode. */
  const ALWAYS_OPAQUE: set<string> := {
    "CREDENTIAL", "TOKEN", "HASH", "JWT", "AWS_ACCESS_KEY", "PATH", "IDENTIFIER", "OTHER"
  }

  const MAX_COLLISION_ATTEMPTS: nat := 4

  /** The canonical cache key: the override or the default, and no locale in
      opaque mode. */
  function KeyFor(useFaker: bool, m: Match, useFakerOverride: Option<bool>, locale: Locale): CacheKey {
    var effective := if useFakerOverride.Some? then useFakerOverride.value else useFaker;
    CacheKey(m.entityType, m.text, effective, if effective then locale else None)
  }

  /** What a call's mode comes to: its override, or else the default. */
  ghost predicate FakerMode(useFaker: bool, useFakerOverride: Option<bool>) {
    useFakerOverride == Some(true) || (useFakerOverride.None? && useFaker)
  }

  /** The override decides, then the default; Faker calls keep their locale. */
  lemma KeyIsOpaqueIff(useFaker: bool, m: Match, useFakerOverride: Option<bool>, locale: Locale)
    requires m.entityType in ENTITY_TYPES
    ensures OpaqueKey(KeyFor(useFaker, m, useFakerOverride, locale)) <==> !FakerMode(useFaker, useFakerOverride)
    ensures FakerMode(useFaker, useFakerOverride) ==> KeyFor(useFaker, m, useFakerOverride, locale).locale == locale
  {}

  /** Two calls share a cache entry exactly when they ask for the same entity in the
      same mode, and for Faker in the same locale, however they came to ask for it. */
  lemma SameKeyIff(useFaker: bool, a: Match, x: Option<bool>, p: Locale, b: Match, y: Option<bool>, q: Locale)
    ensures KeyFor(useFaker, a, x, p) == KeyFor(useFaker, b, y, q) <==>
              a == b && (FakerMode(useFaker, x) <==> FakerMode(useFaker, y)) && (FakerMode(useFaker, x) ==> p == q)
  {}

  /** `_seed_for` */
  function SeedFor(o: Oracle, key: CacheKey): Digest64 {
    o.seed(key.entityType + ":" + key.text)
  }

  function AttemptText(text: string, attempt: nat): string
    requires attempt < MAX_COLLISION_ATTEMPTS
  {
    if attempt == 0 then text else text + "#" + ["0123"[attempt]]
  }

  /** The candidate the retry loop looks at in one attempt.  A type without a
      generator of its own uses the one of OTHER. */
  function Candidate(o: Oracle, key: CacheKey, attempt: nat): string
    requires attempt < MAX_COLLISION_ATTEMPTS
  {
    var etype := if key.entityType in ENTITY_TYPES then key.entityType else "OTHER";
    if key.useFaker && etype !in ALWAYS_OPAQUE then
      o.faker(etype, key.locale, SeedFor(o, key), attempt)
    else
      DigestToken(etype, o.digest(AttemptText(key.text, attempt)))
  }

  ghost predicate SameHashes(o: Oracle, p: Oracle) {
    o.digest == p.digest && o.seed == p.seed
  }

  ghost predicate IndependentOfFaker(o: Oracle, key: CacheKey, attempt: nat)
    requires attempt < MAX_COLLISION_ATTEMPTS
  {
    forall p: Oracle :: SameHashes(o, p) ==> Candidate(p, key, attempt) == Candidate(o, key, attempt)
  }

  /** A candidate is an opaque token of the entity's type in opaque mode and for the
      types that are always opaque, and Faker's for all others. */
  lemma IndependentOfFakerIff(o: Oracle, key: CacheKey, attempt: nat)
    requires attempt < MAX_COLLISION_ATTEMPTS && key.entityType in ENTITY_TYPES
    ensures IndependentOfFaker(o, key, attempt) <==> !key.useFaker || key.entityType in ALWAYS_OPAQUE
    ensures !key.useFaker || key.entityType in ALWAYS_OPAQUE ==>
              exists d: Digest32 :: Candidate(o, key, attempt) == DigestToken(key.entityType, d)
  {
    if key.useFaker && key.entityType !in ALWAYS_OPAQUE {
      var p := Oracle(o.digest, o.seed,
                      (etype: string, locale: Locale, seed: Digest64, n: nat) => o.faker(etype, locale, seed, n) + "x");
      assert SeedFor(p, key) == SeedFor(o, key) && SameHashes(o, p);
      assert Candidate(p, key, attempt) == Candidate(o, key, attempt) + "x";
      assert |Candidate(p, key, attempt)| != |Candidate(o, key, attempt)|;
    } else {
      var d := o.digest(AttemptText(key.text, attempt));
      assert Candidate(o, key, attempt) == DigestToken(key.entityType, d);
    }
  }

  ghost predicate AlwaysOneSeed(a: CacheKey, b: CacheKey) {
    forall o: Oracle :: SeedFor(o, a) == SeedFor(o, b)
  }

  /** The seed depends on type and text, and tells apart whatever differs in one of
      them, up to collisions of the hash. */
  lemma OneSeedIff(a: CacheKey, b: CacheKey)
    requires a.entityType in ENTITY_TYPES && b.entityType in ENTITY_TYPES
    ensures AlwaysOneSeed(a, b) <==> a.entityType == b.entityType && a.text == b.text
  {
    var x, y := a.entityType + ":" + a.text, b.entityType + ":" + b.text;
    if AlwaysOneSeed(a, b) {
      var o := Oracle(_ => 0, (s: string) => if s == x then 1 else 0,
                      (etype: string, locale: Locale, seed: Digest64, n: nat) => "");
      assert SeedFor(o, a) == 1;
      assert SeedFor(o, b) == 1;
      TypePrefix(a.entityType, a.text, b.entityType, b.text);
    }
  }

  lemma NoColon(etype: string)
    requires etype in ENTITY_TYPES
    ensures ':' !in etype
  {
    TypesAreTokenPrefixes(etype);
  }

  lemma TypePrefix(e: string, s: string, f: string, t: string)
    requires e in ENTITY_TYPES && f in ENTITY_TYPES && e + ":" + s == f + ":" + t
    ensures e == f && s == t
  {
    var x, y := e + ":" + s, f + ":" + t;
    assert x[|e|] == ':' && y[|f|] == ':';
    assert |e| < |f| ==> f[|e|] == ':';
    assert |f| < |e| ==> e[|f|] == ':';
    NoColon(e);
    NoColon(f);
    assert e == x[..|e|] && f == y[..|f|] && s == x[|e| + 1..] && t == y[|f| + 1..];
  }

  /** Each attempt hashes a text of its own, the first one the original. */
  lemma AttemptsDiffer(text: string, a: nat, b: nat)
    requires a < MAX_COLLISION_ATTEMPTS && b < MAX_COLLISION_ATTEMPTS
    ensures AttemptText(text, a) == AttemptText(text, b) <==> a == b
    ensures AttemptText(text, 0) == text
  {
    if a > 0 && b > 0 {
      assert AttemptText(text, a)[|text| + 1] == "0123"[a];
      assert AttemptText(text, b)[|text| + 1] == "0123"[b];
    }
  }

  predicate Acceptable(candidate: string, key: CacheKey, used: set<string>) {
    candidate != key.text && candidate !in used
  }

  /** The first acceptable candidate from `attempt` on, else the fallback. */
  function Choose(o: Oracle, key: CacheKey, used: set<string>, attempt: nat): string
    requires attempt <= MAX_COLLISION_ATTEMPTS
    decreases MAX_COLLISION_ATTEMPTS - attempt
  {
    if attempt == MAX_COLLISION_ATTEMPTS then FallbackToken(key.entityType, SeedFor(o, key))
    else if Acceptable(Candidate(o, key, attempt), key, used) then Candidate(o, key, attempt)
    else Choose(o, key, used, attempt + 1)
  }

  /** What the generator remembers between calls. */
  datatype Memory = Memory(cache: OrderedDict<CacheKey, string>, used: set<string>)

  const Start := Memory(Empty(), {})

  function Evict(max: nat, m: Memory): Memory
    decreases |m.cache.keys|
  {
    if |m.cache.keys| <= max then m
    else
      var oldest := m.cache.keys[0];
      Evict(max, Memory(m.cache.PopOldest(),
                        if oldest in m.cache.vals then m.used - {m.cache.vals[oldest]} else m.used))
  }

  /** One call of `for_match`: the surrogate, and the memory afterwards. */
  function ForMatchSpec(o: Oracle, max: nat, m: Memory, key: CacheKey): (Memory, string) {
    if m.cache.Has(key) then (m.(cache := m.cache.MoveToEnd(key)), m.cache.vals[key])
    else
      var s := Choose(o, key, m.used, 0);
      (Evict(max, Memory(m.cache.Put(key, s), m.used + {s})), s)
  }

  class SurrogateGenerator {
    var cache: OrderedDict<CacheKey, string>
    var usedSurrogates: set<string>
    const maxCacheSize: nat
    const useFaker: bool
    const oracle: Oracle

    ghost predicate Valid()
      reads this
    {
      1 <= maxCacheSize && cache.Valid() && |cache.keys| <= maxCacheSize
    }

    function View(): Memory
      reads this
    {
      Memory(cache, usedSurrogates)
    }

    /** `max(1, configured)`: a typo cannot disable the cache. */
    constructor (configuredSize: int, useFaker: bool, oracle: Oracle)
      ensures Valid() && View() == Start
      ensures maxCacheSize == (if configuredSize < 1 then 1 else configuredSize)
      ensures this.useFaker == useFaker && this.oracle == oracle
    {
      cache, usedSurrogates := Empty(), {};
      maxCacheSize := if configuredSize < 1 then 1 else configuredSize;
      this.useFaker, this.oracle := useFaker, oracle;
    }

    /** `for_match` */
    method ForMatch(m: Match, useFakerOverride: Option<bool>, locale: Locale) returns (surrogate: string)
      requires Valid()
      modifies this
      ensures Valid()
      ensures (View(), surrogate)
           == ForMatchSpec(oracle, maxCacheSize, old(View()), KeyFor(useFaker, m, useFakerOverride, locale))
    {
      var key := KeyFor(useFaker, m, useFakerOverride, locale);
      if cache.Has(key) {
        cache.MoveToEndValid(key);
        surrogate := cache.vals[key];
        cache := cache.MoveToEnd(key);
      } else {
        surrogate := Pick(key);
        cache.PutValid(key, surrogate);
        cache := cache.Put(key, surrogate);
        usedSurrogates := usedSurrogates + {surrogate};
        EvictOverflow();
      }
    }

    /** The retry loop, and the fallback when every attempt collided. */
    method Pick(key: CacheKey) returns (surrogate: string)
      ensures surrogate == Choose(oracle, key, usedSurrogates, 0)
    {
      for attempt := 0 to MAX_COLLISION_ATTEMPTS
        invariant Choose(oracle, key, usedSurrogates, 0) == Choose(oracle, key, usedSurrogates, attempt)
      {
        var candidate := Candidate(oracle, key, attempt);
        if Acceptable(candidate, key, usedSurrogates) {
          return candidate;
        }
      }
      surrogate := FallbackToken(key.entityType, SeedFor(oracle, key));
    }

    /** Drop the oldest entries beyond the cap and free their surrogates. */
    method EvictOverflow()
      requires cache.Valid()
      modifies this
      ensures cache.Valid() && |cache.keys| <= maxCacheSize
      ensures View() == Evict(maxCacheSize, old(View()))
    {
      while |cache.keys| > maxCacheSize
        invariant cache.Valid()
        invariant Evict(maxCacheSize, View()) == Evict(maxCacheSize, old(View()))
        decreases |cache.keys|
      {
        cache.PopOldestValid();
        var evicted := cache.vals[cache.keys[0]];
        cache := cache.PopOldest();
        usedSurrogates := usedSurrogates - {evicted};
      }
    }
  }

  // ---- Invariants over any run of calls ----

  /** The two halves of the memory agree and no surrogate is shared. */
  ghost predicate Sound(max: nat, m: Memory) {
    && m.cache.Valid() && |m.cache.keys| <= max
    && m.used == m.cache.vals.Values
    && Injective(m.cache.vals)
  }

  /** A run of calls, oldest first, and the surrogates it returned. */
  function Run(o: Oracle, max: nat, m: Memory, keys: seq<CacheKey>): (r: (Memory, seq<string>))
    ensures |r.1| == |keys|
  {
    if keys == [] then (m, [])
    else
      var before := Run(o, max, m, keys[..|keys| - 1]);
      var last := ForMatchSpec(o, max, before.0, keys[|keys| - 1]);
      (last.0, before.1 + [last.1])
  }

  /** What a process remembers after its first calls. */
  function MemoryAfter(o: Oracle, max: nat, history: seq<CacheKey>): Memory {
    Run(o, max, Start, history).0
  }

  /** The retry loop gets past its guard in some attempt. */
  predicate SomeAttemptWorks(o: Oracle, key: CacheKey, used: set<string>, attempt: nat) {
    exists a :: attempt <= a < MAX_COLLISION_ATTEMPTS && Acceptable(Candidate(o, key, a), key, used)
  }

  /** The entity is cached, or an attempt works, or nobody holds its fallback
      token. */
  predicate FreshCall(o: Oracle, m: Memory, key: CacheKey) {
    || m.cache.Has(key)
    || SomeAttemptWorks(o, key, m.used, 0)
    || FallbackToken(key.entityType, SeedFor(o, key)) !in m.used
  }

  /** These are the calls that hand out a surrogate nobody holds. */
  lemma {:induction false} ChosenIsUnusedIff(o: Oracle, key: CacheKey, used: set<string>, attempt: nat)
    requires attempt <= MAX_COLLISION_ATTEMPTS
    ensures Choose(o, key, used, attempt) !in used <==>
              SomeAttemptWorks(o, key, used, attempt) || FallbackToken(key.entityType, SeedFor(o, key)) !in used
    decreases MAX_COLLISION_ATTEMPTS - attempt
  {
    if attempt == MAX_COLLISION_ATTEMPTS {
    } else {
      LaterAttempts(o, key, used, attempt);
      ChosenIsUnusedIff(o, key, used, attempt + 1);
    }
  }

  lemma LaterAttempts(o: Oracle, key: CacheKey, used: set<string>, attempt: nat)
    requires attempt < MAX_COLLISION_ATTEMPTS
    ensures SomeAttemptWorks(o, key, used, attempt) <==>
              Acceptable(Candidate(o, key, attempt), key, used) || SomeAttemptWorks(o, key, used, attempt + 1)
  {}

  /** Only the fallback can be taken: what an attempt yields is never in use. */
  lemma {:induction false} ChosenIsFreshOrFallback(o: Oracle, key: CacheKey, used: set<string>, attempt: nat)
    requires attempt <= MAX_COLLISION_ATTEMPTS
    ensures var s := Choose(o, key, used, attempt);
            || (s != key.text && s !in used
                && exists a :: attempt <= a < MAX_COLLISION_ATTEMPTS && s == Candidate(o, key, a))
            || s == FallbackToken(key.entityType, SeedFor(o, key))
    decreases MAX_COLLISION_ATTEMPTS - attempt
  {
    if attempt < MAX_COLLISION_ATTEMPTS && !Acceptable(Candidate(o, key, attempt), key, used) {
      ChosenIsFreshOrFallback(o, key, used, attempt + 1);
    }
  }

  /** Attempt `a` is the first from `attempt` on that works. */
  ghost predicate WorksFirst(o: Oracle, key: CacheKey, used: set<string>, attempt: nat, a: nat) {
    && attempt <= a < MAX_COLLISION_ATTEMPTS && Acceptable(Candidate(o, key, a), key, used)
    && forall b :: attempt <= b < a ==> !Acceptable(Candidate(o, key, b), key, used)
  }

  /** It decides, and the later ones are not looked at. */
  lemma {:induction false} FirstThatWorks(o: Oracle, key: CacheKey, used: set<string>, attempt: nat, a: nat)
    requires WorksFirst(o, key, used, attempt, a)
    ensures Choose(o, key, used, attempt) == Candidate(o, key, a)
    decreases a - attempt
  {
    if attempt < a {
      assert !Acceptable(Candidate(o, key, attempt), key, used);
      FirstThatWorks(o, key, used, attempt + 1, a);
    }
  }

  /** The fallback token is for when none does. */
  lemma {:induction false} NoneWorks(o: Oracle, key: CacheKey, used: set<string>, attempt: nat)
    requires attempt <= MAX_COLLISION_ATTEMPTS && !SomeAttemptWorks(o, key, used, attempt)
    ensures Choose(o, key, used, attempt) == FallbackToken(key.entityType, SeedFor(o, key))
    decreases MAX_COLLISION_ATTEMPTS - attempt
  {
    if attempt < MAX_COLLISION_ATTEMPTS {
      LaterAttempts(o, key, used, attempt);
      NoneWorks(o, key, used, attempt + 1);
    }
  }

  /** A miss on a cache within its cap: at most one entry goes, the oldest. */
  lemma EvictOne(max: nat, m: Memory)
    requires m.cache.Valid() && 1 <= |m.cache.keys| <= max + 1
    ensures |m.cache.keys| <= max ==> Evict(max, m) == m
    ensures max < |m.cache.keys| ==>
              Evict(max, m) == Memory(m.cache.PopOldest(), m.used - {m.cache.vals[m.cache.keys[0]]})
  {}

  lemma PopSound(max: nat, m: Memory)
    requires m.cache.Valid() && 1 <= max && |m.cache.keys| == max + 1
    requires m.used == m.cache.vals.Values && Injective(m.cache.vals)
    ensures Sound(max, Memory(m.cache.PopOldest(), m.used - {m.cache.vals[m.cache.keys[0]]}))
  {
    var k0 := m.cache.keys[0];
    m.cache.PopOldestValid();
    var left := m.cache.PopOldest();
    assert k0 in m.cache.vals;
    forall s
      ensures s in left.vals.Values <==> s in m.used && s != m.cache.vals[k0]
    {
      if s in m.used && s != m.cache.vals[k0] {
        var k :| k in m.cache.vals && m.cache.vals[k] == s;
        assert k in left.vals;
      }
      if s in left.vals.Values {
        var k :| k in left.vals && left.vals[k] == s;
        assert k in m.cache.vals && m.cache.vals[k] == s;
      }
    }
  }

  lemma FreshKeepsSound(o: Oracle, max: nat, m: Memory, key: CacheKey)
    requires 1 <= max && Sound(max, m) && FreshCall(o, m, key)
    ensures Sound(max, ForMatchSpec(o, max, m, key).0)
  {
    if m.cache.Has(key) {
      m.cache.MoveToEndValid(key);
    } else {
      var s := Choose(o, key, m.used, 0);
      ChosenIsUnusedIff(o, key, m.used, 0);
      var filled := Memory(m.cache.Put(key, s), m.used + {s});
      m.cache.PutValid(key, s);
      assert filled.used == filled.cache.vals.Values by {
        PutValues(m.cache.vals, key, s);
      }
      assert Injective(filled.cache.vals) by {
        assert forall k :: k in m.cache.vals ==> m.cache.vals[k] in m.used;
      }
      EvictOne(max, filled);
      if |filled.cache.keys| == max + 1 { PopSound(max, filled); }
    }
  }

  lemma PutValues(vals: map<CacheKey, string>, key: CacheKey, s: string)
    requires key !in vals
    ensures vals[key := s].Values == vals.Values + {s}
  {
    var next := vals[key := s];
    assert next[key] == s;
    forall v
      ensures v in next.Values <==> v in vals.Values + {s}
    {
      if v in vals.Values {
        var k :| k in vals && vals[k] == v;
        assert k in next && next[k] == v;
      }
    }
  }

  /** A call that is not fresh always breaks it: two live entries share a
      surrogate, or one is live and no longer marked as used. */
  lemma StaleBreaksSound(o: Oracle, max: nat, m: Memory, key: CacheKey)
    requires 1 <= max && Sound(max, m) && !FreshCall(o, m, key)
    ensures !Sound(max, ForMatchSpec(o, max, m, key).0)
  {
    var s := Choose(o, key, m.used, 0);
    ChosenIsUnusedIff(o, key, m.used, 0);
    var k :| k in m.cache.vals && m.cache.vals[k] == s;
    var filled := Memory(m.cache.Put(key, s), m.used + {s});
    m.cache.PutValid(key, s);
    EvictOne(max, filled);
    var after := Evict(max, filled);
    assert filled.cache.keys[|m.cache.keys|] == key;
    assert key in after.cache.vals && after.cache.vals[key] == s;
    if k in after.cache.vals {
      assert after.cache.vals[k] == s;
    } else {
      assert k == filled.cache.keys[0];
      assert s !in after.used && s in after.cache.vals.Values;
    }
  }

  /** A call keeps the memory sound exactly when it is fresh, whatever it evicts. */
  lemma StepKeepsSoundIff(o: Oracle, max: nat, m: Memory, key: CacheKey)
    requires 1 <= max && Sound(max, m)
    ensures Sound(max, ForMatchSpec(o, max, m, key).0) <==> FreshCall(o, m, key)
  {
    if FreshCall(o, m, key) { FreshKeepsSound(o, max, m, key); } else { StaleBreaksSound(o, max, m, key); }
  }

  lemma RunSnoc(o: Oracle, max: nat, m: Memory, keys: seq<CacheKey>, key: CacheKey)
    ensures var x := Run(o, max, m, keys);
            var y := ForMatchSpec(o, max, x.0, key);
            Run(o, max, m, keys + [key]) == (y.0, x.1 + [y.1])
  {}

  // ---- One request ----

  /** Every call of the run is fresh at the moment it is made. */
  predicate FreshRun(o: Oracle, max: nat, m: Memory, keys: seq<CacheKey>) {
    if keys == [] then true
    else
      var done := keys[..|keys| - 1];
      FreshRun(o, max, m, done) && FreshCall(o, Run(o, max, m, done).0, keys[|keys| - 1])
  }

  lemma {:induction false} RunKeepsSound(o: Oracle, max: nat, m: Memory, keys: seq<CacheKey>)
    requires 1 <= max && Sound(max, m) && FreshRun(o, max, m, keys)
    ensures Sound(max, Run(o, max, m, keys).0)
  {
    if keys == [] {
    } else {
      var n := |keys| - 1;
      RunKeepsSound(o, max, m, keys[..n]);
      FreshKeepsSound(o, max, Run(o, max, m, keys[..n]).0, keys[n]);
    }
  }

  /** `done` are the most recently used keys, in order. */
  ghost predicate AtTail(m: Memory, done: seq<CacheKey>) {
    exists front :: m.cache.keys == front + done
  }

  /** The memory holds `r[i]` for `keys[i]`. */
  ghost predicate Holds(m: Memory, keys: seq<CacheKey>, r: seq<string>)
    requires |keys| == |r|
  {
    forall i :: 0 <= i < |keys| ==> keys[i] in m.cache.vals && m.cache.vals[keys[i]] == r[i]
  }

  lemma TailHit(m: Memory, front: seq<CacheKey>, done: seq<CacheKey>, key: CacheKey)
    requires m.cache.Valid() && m.cache.keys == front + done && key in m.cache.vals && key !in done
    ensures m.cache.MoveToEnd(key).keys == Drop(front, key) + (done + [key])
  {
    assert key in m.cache.keys && key in front;
    DropAppend(front, done, key);
  }

  lemma TailMissWithRoom(o: Oracle, max: nat, m: Memory, front: seq<CacheKey>, done: seq<CacheKey>, key: CacheKey)
    requires m.cache.keys == front + done && |m.cache.keys| < max && key !in m.cache.vals
    ensures ForMatchSpec(o, max, m, key).0.cache
         == OrderedDict(front + (done + [key]), m.cache.vals[key := Choose(o, key, m.used, 0)])
  {}

  lemma ShiftLeft(front: seq<CacheKey>, done: seq<CacheKey>, key: CacheKey)
    requires front != []
    ensures ((front + done) + [key])[0] == front[0]
    ensures ((front + done) + [key])[1..] == front[1..] + (done + [key])
  {}

  lemma TailMissFull(o: Oracle, max: nat, m: Memory, front: seq<CacheKey>, done: seq<CacheKey>, key: CacheKey)
    requires m.cache.Valid() && m.cache.keys == front + done && |done| < max == |m.cache.keys|
    requires key !in m.cache.vals
    ensures front != []
    ensures ForMatchSpec(o, max, m, key).0.cache
         == OrderedDict(front[1..] + (done + [key]), m.cache.vals[key := Choose(o, key, m.used, 0)] - {front[0]})
  {
    var s := Choose(o, key, m.used, 0);
    m.cache.PutValid(key, s);
    EvictOne(max, Memory(m.cache.Put(key, s), m.used + {s}));
    ShiftLeft(front, done, key);
  }

  /** One more call leaves the earlier ones of the request alive and unchanged. */
  lemma TailGrows(o: Oracle, max: nat, m: Memory, done: seq<CacheKey>, r: seq<string>, key: CacheKey)
    requires 1 <= max && Sound(max, m) && |done| < max && Distinct(done) && key !in done
    requires AtTail(m, done) && |r| == |done| && Holds(m, done, r)
    ensures var (n, s) := ForMatchSpec(o, max, m, key);
            AtTail(n, done + [key]) && Holds(n, done + [key], r + [s])
  {
    var front :| m.cache.keys == front + done;
    if m.cache.Has(key) {
      TailHit(m, front, done, key);
    } else if |m.cache.keys| < max {
      TailMissWithRoom(o, max, m, front, done, key);
    } else {
      TailMissFull(o, max, m, front, done, key);
      assert m.cache.keys[0] == front[0] && m.cache.keys[0] in m.cache.vals;
      forall i | 0 <= i < |done|
        ensures done[i] != front[0]
      {
        assert m.cache.keys[|front| + i] == done[i];
      }
    }
  }

  /** As long as a request stays within the cap, all its entries are live
      together and hold what was returned for them. */
  lemma {:induction false} RequestStaysLive(o: Oracle, max: nat, m: Memory, keys: seq<CacheKey>)
    requires 1 <= max && Sound(max, m) && FreshRun(o, max, m, keys)
    requires Distinct(keys) && |keys| <= max
    ensures AtTail(Run(o, max, m, keys).0, keys)
    ensures Holds(Run(o, max, m, keys).0, keys, Run(o, max, m, keys).1)
  {
    if keys == [] {
      assert m.cache.keys == m.cache.keys + keys;
    } else {
      var last := |keys| - 1;
      var done, key := keys[..last], keys[last];
      RequestStaysLive(o, max, m, done);
      RunKeepsSound(o, max, m, done);
      var mid := Run(o, max, m, done);
      TailGrows(o, max, mid.0, done, mid.1, key);
      assert keys == done + [key];
    }
  }

  /** What a call returns differs from what live entries of other keys hold. */
  lemma ReturnsUnshared(o: Oracle, max: nat, m: Memory, key: CacheKey, done: seq<CacheKey>, r: seq<string>)
    requires Sound(max, m) && FreshCall(o, m, key) && key !in done
    requires |r| == |done| && Holds(m, done, r)
    ensures ForMatchSpec(o, max, m, key).1 !in r
  {
    ChosenIsUnusedIff(o, key, m.used, 0);
  }

  /** No surrogate is lost: distinct originals of one request get distinct
      surrogates, for up to one more original than the cache can hold. */
  lemma {:induction false} NoSurrogateLost(o: Oracle, max: nat, m: Memory, keys: seq<CacheKey>)
    requires 1 <= max && Sound(max, m) && FreshRun(o, max, m, keys)
    requires Distinct(keys) && |keys| <= max + 1
    ensures Distinct(Run(o, max, m, keys).1)
  {
    if keys == [] {
    } else {
      var last := |keys| - 1;
      var done, key := keys[..last], keys[last];
      NoSurrogateLost(o, max, m, done);
      RequestStaysLive(o, max, m, done);
      RunKeepsSound(o, max, m, done);
      var mid := Run(o, max, m, done);
      ReturnsUnshared(o, max, mid.0, key, done, mid.1);
      assert Run(o, max, m, keys).1 == mid.1 + [ForMatchSpec(o, max, mid.0, key).1];
    }
  }

  // ---- Opaque mode: freshness is not a hypothesis ----

  predicate OpaqueKey(key: CacheKey) {
    key.entityType in ENTITY_TYPES && !key.useFaker && key.locale == None
  }

  /** No two different entities of one type share a 64-bit seed. */
  ghost predicate SeedsDiffer(o: Oracle, keys: set<CacheKey>) {
    forall a, b :: a in keys && b in keys && a.entityType == b.entityType && SeedFor(o, a) == SeedFor(o, b) ==> a == b
  }

  ghost predicate OpaqueShape(o: Oracle, key: CacheKey, s: string) {
    || (exists d: Digest32 :: s == DigestToken(key.entityType, d))
    || s == FallbackToken(key.entityType, SeedFor(o, key))
  }

  /** What opaque entities hold, whatever Faker issued to others. */
  ghost predicate OpaqueEntries(o: Oracle, m: Memory) {
    forall k :: k in m.cache.vals && OpaqueKey(k) ==> OpaqueShape(o, k, m.cache.vals[k])
  }

  lemma OpaqueChoice(o: Oracle, key: CacheKey, used: set<string>)
    requires OpaqueKey(key)
    ensures OpaqueShape(o, key, Choose(o, key, used, 0))
  {}

  lemma EvictKeeps(max: nat, m: Memory)
    requires m.cache.Valid() && 1 <= |m.cache.keys| <= max + 1
    ensures Evict(max, m).cache.Valid() && |Evict(max, m).cache.keys| <= max
    ensures forall k :: k in Evict(max, m).cache.vals ==>
              k in m.cache.vals && Evict(max, m).cache.vals[k] == m.cache.vals[k]
  {
    EvictOne(max, m);
    m.cache.PopOldestValid();
  }

  /** A call adds at most its own entry to what was cached. */
  lemma StepKeeps(o: Oracle, max: nat, m: Memory, key: CacheKey)
    requires 1 <= max && m.cache.Valid() && |m.cache.keys| <= max
    ensures var (n, s) := ForMatchSpec(o, max, m, key);
            && n.cache.Valid() && |n.cache.keys| <= max
            && (forall k :: k in n.cache.vals && k != key ==> k in m.cache.vals && n.cache.vals[k] == m.cache.vals[k])
            && (key in n.cache.vals ==> n.cache.vals[key] == s)
            && s == if m.cache.Has(key) then m.cache.vals[key] else Choose(o, key, m.used, 0)
  {
    if m.cache.Has(key) {
      m.cache.MoveToEndValid(key);
    } else {
      var s := Choose(o, key, m.used, 0);
      m.cache.PutValid(key, s);
      EvictKeeps(max, Memory(m.cache.Put(key, s), m.used + {s}));
    }
  }

  lemma StepKeepsOpaque(o: Oracle, max: nat, m: Memory, key: CacheKey)
    requires 1 <= max && m.cache.Valid() && |m.cache.keys| <= max && OpaqueEntries(o, m)
    ensures OpaqueEntries(o, ForMatchSpec(o, max, m, key).0)
    ensures OpaqueKey(key) ==> OpaqueShape(o, key, ForMatchSpec(o, max, m, key).1)
  {
    StepKeeps(o, max, m, key);
    if OpaqueKey(key) { OpaqueChoice(o, key, m.used); }
  }

  lemma {:induction false} HistoryKeepsOpaque(o: Oracle, max: nat, history: seq<CacheKey>)
    requires 1 <= max
    ensures MemoryAfter(o, max, history).cache.Valid() && |MemoryAfter(o, max, history).cache.keys| <= max
    ensures OpaqueEntries(o, MemoryAfter(o, max, history))
  {
    if history == [] {
    } else {
      var before, key := history[..|history| - 1], history[|history| - 1];
      HistoryKeepsOpaque(o, max, before);
      StepKeeps(o, max, MemoryAfter(o, max, before), key);
      StepKeepsOpaque(o, max, MemoryAfter(o, max, before), key);
    }
  }

  /** No other entity in the cache holds the fallback token of one of `keys`. */
  ghost predicate TokensFree(o: Oracle, m: Memory, keys: set<CacheKey>) {
    forall k, c :: k in keys && c in m.cache.vals && c != k ==>
      m.cache.vals[c] != FallbackToken(k.entityType, SeedFor(o, k))
  }

  lemma FreeTokenIsFresh(o: Oracle, max: nat, m: Memory, key: CacheKey, keys: set<CacheKey>)
    requires Sound(max, m) && TokensFree(o, m, keys) && key in keys
    ensures FreshCall(o, m, key)
  {
    var token := FallbackToken(key.entityType, SeedFor(o, key));
    if token in m.used {
      var c :| c in m.cache.vals && m.cache.vals[c] == token;
      assert c == key;
    }
  }

  /** Only opaque entities, and no collision among their 64-bit seeds. */
  ghost predicate CollisionFree(o: Oracle, keys: set<CacheKey>) {
    SeedsDiffer(o, keys) && forall k :: k in keys ==> OpaqueKey(k)
  }

  /** An opaque surrogate can only be the fallback token of another entity if the
      64-bit seeds collide. */
  lemma OwnTokenOnly(o: Oracle, key: CacheKey, s: string, k: CacheKey, keys: set<CacheKey>)
    requires CollisionFree(o, keys) && key in keys && k in keys && key != k && OpaqueShape(o, key, s)
    ensures s != FallbackToken(k.entityType, SeedFor(o, k))
  {
    if s == FallbackToken(k.entityType, SeedFor(o, k)) {
      if d: Digest32 :| s == DigestToken(key.entityType, d) {
        ShapesDiffer(key.entityType, d, k.entityType, SeedFor(o, k));
      } else {
        FallbackInjective(key.entityType, SeedFor(o, key), k.entityType, SeedFor(o, k));
      }
    }
  }

  lemma StepKeepsTokensFree(o: Oracle, max: nat, m: Memory, key: CacheKey, keys: set<CacheKey>)
    requires 1 <= max && Sound(max, m) && OpaqueEntries(o, m) && TokensFree(o, m, keys)
    requires CollisionFree(o, keys) && key in keys
    ensures TokensFree(o, ForMatchSpec(o, max, m, key).0, keys)
  {
    var (n, s) := ForMatchSpec(o, max, m, key);
    StepKeeps(o, max, m, key);
    StepKeepsOpaque(o, max, m, key);
    forall k, c | k in keys && c in n.cache.vals && c != k
      ensures n.cache.vals[c] != FallbackToken(k.entityType, SeedFor(o, k))
    {
      if c == key { OwnTokenOnly(o, key, s, k, keys); }
    }
  }

  ghost predicate OpaqueShapes(o: Oracle, keys: seq<CacheKey>, r: seq<string>)
    requires |keys| == |r|
  {
    forall i :: 0 <= i < |keys| ==> OpaqueShape(o, keys[i], r[i])
  }

  /** What every opaque call keeps and the next one needs. */
  ghost predicate OpaqueState(o: Oracle, max: nat, m: Memory, keys: set<CacheKey>) {
    Sound(max, m) && OpaqueEntries(o, m) && TokensFree(o, m, keys)
  }

  lemma {:induction false} OpaqueRun(o: Oracle, max: nat, m: Memory, run: seq<CacheKey>, keys: set<CacheKey>)
    requires 1 <= max && OpaqueState(o, max, m, keys)
    requires (forall k :: k in run ==> k in keys) && CollisionFree(o, keys)
    ensures FreshRun(o, max, m, run)
    ensures OpaqueState(o, max, Run(o, max, m, run).0, keys)
    ensures OpaqueShapes(o, run, Run(o, max, m, run).1)
  {
    if run == [] {
    } else {
      var done, key := run[..|run| - 1], run[|run| - 1];
      OpaqueRun(o, max, m, done, keys);
      var mid := Run(o, max, m, done);
      FreeTokenIsFresh(o, max, mid.0, key, keys);
      FreshKeepsSound(o, max, mid.0, key);
      StepKeepsOpaque(o, max, mid.0, key);
      StepKeepsTokensFree(o, max, mid.0, key, keys);
      ShapesSnoc(o, done, mid.1, key, ForMatchSpec(o, max, mid.0, key).1);
      assert run == done + [key];
    }
  }

  lemma ShapesSnoc(o: Oracle, keys: seq<CacheKey>, r: seq<string>, key: CacheKey, s: string)
    requires |keys| == |r| && OpaqueShapes(o, keys, r) && OpaqueShape(o, key, s)
    ensures OpaqueShapes(o, keys + [key], r + [s])
  {}

  /** An opaque request after calls of any kind, Faker's included, that left the
      memory sound: no two of its seeds collide, and no other cached entity holds
      the fallback token of one of its originals. */
  ghost predicate OpaqueReady(o: Oracle, max: nat, history: seq<CacheKey>, request: seq<CacheKey>) {
    && CollisionFree(o, set k | k in request)
    && Sound(max, MemoryAfter(o, max, history))
    && TokensFree(o, MemoryAfter(o, max, history), set k | k in request)
  }

  /** Such a request of up to `max + 1` distinct entities gets pairwise distinct
      bracketed surrogates. */
  lemma OpaqueRequestLosesNothing(o: Oracle, max: nat, history: seq<CacheKey>, request: seq<CacheKey>)
    requires 1 <= max && Distinct(request) && |request| <= max + 1
    requires OpaqueReady(o, max, history, request)
    ensures var m := MemoryAfter(o, max, history);
            var r := Run(o, max, m, request).1;
            && FreshRun(o, max, m, request) && Distinct(r)
            && OpaqueShapes(o, request, r) && forall s :: s in r ==> Bracketed(s)
  {
    var keys := set k | k in request;
    var m := MemoryAfter(o, max, history);
    HistoryKeepsOpaque(o, max, history);
    OpaqueRun(o, max, m, request, keys);
    NoSurrogateLost(o, max, m, request);
    var r := Run(o, max, m, request).1;
    forall i | 0 <= i < |request|
      ensures Bracketed(r[i])
    {
      assert request[i] in keys;
      ShapeIsBracketed(o, request[i], r[i]);
    }
  }

  /** After opaque calls only, nothing but a collision of two 64-bit seeds can
      stand in the way. */
  lemma OpaqueHistoryIsReady(o: Oracle, max: nat, history: seq<CacheKey>, request: seq<CacheKey>)
    requires 1 <= max && CollisionFree(o, set k | k in history + request)
    ensures OpaqueReady(o, max, history, request)
  {
    OpaqueRun(o, max, Start, history, set k | k in history + request);
  }

  lemma ShapeIsBracketed(o: Oracle, key: CacheKey, s: string)
    requires OpaqueKey(key) && OpaqueShape(o, key, s)
    ensures Bracketed(s)
    ensures s != FallbackToken(key.entityType, SeedFor(o, key)) ==> TokenWaits(s)
  {
    TypesAreTokenPrefixes(key.entityType);
    if d: Digest32 :| s == DigestToken(key.entityType, d) {
      DigestTokenWaits(key.entityType, d);
    } else {
      FallbackBracketed(key.entityType, SeedFor(o, key));
    }
  }
}
