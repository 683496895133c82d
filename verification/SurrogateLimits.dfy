/** Where "no surrogate is lost" ends: the exact size of a request that is safe
    at every cap below 2^64, and the exact calls that lose one. */
module SurrogateLimits {
  import opened Matches
  import opened OrderedDicts
  import opened Surrogates
  import opened Tokens
  import opened Wrappers

  // ---- The size of a request ----

  /** The calls one request makes: different texts, the same overrides. */
  ghost predicate OneRequest(keys: seq<CacheKey>) {
    && (forall i, j :: 0 <= i < j < |keys| ==> keys[i].text != keys[j].text)
    && (forall k :: k in keys ==>
          && k.text != "" && k.entityType in ENTITY_TYPES
          && k.useFaker == keys[0].useFaker && k.locale == keys[0].locale)
  }

  /** Fresh calls are enough for this request to get different surrogates. */
  ghost predicate LosesNothing(o: Oracle, max: nat, m: Memory, keys: seq<CacheKey>) {
    Sound(max, m) && OneRequest(keys) && FreshRun(o, max, m, keys) ==> Distinct(Run(o, max, m, keys).1)
  }

  /** Whatever the hashes and whatever was cached before, a request of `n`
      originals whose calls are all fresh gets `n` different surrogates. */
  ghost predicate NeverLoses(max: nat, n: nat) {
    forall o: Oracle, m: Memory, keys: seq<CacheKey> :: |keys| == n ==> LosesNothing(o, max, m, keys)
  }

  /** As many letters, as many brackets. */
  function Letters(i: nat): string { seq(i + 1, _ => 'a') }

  function Brackets(i: nat): string { seq(i + 1, _ => '[') }

  /** Hashes for which the `i`-th original below is replaced as its number modulo
      `cycle` says. */
  ghost predicate Cycles(o: Oracle, cycle: nat)
    requires 1 <= cycle
  {
    && (forall text :: o.seed(text) == |text| % cycle)
    && (forall etype, locale, seed: Digest64, attempt: nat :: o.faker(etype, locale, seed, attempt) == Brackets(seed))
  }

  function Residue(n: nat, cycle: nat): (r: Digest64)
    requires 1 <= cycle <= 0x1_0000_0000_0000_0000
    ensures r == n % cycle
  {
    assert n % cycle < cycle;
    n % cycle
  }

  lemma CyclicHashes(cycle: nat) returns (o: Oracle)
    requires 1 <= cycle <= 0x1_0000_0000_0000_0000
    ensures Cycles(o, cycle)
  {
    o := Oracle(_ => 0, (text: string) => Residue(|text|, cycle),
                (etype: string, locale: Locale, seed: Digest64, attempt: nat) => Brackets(seed));
  }

  function Nth(i: nat): CacheKey {
    CacheKey("PERSON", Letters(i), true, None)
  }

  function FirstKeys(n: nat): seq<CacheKey> {
    seq(n, i requires 0 <= i < n => Nth(i))
  }

  function Nick(cycle: nat, i: nat): string
    requires 1 <= cycle
  {
    Brackets((i + 8) % cycle)
  }

  lemma NthDiffer(i: nat, j: nat)
    requires i != j
    ensures Letters(i) != Letters(j) && Nth(i) != Nth(j)
  {
    assert |Letters(i)| == i + 1 && |Letters(j)| == j + 1;
  }

  lemma NicksDiffer(cycle: nat, i: nat, j: nat)
    requires i < j < i + cycle
    ensures Nick(cycle, i) != Nick(cycle, j)
  {
    var a, b := i + 8, j + 8;
    if a % cycle == b % cycle {
      assert b - a == cycle * (b / cycle - a / cycle);
      assert false by { NoMultipleBetween(cycle, b / cycle - a / cycle); }
    }
    assert |Nick(cycle, i)| == a % cycle + 1 && |Nick(cycle, j)| == b % cycle + 1;
  }

  lemma NoMultipleBetween(cycle: nat, q: int)
    requires 1 <= cycle
    ensures !(0 < cycle * q < cycle)
  {
    if q >= 1 { assert cycle * q >= cycle; }
    if q <= 0 { assert cycle * q <= 0; }
  }

  lemma CyclicChoice(o: Oracle, cycle: nat, n: nat, used: set<string>)
    requires 1 <= cycle && Cycles(o, cycle) && Nick(cycle, n) !in used
    ensures Acceptable(Candidate(o, Nth(n), 0), Nth(n), used)
    ensures Choose(o, Nth(n), used, 0) == Nick(cycle, n)
  {
    var key := Nth(n);
    assert |"PERSON" + ":" + Letters(n)| == n + 8;
    assert Candidate(o, key, 0) == Nick(cycle, n);
    assert Nick(cycle, n)[0] == '[' && Letters(n)[0] == 'a';
  }

  /** The oldest of the first `n` keys that a cache of `cycle - 1` still has. */
  function Oldest(cycle: nat, n: nat): nat
    requires 1 <= cycle
  {
    if n < cycle then 0 else n - (cycle - 1)
  }

  /** The cache after the first `n` keys. */
  ghost predicate Recent(cycle: nat, n: nat, d: OrderedDict<CacheKey, string>)
    requires 1 <= cycle
  {
    && d.keys == FirstKeys(n)[Oldest(cycle, n)..]
    && forall i :: Oldest(cycle, n) <= i < n ==> Nth(i) in d.vals && d.vals[Nth(i)] == Nick(cycle, i)
  }

  lemma NickIsFree(cycle: nat, n: nat, m: Memory)
    requires 2 <= cycle && Sound(cycle - 1, m) && Recent(cycle, n, m.cache)
    ensures Nick(cycle, n) !in m.used && Nth(n) !in m.cache.vals
  {
    forall k | k in m.cache.vals
      ensures k != Nth(n) && m.cache.vals[k] != Nick(cycle, n)
    {
      var j :| 0 <= j < |m.cache.keys| && m.cache.keys[j] == k;
      var i := Oldest(cycle, n) + j;
      assert k == FirstKeys(n)[i];
      NthDiffer(i, n);
      NicksDiffer(cycle, i, n);
    }
  }

  lemma RecentWithRoom(cycle: nat, n: nat, d: OrderedDict<CacheKey, string>, next: OrderedDict<CacheKey, string>)
    requires n < cycle - 1 && Recent(cycle, n, d)
    requires next == OrderedDict(d.keys + ([] + [Nth(n)]), d.vals[Nth(n) := Nick(cycle, n)])
    ensures Recent(cycle, n + 1, next)
  {
    assert FirstKeys(n + 1)[0..] == FirstKeys(n)[0..] + [Nth(n)];
    forall i | 0 <= i < n
      ensures Nth(i) != Nth(n)
    {
      NthDiffer(i, n);
    }
  }

  lemma RecentWhenFull(cycle: nat, n: nat, d: OrderedDict<CacheKey, string>, next: OrderedDict<CacheKey, string>)
    requires 2 <= cycle <= n + 1 && Recent(cycle, n, d) && d.keys != []
    requires next == OrderedDict(d.keys[1..] + ([] + [Nth(n)]), d.vals[Nth(n) := Nick(cycle, n)] - {d.keys[0]})
    ensures Recent(cycle, n + 1, next)
  {
    var lo := Oldest(cycle, n);
    assert FirstKeys(n + 1)[lo + 1..] == FirstKeys(n)[lo..][1..] + [Nth(n)];
    assert d.keys[0] == Nth(lo);
    forall i | lo < i <= n
      ensures Nth(i) != Nth(lo) && (i < n ==> Nth(i) != Nth(n))
    {
      NthDiffer(i, lo);
      if i < n { NthDiffer(i, n); }
    }
  }

  lemma RecentGrows(o: Oracle, cycle: nat, max: nat, n: nat, m: Memory, next: nat)
    requires 2 <= cycle == max + 1 && Cycles(o, cycle) && next == n + 1
    requires Sound(max, m) && Recent(cycle, n, m.cache)
    ensures FreshCall(o, m, Nth(n))
    ensures ForMatchSpec(o, max, m, Nth(n)).1 == Nick(cycle, n)
    ensures Recent(cycle, next, ForMatchSpec(o, max, m, Nth(n)).0.cache)
  {
    var key := Nth(n);
    NickIsFree(cycle, n, m);
    CyclicChoice(o, cycle, n, m.used);
    assert m.cache.keys + [] == m.cache.keys;
    if n < max {
      TailMissWithRoom(o, max, m, m.cache.keys, [], key);
      RecentWithRoom(cycle, n, m.cache, ForMatchSpec(o, max, m, key).0.cache);
    } else {
      TailMissFull(o, max, m, m.cache.keys, [], key);
      RecentWhenFull(cycle, n, m.cache, ForMatchSpec(o, max, m, key).0.cache);
    }
  }

  /** Issued in the same order as counted. */
  ghost predicate Nicked(cycle: nat, r: seq<string>)
    requires 1 <= cycle
  {
    forall i :: 0 <= i < |r| ==> r[i] == Nick(cycle, i)
  }

  /** What the first `n` calls lead to. */
  ghost predicate Cycled(o: Oracle, cycle: nat, max: nat, n: nat, keys: seq<CacheKey>)
    requires 1 <= cycle
  {
    && FreshRun(o, max, Start, keys)
    && Recent(cycle, n, Run(o, max, Start, keys).0.cache) && Nicked(cycle, Run(o, max, Start, keys).1)
  }

  lemma {:induction false} CyclicRun(o: Oracle, cycle: nat, max: nat, n: nat)
    requires 2 <= cycle == max + 1 && Cycles(o, cycle)
    ensures Cycled(o, cycle, max, n, FirstKeys(n))
  {
    if n == 0 {
    } else {
      var i := n - 1;
      CyclicRun(o, cycle, max, i);
      CyclicNext(o, cycle, max, i, n, FirstKeys(i));
      FirstKeysSnoc(i, n);
    }
  }

  lemma FirstKeysSnoc(i: nat, n: nat)
    requires n == i + 1
    ensures FirstKeys(n) == FirstKeys(i) + [Nth(i)]
  {}

  lemma CyclicNext(o: Oracle, cycle: nat, max: nat, i: nat, n: nat, keys: seq<CacheKey>)
    requires 2 <= cycle == max + 1 && Cycles(o, cycle) && n == i + 1 && |keys| == i
    requires Cycled(o, cycle, max, i, keys)
    ensures Cycled(o, cycle, max, n, keys + [Nth(i)])
  {
    RunKeepsSound(o, max, Start, keys);
    RecentGrows(o, cycle, max, i, Run(o, max, Start, keys).0, n);
    CyclicStep(o, cycle, max, keys, Nth(i));
  }

  lemma CyclicStep(o: Oracle, cycle: nat, max: nat, keys: seq<CacheKey>, key: CacheKey)
    requires 1 <= cycle && FreshRun(o, max, Start, keys) && Nicked(cycle, Run(o, max, Start, keys).1)
    requires FreshCall(o, Run(o, max, Start, keys).0, key)
    requires ForMatchSpec(o, max, Run(o, max, Start, keys).0, key).1 == Nick(cycle, |keys|)
    ensures FreshRun(o, max, Start, keys + [key]) && Nicked(cycle, Run(o, max, Start, keys + [key]).1)
    ensures Run(o, max, Start, keys + [key]).0 == ForMatchSpec(o, max, Run(o, max, Start, keys).0, key).0
  {
    RunSnoc(o, max, Start, keys, key);
    FreshSnoc(o, max, Start, keys, key);
  }

  lemma FreshSnoc(o: Oracle, max: nat, m: Memory, keys: seq<CacheKey>, key: CacheKey)
    requires FreshRun(o, max, m, keys) && FreshCall(o, Run(o, max, m, keys).0, key)
    ensures FreshRun(o, max, m, keys + [key])
  {
    assert (keys + [key])[..|keys|] == keys;
  }

  lemma FirstKeysAreOneRequest(n: nat)
    ensures OneRequest(FirstKeys(n))
  {
    forall i, j | 0 <= i < j < n
      ensures FirstKeys(n)[i].text != FirstKeys(n)[j].text
    {
      NthDiffer(i, j);
    }
  }

  /** At every cap below 2^64, two originals more than the cap can lose one although
      every call is fresh: the first surrogate was freed by eviction and comes again. */
  lemma BeyondTheCapLosesOne(o: Oracle, max: nat, cycle: nat, keys: seq<CacheKey>)
    requires 1 <= max && cycle == max + 1 && Cycles(o, cycle) && cycle < |keys| && keys == FirstKeys(|keys|)
    ensures OneRequest(keys) && FreshRun(o, max, Start, keys)
    ensures Run(o, max, Start, keys).1[0] == Run(o, max, Start, keys).1[cycle]
  {
    CyclicRun(o, cycle, max, |keys|);
    FirstKeysAreOneRequest(|keys|);
    NickComesAgain(cycle);
  }

  lemma NickComesAgain(cycle: nat)
    requires 1 <= cycle
    ensures Nick(cycle, 0) == Nick(cycle, cycle)
  {
    var q := (8 + cycle) / cycle - 8 / cycle - 1;
    assert (8 + cycle) % cycle - 8 % cycle == cycle * (0 - q);
    NoMultipleBetween(cycle, q);
    NoMultipleBetween(cycle, 0 - q);
  }

  lemma SafeUpToTheCap(max: nat, n: nat)
    requires 1 <= max && n <= max + 1
    ensures NeverLoses(max, n)
  {
    forall o: Oracle, m: Memory, keys: seq<CacheKey> | |keys| == n
      ensures LosesNothing(o, max, m, keys)
    {
      if Sound(max, m) && OneRequest(keys) && FreshRun(o, max, m, keys) { NoSurrogateLost(o, max, m, keys); }
    }
  }

  lemma UnsafeBeyondTheCap(max: nat, n: nat)
    requires 1 <= max < 0x1_0000_0000_0000_0000 && max + 2 <= n
    ensures !NeverLoses(max, n)
  {
    var cycle, keys := max + 1, FirstKeys(n);
    var o := CyclicHashes(cycle);
    BeyondTheCapLosesOne(o, max, cycle, keys);
    OneLostIsEnough(o, max, keys, cycle);
  }

  lemma OneLostIsEnough(o: Oracle, max: nat, keys: seq<CacheKey>, i: nat)
    requires OneRequest(keys) && FreshRun(o, max, Start, keys)
    requires 0 < i < |keys| && Run(o, max, Start, keys).1[0] == Run(o, max, Start, keys).1[i]
    ensures !NeverLoses(max, |keys|)
  {
    StartIsSound(max);
    SameTwice(Run(o, max, Start, keys).1, i);
    Refuted(o, max, Start, keys);
  }

  lemma StartIsSound(max: nat)
    ensures Sound(max, Start)
  {}

  lemma SameTwice(r: seq<string>, i: nat)
    requires 0 < i < |r| && r[0] == r[i]
    ensures !Distinct(r)
  {}

  lemma Refuted(o: Oracle, max: nat, m: Memory, keys: seq<CacheKey>)
    requires !LosesNothing(o, max, m, keys)
    ensures !NeverLoses(max, |keys|)
  {}

  /** The safe size is one more than the cap, exactly. */
  lemma LosesNothingIff(max: nat, n: nat)
    requires 1 <= max < 0x1_0000_0000_0000_0000
    ensures NeverLoses(max, n) <==> n <= max + 1
  {
    if n <= max + 1 {
      SafeUpToTheCap(max, n);
    } else {
      UnsafeBeyondTheCap(max, n);
    }
  }

  // ---- The calls of a request ----

  lemma {:induction false} OnlyOwnKeys(o: Oracle, max: nat, keys: seq<CacheKey>)
    requires 1 <= max && FreshRun(o, max, Start, keys) && Distinct(keys) && |keys| <= max
    ensures Run(o, max, Start, keys).0.cache.keys == keys
  {
    if keys == [] {
    } else {
      var done, key := keys[..|keys| - 1], keys[|keys| - 1];
      assert keys == done + [key];
      OnlyOwnKeys(o, max, done);
      RunKeepsSound(o, max, Start, done);
      RunSnoc(o, max, Start, done, key);
      OneMoreKey(o, max, Run(o, max, Start, done).0, done, key);
    }
  }

  lemma OneMoreKey(o: Oracle, max: nat, m: Memory, done: seq<CacheKey>, key: CacheKey)
    requires Sound(max, m) && m.cache.keys == done && key !in done && |done| < max
    ensures ForMatchSpec(o, max, m, key).0.cache.keys == done + [key]
  {
    assert done == [] + done;
    TailMissWithRoom(o, max, m, [], done, key);
  }

  /** What is in use was returned for one of the keys. */
  lemma UsedWasReturned(max: nat, m: Memory, keys: seq<CacheKey>, r: seq<string>, s: string)
    requires Sound(max, m) && m.cache.keys == keys && |r| == |keys| && Surrogates.Holds(m, keys, r) && s in m.used
    ensures s in r
  {
    var k :| k in m.cache.vals && m.cache.vals[k] == s;
    var i :| 0 <= i < |keys| && keys[i] == k;
    assert r[i] == s;
  }

  /** The first call that is not fresh repeats a surrogate of the request. */
  lemma StaleRepeats(o: Oracle, max: nat, keys: seq<CacheKey>, key: CacheKey)
    requires 1 <= max && FreshRun(o, max, Start, keys) && Distinct(keys) && |keys| <= max
    requires !FreshCall(o, Run(o, max, Start, keys).0, key)
    ensures ForMatchSpec(o, max, Run(o, max, Start, keys).0, key).1 in Run(o, max, Start, keys).1
  {
    var (m, r) := Run(o, max, Start, keys);
    RunKeepsSound(o, max, Start, keys);
    OnlyOwnKeys(o, max, keys);
    RequestStaysLive(o, max, Start, keys);
    ChosenIsUnusedIff(o, key, m.used, 0);
    UsedWasReturned(max, m, keys, r, Choose(o, key, m.used, 0));
  }

  /** In a fresh process a request within the safe size loses nothing exactly when
      each of its calls is fresh. */
  lemma {:induction false} LosesNothingFromStartIff(o: Oracle, max: nat, keys: seq<CacheKey>)
    requires 1 <= max && Distinct(keys) && |keys| <= max + 1
    ensures Distinct(Run(o, max, Start, keys).1) <==> FreshRun(o, max, Start, keys)
  {
    if keys == [] {
    } else {
      var n := |keys| - 1;
      LosesNothingFromStartIff(o, max, keys[..n]);
      var before := Run(o, max, Start, keys[..n]);
      var r := Run(o, max, Start, keys).1;
      assert r[..n] == before.1;
      if FreshRun(o, max, Start, keys) {
        NoSurrogateLost(o, max, Start, keys);
      } else if FreshRun(o, max, Start, keys[..n]) {
        StaleRepeats(o, max, keys[..n], keys[n]);
        var i :| 0 <= i < n && before.1[i] == r[n];
        assert r[i] == r[n];
      }
    }
  }

  // ---- Seed collisions ----

  /** An uncached entity none of whose attempts gets past the guard. */
  predicate NothingWorks(o: Oracle, m: Memory, key: CacheKey) {
    !m.cache.Has(key) && !SomeAttemptWorks(o, key, m.used, 0)
  }

  /** It is given its fallback token, and the others' attempts work no better. */
  lemma FallsBack(o: Oracle, max: nat, m: Memory, key: CacheKey, other: CacheKey)
    requires NothingWorks(o, m, key)
    ensures ForMatchSpec(o, max, m, key).1 == FallbackToken(key.entityType, SeedFor(o, key))
    ensures |m.cache.keys| < max && NothingWorks(o, m, other) && other != key ==>
              NothingWorks(o, ForMatchSpec(o, max, m, key).0, other)
  {
    ChosenIsFreshOrFallback(o, key, m.used, 0);
    assert m.cache.keys + [] == m.cache.keys;
    if |m.cache.keys| < max { TailMissWithRoom(o, max, m, m.cache.keys, [], key); }
  }

  lemma OneCall(o: Oracle, max: nat, m: Memory, a: CacheKey, r: (Memory, string))
    requires r == ForMatchSpec(o, max, m, a)
    ensures Run(o, max, m, [a]) == (r.0, [r.1])
  {
    assert [] + [a] == [a] && [] + [r.1] == [r.1];
    RunSnoc(o, max, m, [], a);
  }

  lemma OneMoreCall(o: Oracle, max: nat, m: Memory, keys: seq<CacheKey>, a: CacheKey, all: seq<CacheKey>)
    requires all == keys + [a]
    ensures Run(o, max, m, all).1 == Run(o, max, m, keys).1 + [ForMatchSpec(o, max, Run(o, max, m, keys).0, a).1]
  {
    RunSnoc(o, max, m, keys, a);
  }

  lemma TwoCalls(o: Oracle, max: nat, m: Memory, a: CacheKey, b: CacheKey, r: (Memory, string))
    requires r == ForMatchSpec(o, max, m, a)
    ensures Run(o, max, m, [a, b]).1 == [r.1, ForMatchSpec(o, max, r.0, b).1]
  {
    OneCall(o, max, m, a, r);
    OneMoreCall(o, max, m, [a], b, [a, b]);
  }

  /** Two entities none of whose attempts works get one token between them exactly
      when they have one type and one seed, provided the cache has room for one. */
  lemma SeedCollisionLosesOne(o: Oracle, max: nat, m: Memory, a: CacheKey, b: CacheKey)
    requires |m.cache.keys| < max && a != b
    requires NothingWorks(o, m, a) && NothingWorks(o, m, b)
    ensures var r := Run(o, max, m, [a, b]).1;
            r[0] == r[1] <==> a.entityType == b.entityType && SeedFor(o, a) == SeedFor(o, b)
  {
    FallsBack(o, max, m, a, b);
    FallsBack(o, max, ForMatchSpec(o, max, m, a).0, b, a);
    TwoCalls(o, max, m, a, b, ForMatchSpec(o, max, m, a));
    if FallbackToken(a.entityType, SeedFor(o, a)) == FallbackToken(b.entityType, SeedFor(o, b)) {
      FallbackInjective(a.entityType, SeedFor(o, a), b.entityType, SeedFor(o, b));
    }
  }

  /** Hashes that do not tell texts apart. */
  ghost predicate Constant(o: Oracle) {
    forall text :: o.digest(text) == 0 && o.seed(text) == 0
  }

  lemma ConstantHashes() returns (o: Oracle)
    ensures Constant(o)
  {
    o := Oracle(_ => 0, _ => 0, (etype: string, locale: Locale, seed: Digest64, attempt: nat) => "");
  }

  function Person(text: string): CacheKey {
    CacheKey("PERSON", text, false, None)
  }

  lemma ConstantCandidate(o: Oracle, text: string, attempt: nat)
    requires Constant(o) && attempt < MAX_COLLISION_ATTEMPTS && |text| == 1
    ensures Candidate(o, Person(text), attempt) == DigestToken("PERSON", 0) != text
  {
    assert |DigestToken("PERSON", 0)| == 17;
  }

  lemma FirstPerson(o: Oracle, max: nat)
    requires 1 <= max && Constant(o)
    ensures var (m, s) := ForMatchSpec(o, max, Start, Person("a"));
            s == DigestToken("PERSON", 0) && m.cache.keys == [Person("a")] && m.used == {s}
            && m.cache.vals.Keys == {Person("a")}
  {
    var key := Person("a");
    ConstantCandidate(o, "a", 0);
    assert Choose(o, key, Start.used, 0) == DigestToken("PERSON", 0);
    TailMissWithRoom(o, max, Start, [], [], key);
    assert [] + ([] + [key]) == [key];
  }

  lemma NothingWorksFor(o: Oracle, m: Memory, text: string)
    requires Constant(o) && |text| == 1 && DigestToken("PERSON", 0) in m.used && Person(text) !in m.cache.vals
    ensures NothingWorks(o, m, Person(text))
  {
    forall a: nat | a < MAX_COLLISION_ATTEMPTS
      ensures !Acceptable(Candidate(o, Person(text), a), Person(text), m.used)
    {
      ConstantCandidate(o, text, a);
    }
  }

  /** Two entities of one type and one seed, none of whose attempts works. */
  lemma OneTokenForBoth(o: Oracle, max: nat, m: Memory, a: CacheKey, b: CacheKey)
    requires |m.cache.keys| < max && a != b && a.entityType == b.entityType && SeedFor(o, a) == SeedFor(o, b)
    requires NothingWorks(o, m, a) && NothingWorks(o, m, b)
    ensures var token := FallbackToken(a.entityType, SeedFor(o, a));
            Run(o, max, m, [a, b]).1 == [token, token]
  {
    SeedCollisionLosesOne(o, max, m, a, b);
    FallsBack(o, max, m, a, b);
    TwoCalls(o, max, m, a, b, ForMatchSpec(o, max, m, a));
  }

  lemma MemoryAfterTwo(o: Oracle, max: nat, m: Memory, a: CacheKey, b: CacheKey, r: (Memory, string))
    requires r == ForMatchSpec(o, max, m, a)
    ensures Run(o, max, m, [a, b]).0 == ForMatchSpec(o, max, r.0, b).0
  {
    OneCall(o, max, m, a, r);
    RunSnoc(o, max, m, [a], b);
    assert [a] + [b] == [a, b];
  }

  /** A call, and two more. */
  lemma ThreeCalls(o: Oracle, max: nat, m: Memory, a: CacheKey, b: CacheKey, c: CacheKey, r: (Memory, string))
    requires r == ForMatchSpec(o, max, m, a)
    ensures Run(o, max, m, [a, b, c]).1 == [r.1] + Run(o, max, r.0, [b, c]).1
  {
    TwoCalls(o, max, m, a, b, r);
    TwoCalls(o, max, r.0, b, c, ForMatchSpec(o, max, r.0, b));
    OneMoreCall(o, max, m, [a, b], c, [a, b, c]);
    MemoryAfterTwo(o, max, m, a, b, r);
  }

  function ThreePersons(): seq<CacheKey> {
    [Person("a"), Person("b"), Person("c")]
  }

  lemma ThreePersonsCollide(o: Oracle, max: nat)
    requires 2 <= max && Constant(o)
    ensures var token := FallbackToken("PERSON", 0);
            Run(o, max, Start, ThreePersons()).1 == [DigestToken("PERSON", 0), token, token]
  {
    var a, b, c := Person("a"), Person("b"), Person("c");
    FirstPerson(o, max);
    var m := ForMatchSpec(o, max, Start, a).0;
    NothingWorksFor(o, m, "b");
    NothingWorksFor(o, m, "c");
    OneTokenForBoth(o, max, m, b, c);
    ThreeCalls(o, max, Start, a, b, c, ForMatchSpec(o, max, Start, a));
  }

  lemma RepeatIsNotFresh(o: Oracle, max: nat, keys: seq<CacheKey>, r: seq<string>)
    requires 1 <= max && Distinct(keys) && |keys| <= max + 1 && r == Run(o, max, Start, keys).1
    requires 3 <= |r| && r[1] == r[2]
    ensures !FreshRun(o, max, Start, keys)
  {
    LosesNothingFromStartIff(o, max, keys);
  }

  /** And it does happen, in a fresh process: of three opaque originals the first
      takes the only digest token, and the other two are given one fallback token. */
  lemma SeedCollisionHappens(o: Oracle, max: nat)
    requires 2 <= max && Constant(o)
    ensures var keys := ThreePersons();
            var r := Run(o, max, Start, keys).1;
            && OneRequest(keys) && |keys| <= max + 1
            && r[0] != r[1] && r[1] == r[2] && !FreshRun(o, max, Start, keys)
  {
    var keys := ThreePersons();
    ThreePersonsCollide(o, max);
    ShapesDiffer("PERSON", 0, "PERSON", 0);
    RepeatIsNotFresh(o, max, keys, Run(o, max, Start, keys).1);
  }
}
