/** The in-memory result caches, used by many tasks at once.

    `get_or_compute` holds the lock twice, for the lookup and for the store, and
    computes in between without it, so the calls of different tasks interleave
    at those two points.  The detector cache has the same two sections; the
    pipeline cache adds `put`, which the prewarm step uses. */
module LruCaches {
  import opened OrderedDicts
  import opened Wrappers

  datatype CacheState<K(==,!new), V> = CacheState(entries: OrderedDict<K, V>, hits: nat, misses: nat)

  function Evict<K(!new), V>(max: nat, d: OrderedDict<K, V>): OrderedDict<K, V>
    decreases |d.keys|
  {
    if |d.keys| <= max then d else Evict(max, d.PopOldest())
  }

  /** The first locked section: the cached value, if any. */
  function LookupSpec<K(!new), V>(max: nat, s: CacheState<K, V>, key: K): (CacheState<K, V>, Option<V>) {
    if max == 0 then (s, None)
    else if s.entries.Has(key) then
      (CacheState(s.entries.MoveToEnd(key), s.hits + 1, s.misses), Some(s.entries.vals[key]))
    else (s.(misses := s.misses + 1), None)
  }

  /** The second locked section: the last writer wins. */
  function StoreSpec<K(!new), V>(max: nat, s: CacheState<K, V>, key: K, value: V): CacheState<K, V> {
    if max == 0 then s else s.(entries := Evict(max, s.entries.Put(key, value).MoveToEnd(key)))
  }

  /** `put`: the first writer wins. */
  function PutSpec<K(!new), V>(max: nat, s: CacheState<K, V>, key: K, value: V): CacheState<K, V> {
    if max == 0 || s.entries.Has(key) then s else StoreSpec(max, s, key, value)
  }

  class LruCache<K(==,!new), V> {
    var entries: OrderedDict<K, V>
    var hits: nat
    var misses: nat
    const maxSize: nat

    ghost predicate Valid()
      reads this
    {
      entries.Valid() && |entries.keys| <= maxSize
    }

    function View(): CacheState<K, V>
      reads this
    {
      CacheState(entries, hits, misses)
    }

    constructor (configuredSize: int)
      ensures Valid() && View() == CacheState(Empty(), 0, 0)
      ensures maxSize == (if configuredSize < 0 then 0 else configuredSize)
    {
      entries, hits, misses := Empty(), 0, 0;
      maxSize := if configuredSize < 0 then 0 else configuredSize;
    }

    predicate Enabled() { maxSize > 0 }

    method Lookup(key: K) returns (cached: Option<V>)
      requires Valid()
      modifies this
      ensures Valid() && (View(), cached) == LookupSpec(maxSize, old(View()), key)
    {
      cached := None;
      if !Enabled() { return; }
      if entries.Has(key) {
        cached := Some(entries.vals[key]);
        entries.MoveToEndValid(key);
        entries := entries.MoveToEnd(key);
        hits := hits + 1;
      } else {
        misses := misses + 1;
      }
    }

    method Store(key: K, value: V)
      requires Valid()
      modifies this
      ensures Valid() && View() == StoreSpec(maxSize, old(View()), key, value)
    {
      if !Enabled() { return; }
      entries.PutValid(key, value);
      entries := entries.Put(key, value);
      entries.MoveToEndValid(key);
      entries := entries.MoveToEnd(key);
      ghost var filled := entries;
      while |entries.keys| > maxSize
        invariant entries.Valid() && Evict(maxSize, entries) == Evict(maxSize, filled)
        invariant hits == old(hits) && misses == old(misses)
        decreases |entries.keys|
      {
        entries.PopOldestValid();
        entries := entries.PopOldest();
      }
    }

    method Put(key: K, value: V)
      requires Valid()
      modifies this
      ensures Valid() && View() == PutSpec(maxSize, old(View()), key, value)
    {
      if !Enabled() || entries.Has(key) { return; }
      Store(key, value);
    }
  }

  // ---- Interleavings ----

  /** Begin: a task enters `get_or_compute` and takes the first section.
      Finish: its computation yields a value and it takes the second section.
      Prewarm: somebody calls `put`. */
  datatype Step<K, V> = Begin(task: nat, key: K) | Finish(task: nat, value: V) | Prewarm(key: K, value: V)

  /** The shared cache, and which key each waiting task is computing. */
  datatype System<K(==,!new), V> = System(cache: CacheState<K, V>, pending: map<nat, K>)

  predicate Enabled<K(!new), V>(sys: System<K, V>, step: Step<K, V>) {
    match step
    case Begin(task, _) => task !in sys.pending
    case Finish(task, _) => task in sys.pending
    case Prewarm(_, _) => true
  }

  function Initial<K(!new), V>(): System<K, V> {
    System(CacheState(Empty(), 0, 0), map[])
  }

  function Next<K(!new), V>(max: nat, sys: System<K, V>, step: Step<K, V>): System<K, V>
    requires Enabled(sys, step)
  {
    match step
    case Begin(task, key) =>
      var (after, cached) := LookupSpec(max, sys.cache, key);
      System(after, if cached.Some? then sys.pending else sys.pending[task := key])
    case Finish(task, value) =>
      System(StoreSpec(max, sys.cache, sys.pending[task], value), sys.pending - {task})
    case Prewarm(key, value) =>
      sys.(cache := PutSpec(max, sys.cache, key, value))
  }

  /** The call that returns at this step: its key and the value it gets. */
  function Returns<K(!new), V>(max: nat, sys: System<K, V>, step: Step<K, V>): Option<(K, V)>
    requires Enabled(sys, step)
  {
    match step
    case Begin(_, key) =>
      var cached := LookupSpec(max, sys.cache, key).1;
      if cached.Some? then Some((key, cached.value)) else None
    case Finish(task, value) => Some((sys.pending[task], value))
    case Prewarm(_, _) => None
  }

  /** The value this step brings into the system, for which key. */
  ghost function Brings<K(!new), V>(sys: System<K, V>, step: Step<K, V>): set<(K, V)>
    requires Enabled(sys, step)
  {
    match step
    case Begin(_, _) => {}
    case Finish(task, value) => {(sys.pending[task], value)}
    case Prewarm(key, value) => {(key, value)}
  }

  /** The schedule is possible, step by step, and ends in `After`. */
  predicate Schedulable<K(==,!new), V>(max: nat, steps: seq<Step<K, V>>)
    decreases |steps|, 0
  {
    if steps == [] then true
    else
      var init := steps[..|steps| - 1];
      Schedulable(max, init) && Enabled(After(max, init), steps[|steps| - 1])
  }

  function After<K(==,!new), V>(max: nat, steps: seq<Step<K, V>>): System<K, V>
    requires Schedulable(max, steps)
    decreases |steps|, 1
  {
    if steps == [] then Initial() else Next(max, After(max, steps[..|steps| - 1]), steps[|steps| - 1])
  }

  /** Everything computed or prewarmed in the schedule, with its key. */
  ghost function Produced<K(!new), V>(max: nat, steps: seq<Step<K, V>>): set<(K, V)>
    requires Schedulable(max, steps)
  {
    if steps == [] then {}
    else
      var init := steps[..|steps| - 1];
      Produced(max, init) + Brings(After(max, init), steps[|steps| - 1])
  }

  /** How many calls of `get_or_compute` were made. */
  function Lookups<K, V>(steps: seq<Step<K, V>>): nat {
    if steps == [] then 0
    else Lookups(steps[..|steps| - 1]) + if steps[|steps| - 1].Begin? then 1 else 0
  }

  ghost predicate FromThere<K(!new), V>(d: OrderedDict<K, V>, produced: set<(K, V)>) {
    forall k :: k in d.vals ==> (k, d.vals[k]) in produced
  }

  /** One write: within the cap, the new value is in, and what is left of the
      rest is unchanged. */
  lemma StoreIs<K(!new), V>(max: nat, d: OrderedDict<K, V>, key: K, value: V)
    requires 1 <= max && d.Valid() && |d.keys| <= max
    ensures var e := Evict(max, d.Put(key, value).MoveToEnd(key));
            && e.Valid() && |e.keys| <= max
            && key in e.vals && e.vals[key] == value
            && forall k :: k in e.vals && k != key ==> k in d.vals && e.vals[k] == d.vals[k]
  {
    d.PutValid(key, value);
    var f := d.Put(key, value).MoveToEnd(key);
    d.Put(key, value).MoveToEndValid(key);
    if max < |f.keys| {
      f.PopOldestValid();
      assert f.keys[|f.keys| - 1] == key;
    }
  }

  /** Every reachable cache is within its cap, holds only values that were
      computed or prewarmed for their key, and counts its lookups. */
  lemma {:induction false} ReachableIs<K(!new), V>(max: nat, steps: seq<Step<K, V>>)
    requires Schedulable(max, steps)
    ensures var c := After(max, steps).cache;
            && c.entries.Valid() && |c.entries.keys| <= max
            && FromThere(c.entries, Produced(max, steps))
            && c.hits + c.misses == if max == 0 then 0 else Lookups(steps)
  {
    if steps == [] {
    } else {
      var init, step := steps[..|steps| - 1], steps[|steps| - 1];
      ReachableIs(max, init);
      var sys := After(max, init);
      match step {
        case Begin(_, key) =>
          if sys.cache.entries.Has(key) { sys.cache.entries.MoveToEndValid(key); }
        case Finish(task, value) =>
          if 1 <= max { StoreIs(max, sys.cache.entries, sys.pending[task], value); }
        case Prewarm(key, value) =>
          if 1 <= max { StoreIs(max, sys.cache.entries, key, value); }
      }
    }
  }

  /** Whatever the interleaving, a value returned for a key was computed or
      prewarmed for that very key. */
  lemma ReturnedWasProduced<K(!new), V>(max: nat, steps: seq<Step<K, V>>, step: Step<K, V>)
    requires Schedulable(max, steps + [step])
    ensures Schedulable(max, steps) && Enabled(After(max, steps), step)
    ensures Returns(max, After(max, steps), step).Some? ==>
              Returns(max, After(max, steps), step).value in Produced(max, steps + [step])
  {
    assert (steps + [step])[..|steps|] == steps;
    ReachableIs(max, steps);
  }

  /** If every value produced for a key is the one that key determines, callers
      cannot tell the cache from computing every time. */
  lemma CacheIsTransparent<K(!new), V>(max: nat, steps: seq<Step<K, V>>, step: Step<K, V>, compute: K -> V)
    requires Schedulable(max, steps + [step])
    requires forall p :: p in Produced(max, steps + [step]) ==> p.1 == compute(p.0)
    ensures Schedulable(max, steps) && Enabled(After(max, steps), step)
    ensures match Returns(max, After(max, steps), step)
            case None => true
            case Some((key, value)) => value == compute(key)
  {
    ReturnedWasProduced(max, steps, step);
  }

  /** A prewarm never changes a populated slot, nor its place in the LRU order. */
  lemma PrewarmNeverOverwrites<K(!new), V>(max: nat, steps: seq<Step<K, V>>, key: K, value: V)
    requires Schedulable(max, steps)
    ensures var before := After(max, steps).cache;
            var after := PutSpec(max, before, key, value);
            && (key in before.entries.vals ==> after == before)
            && (forall k :: k in after.entries.vals && k in before.entries.vals ==>
                  after.entries.vals[k] == before.entries.vals[k])
            && (key !in before.entries.vals && 1 <= max ==>
                  key in after.entries.vals && after.entries.vals[key] == value)
  {
    ReachableIs(max, steps);
    if 1 <= max { StoreIs(max, After(max, steps).cache.entries, key, value); }
  }

  // ---- Least recently used ----

  /** The key this step makes the most recently used, if it does. */
  function Touches<K(!new), V>(max: nat, sys: System<K, V>, step: Step<K, V>): Option<K>
    requires Enabled(sys, step)
  {
    if max == 0 then None
    else
      match step
      case Begin(_, key) => if sys.cache.entries.Has(key) then Some(key) else None
      case Finish(task, _) => Some(sys.pending[task])
      case Prewarm(key, _) => if sys.cache.entries.Has(key) then None else Some(key)
  }

  /** The other keys touched since `key` last was; None if it never was. */
  ghost function OthersSince<K(!new), V>(max: nat, steps: seq<Step<K, V>>, key: K): Option<set<K>>
    requires Schedulable(max, steps)
  {
    if steps == [] then None
    else
      var init := steps[..|steps| - 1];
      var touched := Touches(max, After(max, init), steps[|steps| - 1]);
      if touched == Some(key) then Some({})
      else
        match OthersSince(max, init, key)
        case None => None
        case Some(others) => Some(others + if touched.Some? then {touched.value} else {})
  }

  function SetOf<K>(keys: seq<K>): set<K> {
    set k | k in keys
  }

  /** What stands behind `key` is exactly `others`. */
  ghost predicate Behind<K>(keys: seq<K>, key: K, others: set<K>) {
    forall i :: 0 <= i < |keys| && keys[i] == key ==> SetOf(keys[i + 1..]) == others
  }

  lemma BehindTouch<K(!new)>(keys: seq<K>, key: K, touched: K, others: set<K>)
    requires Distinct(keys) && touched != key && Behind(keys, key, others)
    ensures Behind(Drop(keys, touched) + [touched], key, others + {touched})
  {
    var next := Drop(keys, touched) + [touched];
    forall i | 0 <= i < |next| && next[i] == key
      ensures SetOf(next[i + 1..]) == others + {touched}
    {
      if touched in keys {
        var n :| 0 <= n < |keys| && keys[n] == touched;
        DropAt(keys, touched, n);
        TouchedAt(keys, n, i, next);
      } else {
        DropAbsent(keys, touched);
        assert next[i + 1..] == keys[i + 1..] + [touched];
        SetOfPlus(keys[i + 1..], touched);
      }
    }
  }

  lemma SetOfPlus<K>(keys: seq<K>, k: K)
    ensures SetOf(keys + [k]) == SetOf(keys) + {k}
  {}

  lemma TouchedAt<K(!new)>(keys: seq<K>, n: nat, i: nat, next: seq<K>)
    requires Distinct(keys) && n < |keys| && i < |keys| - 1 && next == keys[..n] + keys[n + 1..] + [keys[n]]
    ensures var m := if i < n then i else i + 1;
            next[i] == keys[m] && SetOf(next[i + 1..]) == SetOf(keys[m + 1..]) + {keys[n]}
  {
    if i < n {
      assert next[i + 1..] == keys[i + 1..n] + keys[n + 1..] + [keys[n]];
      assert keys[i + 1..] == keys[i + 1..n] + [keys[n]] + keys[n + 1..];
    } else {
      assert next[i + 1..] == keys[i + 2..] + [keys[n]];
    }
  }

  lemma BehindOwn<K(!new)>(keys: seq<K>, key: K)
    requires Distinct(keys)
    ensures Behind(Drop(keys, key) + [key], key, {})
  {
    DropIs(keys, key);
    var left := Drop(keys, key);
    assert forall i :: 0 <= i < |left| ==> left[i] in left;
  }

  /** The oldest of `max + 1` keys has all the others behind it. */
  lemma PoppedHasOthers<K(!new)>(max: nat, keys: seq<K>, key: K, others: set<K>)
    requires Distinct(keys) && |keys| == max + 1 && Behind(keys, key, others)
    ensures keys[0] == key ==> |others| == max
    ensures keys[0] != key ==> Behind(keys[1..], key, others)
  {
    if keys[0] == key {
      DistinctCount(keys[1..]);
    } else {
      forall i | 0 <= i < |keys[1..]| && keys[1..][i] == key
        ensures SetOf(keys[1..][i + 1..]) == others
      {
        assert keys[i + 1] == key && keys[1..][i + 1..] == keys[i + 2..];
      }
    }
  }

  lemma BehindFewer<K(!new)>(max: nat, keys: seq<K>, key: K, others: set<K>)
    requires Distinct(keys) && |keys| <= max && key in keys && Behind(keys, key, others)
    ensures |others| < max
  {
    var i :| 0 <= i < |keys| && keys[i] == key;
    DistinctCount(keys[i + 1..]);
  }

  function Capped<K>(max: nat, keys: seq<K>): seq<K> {
    if |keys| <= max then keys else keys[1..]
  }

  /** A touch of a populated cache: the touched key goes last, and the oldest
      goes out if there is one too many. */
  lemma TouchedKeys<K(!new), V>(max: nat, d: OrderedDict<K, V>, touched: K, value: V)
    requires 1 <= max && d.Valid() && |d.keys| <= max
    ensures Evict(max, d.Put(touched, value).MoveToEnd(touched)).keys
         == Capped(max, Drop(d.keys, touched) + [touched])
  {
    DropIs(d.keys, touched);
    if touched !in d.vals {
      DropAbsent(d.keys, touched);
      DropAt(d.keys + [touched], touched, |d.keys|);
      assert Drop(d.keys + [touched], touched) == d.keys;
    }
    var f := d.Put(touched, value).MoveToEnd(touched);
    assert f.keys == Drop(d.keys, touched) + [touched];
  }

  ghost predicate Remembers<K(!new)>(max: nat, keys: seq<K>, key: K, others: Option<set<K>>) {
    match others
    case None => key !in keys
    case Some(o) => if key in keys then Behind(keys, key, o) else max <= |o|
  }

  lemma CapRemembers<K(!new)>(max: nat, keys: seq<K>, key: K, others: Option<set<K>>)
    requires Distinct(keys) && |keys| <= max + 1 && Remembers(max, keys, key, others)
    ensures Remembers(max, Capped(max, keys), key, others)
  {
    if |keys| == max + 1 {
      assert forall i :: 0 <= i < max ==> keys[1..][i] == keys[i + 1];
      if others.Some? && key in keys {
        PoppedHasOthers(max, keys, key, others.value);
        if keys[0] != key { assert key in keys[1..]; }
      }
    }
  }

  lemma MoveRemembers<K(!new)>(max: nat, keys: seq<K>, key: K, touched: K, others: Option<set<K>>)
    requires Distinct(keys) && Remembers(max, keys, key, others)
    ensures Remembers(max, Drop(keys, touched) + [touched], key,
                      if touched == key then Some({})
                      else if others.Some? then Some(others.value + {touched}) else None)
  {
    DropIs(keys, touched);
    if touched == key {
      BehindOwn(keys, key);
      assert (Drop(keys, touched) + [touched])[|Drop(keys, touched)|] == key;
    } else if others.Some? {
      assert others.value + {touched} == others.value + ({touched} - others.value);
      if key in keys { BehindTouch(keys, key, touched, others.value); }
    }
  }

  lemma TouchRemembers<K(!new)>(max: nat, keys: seq<K>, key: K, touched: K, others: Option<set<K>>)
    requires 1 <= max && Distinct(keys) && |keys| <= max && Remembers(max, keys, key, others)
    ensures Remembers(max, Capped(max, Drop(keys, touched) + [touched]), key,
                      if touched == key then Some({})
                      else if others.Some? then Some(others.value + {touched}) else None)
  {
    DropIs(keys, touched);
    MoveRemembers(max, keys, key, touched, others);
    CapRemembers(max, Drop(keys, touched) + [touched], key,
                 if touched == key then Some({})
                 else if others.Some? then Some(others.value + {touched}) else None);
  }

  /** In every reachable cache, the key stands where its last use put it. */
  lemma {:induction false} ReachableRemembers<K(!new), V>(max: nat, steps: seq<Step<K, V>>, key: K)
    requires 1 <= max && Schedulable(max, steps)
    ensures Remembers(max, After(max, steps).cache.entries.keys, key, OthersSince(max, steps, key))
  {
    if steps == [] {
    } else {
      var init, step := steps[..|steps| - 1], steps[|steps| - 1];
      ReachableRemembers(max, init, key);
      ReachableIs(max, init);
      var sys := After(max, init);
      var d := sys.cache.entries;
      var touched := Touches(max, sys, step);
      if touched.Some? {
        TouchRemembers(max, d.keys, key, touched.value, OthersSince(max, init, key));
        match step {
          case Begin(_, k) => d.MoveToEndValid(k);
          case Finish(_, value) => TouchedKeys(max, d, touched.value, value);
          case Prewarm(_, value) => TouchedKeys(max, d, touched.value, value);
        }
      }
    }
  }

  /** Used before, and fewer than `max` other keys were used since. */
  ghost predicate UsedRecently<K(!new), V>(max: nat, steps: seq<Step<K, V>>, key: K)
    requires Schedulable(max, steps)
  {
    OthersSince(max, steps, key).Some? && |OthersSince(max, steps, key).value| < max
  }

  /** A key is cached exactly until `max` other keys were used after it. */
  lemma CachedIff<K(!new), V>(max: nat, steps: seq<Step<K, V>>, key: K)
    requires 1 <= max && Schedulable(max, steps)
    ensures key in After(max, steps).cache.entries.vals <==> UsedRecently(max, steps, key)
  {
    ReachableRemembers(max, steps, key);
    ReachableIs(max, steps);
    var keys, others := After(max, steps).cache.entries.keys, OthersSince(max, steps, key);
    if others.Some? && key in keys { BehindFewer(max, keys, key, others.value); }
  }

  // ---- Answers ----

  /** The value last written for the key: every computed one is, a prewarmed one if
      the slot was free. */
  function Written<K(==,!new), V>(max: nat, steps: seq<Step<K, V>>, key: K): Option<V>
    requires Schedulable(max, steps)
  {
    if steps == [] then None
    else
      var init := steps[..|steps| - 1];
      var sys := After(max, init);
      match steps[|steps| - 1]
      case Begin(_, _) => Written(max, init, key)
      case Finish(task, value) => if sys.pending[task] == key then Some(value) else Written(max, init, key)
      case Prewarm(k, value) =>
        if k == key && key !in sys.cache.entries.vals then Some(value) else Written(max, init, key)
  }

  lemma {:induction false} HoldsWritten<K(!new), V>(max: nat, steps: seq<Step<K, V>>, key: K)
    requires Schedulable(max, steps) && key in After(max, steps).cache.entries.vals
    ensures Written(max, steps, key) == Some(After(max, steps).cache.entries.vals[key])
  {
    if steps == [] {
    } else {
      var init, step := steps[..|steps| - 1], steps[|steps| - 1];
      ReachableIs(max, init);
      ReachableIs(max, steps);
      var sys := After(max, init);
      if key in sys.cache.entries.vals { HoldsWritten(max, init, key); }
      match step {
        case Begin(_, _) =>
        case Finish(task, value) =>
          if 1 <= max { StoreIs(max, sys.cache.entries, sys.pending[task], value); }
        case Prewarm(k, value) =>
          if 1 <= max { StoreIs(max, sys.cache.entries, k, value); }
      }
    }
  }

  /** In every interleaving a call is answered at once exactly when its key was used
      before and fewer than `max` other keys since, and then with the value last
      written for the key.  Any other call goes on to compute. */
  lemma AnsweredIff<K(!new), V>(max: nat, steps: seq<Step<K, V>>, task: nat, key: K)
    requires Schedulable(max, steps) && task !in After(max, steps).pending
    ensures var sys, call := After(max, steps), Begin(task, key);
            && Enabled(sys, call)
            && (Returns(max, sys, call).Some? <==> 1 <= max && UsedRecently(max, steps, key))
            && (Returns(max, sys, call).Some? ==>
                  Written(max, steps, key).Some?
                  && Returns(max, sys, call) == Some((key, Written(max, steps, key).value)))
            && Next(max, sys, call).pending
            == if Returns(max, sys, call).Some? then sys.pending else sys.pending[task := key]
  {
    if 1 <= max {
      CachedIff(max, steps, key);
      if key in After(max, steps).cache.entries.vals { HoldsWritten(max, steps, key); }
    }
  }

  /** How many calls were answered at once. */
  function Answered<K(==,!new), V>(max: nat, steps: seq<Step<K, V>>): nat
    requires Schedulable(max, steps)
  {
    if steps == [] then 0
    else
      var init, step := steps[..|steps| - 1], steps[|steps| - 1];
      Answered(max, init) + if step.Begin? && Returns(max, After(max, init), step).Some? then 1 else 0
  }

  /** The two counters tell exactly how often the cache helped. */
  lemma {:induction false} CountersAre<K(!new), V>(max: nat, steps: seq<Step<K, V>>)
    requires Schedulable(max, steps)
    ensures After(max, steps).cache.hits == Answered(max, steps)
    ensures After(max, steps).cache.misses == if max == 0 then 0 else Lookups(steps) - Answered(max, steps)
  {
    if steps == [] {
    } else {
      CountersAre(max, steps[..|steps| - 1]);
    }
  }
}
