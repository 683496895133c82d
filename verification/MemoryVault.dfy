/** The in-process vault: entries by call id, a time to live, and a hard cap.

    Times are readings of a non-decreasing clock and are passed in.  `put` reads
    the clock twice, once to sweep and once to stamp the entry. */
module MemoryVaults {
  import opened OrderedDicts
  import opened Vault
  import opened Wrappers

  datatype Slot = Slot(ts: real, entry: VaultEntry)

  type Store = OrderedDict<string, Slot>

  predicate Expired(ttl: real, now: real, slot: Slot) {
    now - slot.ts > ttl
  }

  /** How many entries the sweep looks at before it meets a live one. */
  function ExpiredPrefix(ttl: real, now: real, store: Store, n: nat): (r: nat)
    requires n <= |store.keys|
    ensures n <= r <= |store.keys|
    decreases |store.keys| - n
  {
    if n < |store.keys| && store.keys[n] in store.vals && Expired(ttl, now, store.vals[store.keys[n]])
    then ExpiredPrefix(ttl, now, store, n + 1)
    else n
  }

  /** The store without its `n` oldest entries. */
  function DropFirst(store: Store, n: nat): Store
    requires n <= |store.keys|
  {
    OrderedDict(store.keys[n..], store.vals - set k | k in store.keys[..n])
  }

  function Sweep(ttl: real, now: real, store: Store): Store {
    DropFirst(store, ExpiredPrefix(ttl, now, store, 0))
  }

  function Cap(max: nat, store: Store): Store
    decreases |store.keys|
  {
    if |store.keys| <= max then store else Cap(max, store.PopOldest())
  }

  predicate Ignored(id: string, entry: VaultEntry) {
    id == "" || entry.IsEmpty()
  }

  function PutSpec(ttl: real, max: nat, store: Store, id: string, entry: VaultEntry, now1: real, now2: real): Store {
    if Ignored(id, entry) then store
    else Cap(max, Sweep(ttl, now1, store).Delete(id).Put(id, Slot(now2, entry)))
  }

  function PeekSpec(ttl: real, store: Store, id: string, now: real): VaultEntry {
    if id == "" || id !in store.vals || Expired(ttl, now, store.vals[id]) then NoEntry()
    else store.vals[id].entry
  }

  function PopSpec(store: Store, id: string): Store {
    if id == "" then store else store.Delete(id)
  }

  /** Every stored entry is a well-formed dict of surrogates. */
  ghost predicate EntriesValid(store: Store) {
    forall k :: k in store.vals ==> store.vals[k].entry.surrogates.Valid()
  }

  class MemoryVault {
    var store: Store
    const ttl: real
    const maxEntries: nat

    ghost predicate Valid()
      reads this
    {
      1 <= maxEntries && store.Valid() && |store.keys| <= maxEntries && EntriesValid(store)
    }

    constructor (ttl: real, configuredMax: int)
      ensures Valid() && store == Empty() && this.ttl == ttl
      ensures maxEntries == (if configuredMax < 1 then 1 else configuredMax)
    {
      store := Empty();
      this.ttl := ttl;
      maxEntries := if configuredMax < 1 then 1 else configuredMax;
    }

    method Put(id: string, entry: VaultEntry, now1: real, now2: real)
      requires Valid() && entry.surrogates.Valid()
      modifies this
      ensures Valid()
      ensures store == PutSpec(ttl, maxEntries, old(store), id, entry, now1, now2)
    {
      if Ignored(id, entry) { return; }
      EvictExpired(now1);
      store.DeleteValid(id);
      store := store.Delete(id);
      store.PutValid(id, Slot(now2, entry));
      store := store.Put(id, Slot(now2, entry));
      ghost var filled := store;
      while |store.keys| > maxEntries
        invariant store.Valid() && EntriesValid(store)
        invariant Cap(maxEntries, store) == Cap(maxEntries, filled)
        decreases |store.keys|
      {
        store.PopOldestValid();
        store := store.PopOldest();
      }
    }

    method Peek(id: string, now: real) returns (entry: VaultEntry)
      ensures entry == PeekSpec(ttl, store, id, now)
      ensures Valid() ==> entry.surrogates.Valid()
    {
      if id == "" || !store.Has(id) { return NoEntry(); }
      var slot := store.vals[id];
      if Expired(ttl, now, slot) { return NoEntry(); }
      return slot.entry;
    }

    method Pop(id: string, now: real) returns (entry: VaultEntry)
      requires Valid()
      modifies this
      ensures Valid()
      ensures store == PopSpec(old(store), id) && entry == PeekSpec(ttl, old(store), id, now)
    {
      if id == "" { return NoEntry(); }
      var found := if store.Has(id) then Some(store.vals[id]) else None;
      store.DeleteValid(id);
      store := store.Delete(id);
      if found.None? || Expired(ttl, now, found.value) { return NoEntry(); }
      return found.value.entry;
    }

    method Size() returns (n: nat)
      requires Valid()
      ensures n == |store.vals|
    {
      store.Size();
      n := |store.keys|;
    }

    /** `_evict_expired_locked`: list expired ids from the front, stop at the
        first live one, then delete the listed ids. */
    method EvictExpired(now: real)
      requires store.Valid()
      modifies this
      ensures store == Sweep(ttl, now, old(store)) && store.Valid()
    {
      var toDel := ListExpired(now);
      ghost var before, n := store, ExpiredPrefix(ttl, now, store, 0);
      DropNone(before);
      DropFirstIs(before, n);
      for i := 0 to |toDel|
        invariant store == DropFirst(before, i)
      {
        DeleteNext(before, i);
        assert toDel[i] == before.keys[i];
        store := store.Delete(toDel[i]);
      }
    }

    method ListExpired(now: real) returns (toDel: seq<string>)
      requires store.Valid()
      ensures toDel == store.keys[..ExpiredPrefix(ttl, now, store, 0)]
    {
      toDel := [];
      for i := 0 to |store.keys|
        invariant toDel == store.keys[..i]
        invariant ExpiredPrefix(ttl, now, store, 0) == ExpiredPrefix(ttl, now, store, i)
      {
        var id := store.keys[i];
        if !Expired(ttl, now, store.vals[id]) { break; }
        toDel := toDel + [id];
      }
    }
  }

  // ---- The order the sweep relies on ----

  /** Timestamps do not decrease along the store, and none is in the future. */
  ghost predicate Chronological(store: Store, clock: real) {
    && store.Valid()
    && (forall i, j :: 0 <= i < j < |store.keys| ==> store.vals[store.keys[i]].ts <= store.vals[store.keys[j]].ts)
    && (forall k :: k in store.vals ==> store.vals[k].ts <= clock)
  }

  lemma DropNone(store: Store)
    requires store.Valid()
    ensures DropFirst(store, 0) == store
  {}

  lemma DeleteNext(store: Store, n: nat)
    requires store.Valid() && n < |store.keys|
    ensures DropFirst(store, n).Delete(store.keys[n]) == DropFirst(store, n + 1)
  {
    assert Drop(store.keys[n..], store.keys[n]) == store.keys[n + 1..];
    assert store.keys[..n + 1] == store.keys[..n] + [store.keys[n]];
  }

  lemma DropFirstIs(store: Store, n: nat)
    requires store.Valid() && n <= |store.keys|
    ensures DropFirst(store, n).Valid()
    ensures KeepsOrder(store.keys, store.keys[n..])
  {}

  /** `a` stands somewhere before `b`. */
  ghost predicate InOrder(s: seq<string>, a: string, b: string) {
    exists i, j :: 0 <= i < j < |s| && s[i] == a && s[j] == b
  }

  /** Keys of `t` are in the order `s` has them in. */
  ghost predicate KeepsOrder(s: seq<string>, t: seq<string>) {
    forall i, j :: 0 <= i < j < |t| ==> InOrder(s, t[i], t[j])
  }

  lemma CutKeepsOrder(s: seq<string>, n: nat)
    requires n < |s|
    ensures KeepsOrder(s, s[..n] + s[n + 1..])
  {}

  lemma DropKeepsOrder(s: seq<string>, x: string)
    requires Distinct(s)
    ensures KeepsOrder(s, Drop(s, x))
  {
    if x in s {
      var n :| 0 <= n < |s| && s[n] == x;
      DropAt(s, x, n);
      CutKeepsOrder(s, n);
    } else {
      DropAbsent(s, x);
    }
  }

  lemma {:induction false} ExpiredPrefixIs(ttl: real, now: real, store: Store, n: nat)
    requires store.Valid() && n <= |store.keys|
    ensures var r := ExpiredPrefix(ttl, now, store, n);
            && (forall i :: n <= i < r ==> Expired(ttl, now, store.vals[store.keys[i]]))
            && (r < |store.keys| ==> !Expired(ttl, now, store.vals[store.keys[r]]))
    decreases |store.keys| - n
  {
    if n < |store.keys| && Expired(ttl, now, store.vals[store.keys[n]]) {
      ExpiredPrefixIs(ttl, now, store, n + 1);
    }
  }

  /** What is left of a chronological store, in the same order, is chronological. */
  lemma StaysChronological(store: Store, left: Store, clock: real)
    requires Chronological(store, clock) && left.Valid() && KeepsOrder(store.keys, left.keys)
    requires forall k :: k in left.vals ==> k in store.vals && left.vals[k] == store.vals[k]
    ensures Chronological(left, clock)
  {}

  lemma SweptIff(ttl: real, now: real, store: Store, clock: real, i: nat)
    requires Chronological(store, clock) && i < |store.keys|
    ensures Expired(ttl, now, store.vals[store.keys[i]]) <==> i < ExpiredPrefix(ttl, now, store, 0)
  {
    ExpiredPrefixIs(ttl, now, store, 0);
    var n := ExpiredPrefix(ttl, now, store, 0);
    if n < i { assert store.vals[store.keys[n]].ts <= store.vals[store.keys[i]].ts; }
  }

  lemma SweptKey(ttl: real, now: real, store: Store, clock: real, k: string)
    requires Chronological(store, clock)
    ensures k in Sweep(ttl, now, store).vals <==> k in store.vals && !Expired(ttl, now, store.vals[k])
  {
    var n := ExpiredPrefix(ttl, now, store, 0);
    if k in store.vals {
      var i :| 0 <= i < |store.keys| && store.keys[i] == k;
      SweptIff(ttl, now, store, clock, i);
      assert i < n ==> store.keys[..n][i] == k;
    }
  }

  /** In a chronological store, stopping at the first live entry misses nothing:
      the sweep removes exactly the expired entries. */
  lemma SweepRemovesExactlyExpired(ttl: real, now: real, store: Store, clock: real)
    requires Chronological(store, clock)
    ensures Chronological(Sweep(ttl, now, store), clock)
    ensures KeepsOrder(store.keys, Sweep(ttl, now, store).keys)
    ensures |Sweep(ttl, now, store).keys| <= |store.keys|
    ensures forall k :: k in Sweep(ttl, now, store).vals <==> k in store.vals && !Expired(ttl, now, store.vals[k])
    ensures forall k :: k in Sweep(ttl, now, store).vals ==> Sweep(ttl, now, store).vals[k] == store.vals[k]
  {
    DropFirstIs(store, ExpiredPrefix(ttl, now, store, 0));
    StaysChronological(store, Sweep(ttl, now, store), clock);
    forall k
      ensures k in Sweep(ttl, now, store).vals <==> k in store.vals && !Expired(ttl, now, store.vals[k])
    {
      SweptKey(ttl, now, store, clock, k);
    }
  }

  // ---- All runs ----

  datatype Event =
    | PutEvent(id: string, entry: VaultEntry, now1: real, now2: real)
    | PopEvent(id: string, now: real)

  function Begins(e: Event): real {
    match e case PutEvent(_, _, now1, _) => now1 case PopEvent(_, now) => now
  }

  function Ends(e: Event): real {
    match e case PutEvent(_, _, _, now2) => now2 case PopEvent(_, now) => now
  }

  /** The clock reading after the run; it never goes back. */
  ghost predicate Clocked(trace: seq<Event>, clock: real) {
    if trace == [] then true
    else
      var e := trace[|trace| - 1];
      Begins(e) <= Ends(e) <= clock && Clocked(trace[..|trace| - 1], Begins(e))
  }

  function After(ttl: real, max: nat, trace: seq<Event>): Store {
    if trace == [] then Empty()
    else
      var before := After(ttl, max, trace[..|trace| - 1]);
      match trace[|trace| - 1]
      case PutEvent(id, entry, now1, now2) => PutSpec(ttl, max, before, id, entry, now1, now2)
      case PopEvent(id, _) => PopSpec(before, id)
  }

  predicate Stores(e: Event, id: string) {
    e.PutEvent? && e.id == id && !Ignored(e.id, e.entry)
  }

  /** The latest entry put for `id`, unless it was popped since. */
  function Latest(trace: seq<Event>, id: string): Option<Slot> {
    if trace == [] then None
    else
      var e := trace[|trace| - 1];
      if Stores(e, id) then Some(Slot(e.now2, e.entry))
      else if e.PopEvent? && e.id == id then None
      else Latest(trace[..|trace| - 1], id)
  }

  /** The other ids put since then. */
  function OthersSince(trace: seq<Event>, id: string): set<string> {
    if trace == [] then {}
    else
      var e := trace[|trace| - 1];
      if Stores(e, id) then {}
      else OthersSince(trace[..|trace| - 1], id) + if e.PutEvent? && Stores(e, e.id) then {e.id} else {}
  }

  /** Everything stored behind `id` is in `others`. */
  ghost predicate Behind(store: Store, id: string, others: set<string>) {
    forall i, j :: 0 <= i < j < |store.keys| && store.keys[i] == id ==> store.keys[j] in others
  }

  /** How the store stands towards one id. */
  ghost predicate Tracks(ttl: real, max: nat, store: Store, clock: real, id: string,
                         latest: Option<Slot>, others: set<string>)
  {
    match latest
    case None => id !in store.vals
    case Some(slot) =>
      if id in store.vals then store.vals[id] == slot && Behind(store, id, others)
      else Expired(ttl, clock, slot) || max <= |others|
  }

  /** The capacity check runs once per put and drops at most the oldest entry. */
  lemma CapIs(max: nat, store: Store)
    requires store.Valid() && |store.keys| <= max + 1
    ensures Cap(max, store) == if |store.keys| <= max then store else store.PopOldest()
  {}

  lemma DeleteIs(store: Store, id: string, clock: real)
    requires Chronological(store, clock)
    ensures Chronological(store.Delete(id), clock)
    ensures KeepsOrder(store.keys, store.Delete(id).keys)
    ensures |store.Delete(id).keys| <= |store.keys|
  {
    store.DeleteValid(id);
    DropKeepsOrder(store.keys, id);
    StaysChronological(store, store.Delete(id), clock);
  }

  lemma AppendIs(store: Store, id: string, slot: Slot, clock: real)
    requires Chronological(store, clock) && id !in store.vals && clock <= slot.ts
    ensures Chronological(store.Put(id, slot), slot.ts)
  {}

  lemma BehindKept(store: Store, left: Store, id: string, others: set<string>)
    requires Distinct(store.keys) && KeepsOrder(store.keys, left.keys) && Behind(store, id, others)
    ensures Behind(left, id, others)
  {}

  /** The store right before the capacity check of a put. */
  function Filled(ttl: real, store: Store, id: string, entry: VaultEntry, now1: real, now2: real): Store {
    Sweep(ttl, now1, store).Delete(id).Put(id, Slot(now2, entry))
  }

  lemma FilledOrder(ttl: real, store: Store, id: string, entry: VaultEntry, now1: real, now2: real, clock: real)
    requires Chronological(store, clock) && clock <= now1 <= now2
    ensures Chronological(Filled(ttl, store, id, entry, now1, now2), now2)
    ensures |Filled(ttl, store, id, entry, now1, now2).keys| <= |store.keys| + 1
    ensures exists front :: Filled(ttl, store, id, entry, now1, now2).keys == front + [id]
                            && KeepsOrder(store.keys, front) && id !in front
  {
    var s := Sweep(ttl, now1, store);
    var d := s.Delete(id);
    SweepRemovesExactlyExpired(ttl, now1, store, clock);
    DeleteIs(s, id, clock);
    AppendIs(d, id, Slot(now2, entry), clock);
    s.DeleteValid(id);
    OrderTransitive(store.keys, s.keys, d.keys);
    assert Filled(ttl, store, id, entry, now1, now2).keys == d.keys + [id];
  }

  lemma FilledEntries(ttl: real, store: Store, id: string, entry: VaultEntry, now1: real, now2: real, clock: real)
    requires Chronological(store, clock) && clock <= now1 <= now2
    ensures var f := Filled(ttl, store, id, entry, now1, now2);
            && id in f.vals && f.vals[id] == Slot(now2, entry)
            && (forall k :: k in f.vals && k != id ==> k in store.vals && f.vals[k] == store.vals[k])
            && (forall k :: k in store.vals && k !in f.vals ==> Expired(ttl, now1, store.vals[k]))
  {
    SweepRemovesExactlyExpired(ttl, now1, store, clock);
  }

  lemma OrderTransitive(r: seq<string>, s: seq<string>, t: seq<string>)
    requires KeepsOrder(r, s) && KeepsOrder(s, t)
    ensures KeepsOrder(r, t)
  {}

  /** Adding `id` at the end puts only `id` behind the others. */
  lemma BehindFilled(store: Store, f: Store, front: seq<string>, id: string, k: string, others: set<string>)
    requires Distinct(store.keys) && f.keys == front + [id] && k != id
    requires KeepsOrder(store.keys, front) && Behind(store, k, others)
    ensures Behind(f, k, others + {id})
  {}

  /** Only an entry with at least `max` others behind it falls to the cap. */
  lemma CapSpares(max: nat, f: Store, k: string, others: set<string>)
    requires f.Valid() && 1 <= max && |f.keys| <= max + 1 && k in f.vals && Behind(f, k, others)
    ensures k in Cap(max, f).vals ==> Cap(max, f).vals[k] == f.vals[k] && Behind(Cap(max, f), k, others)
    ensures k !in Cap(max, f).vals ==> max <= |others|
  {
    CapIs(max, f);
    if |f.keys| == max + 1 {
      var behind := set x | x in f.keys[1..];
      DistinctCount(f.keys[1..]);
      if k == f.keys[0] {
        assert behind <= others by {
          forall x | x in behind
            ensures x in others
          {
            var j :| 0 <= j < |f.keys[1..]| && f.keys[1..][j] == x;
            assert f.keys[0] == k && f.keys[j + 1] == x;
          }
        }
        SubsetCount(behind, others);
      } else {
        forall i, j | 0 <= i < j < |f.keys[1..]| && f.keys[1..][i] == k
          ensures f.keys[1..][j] in others
        {
          assert f.keys[i + 1] == k;
        }
      }
    }
  }

  /** A put under an empty id, or of an entry without surrogates, changes nothing;
      any other is there afterwards, with the time of the second reading. */
  lemma PutIs(ttl: real, max: nat, store: Store, id: string, entry: VaultEntry, now1: real, now2: real, clock: real)
    requires 1 <= max && Chronological(store, clock) && |store.keys| <= max && clock <= now1 <= now2
    ensures var next := PutSpec(ttl, max, store, id, entry, now1, now2);
            if id == "" || entry.surrogates.keys == [] then next == store
            else id in next.vals && next.vals[id] == Slot(now2, entry)
  {
    if id != "" && entry.surrogates.keys != [] {
      var f := Filled(ttl, store, id, entry, now1, now2);
      FilledOrder(ttl, store, id, entry, now1, now2, clock);
      FilledEntries(ttl, store, id, entry, now1, now2, clock);
      assert Behind(f, id, {});
      CapSpares(max, f, id, {});
    }
  }

  /** What a put does to the bookkeeping of its own id, and of any other. */
  lemma PutTracksOwn(ttl: real, max: nat, store: Store, e: Event, clock: real)
    requires 1 <= max && Chronological(store, clock) && |store.keys| <= max
    requires e.PutEvent? && !Ignored(e.id, e.entry) && clock <= e.now1 <= e.now2
    ensures Tracks(ttl, max, PutSpec(ttl, max, store, e.id, e.entry, e.now1, e.now2), e.now2, e.id,
                   Some(Slot(e.now2, e.entry)), {})
  {
    var f := Filled(ttl, store, e.id, e.entry, e.now1, e.now2);
    FilledOrder(ttl, store, e.id, e.entry, e.now1, e.now2, clock);
    FilledEntries(ttl, store, e.id, e.entry, e.now1, e.now2, clock);
    var front :| f.keys == front + [e.id] && KeepsOrder(store.keys, front) && e.id !in front;
    assert Behind(f, e.id, {});
    CapSpares(max, f, e.id, {});
  }

  lemma PutTracksOther(ttl: real, max: nat, store: Store, e: Event, clock: real, k: string, slot: Slot,
                       others: set<string>)
    requires 1 <= max && Chronological(store, clock) && |store.keys| <= max
    requires e.PutEvent? && !Ignored(e.id, e.entry) && clock <= e.now1 <= e.now2 && k != e.id
    requires Tracks(ttl, max, store, clock, k, Some(slot), others)
    ensures Tracks(ttl, max, PutSpec(ttl, max, store, e.id, e.entry, e.now1, e.now2), e.now2, k, Some(slot),
                   others + {e.id})
  {
    var f := Filled(ttl, store, e.id, e.entry, e.now1, e.now2);
    FilledOrder(ttl, store, e.id, e.entry, e.now1, e.now2, clock);
    FilledEntries(ttl, store, e.id, e.entry, e.now1, e.now2, clock);
    SubsetCount(others, others + {e.id});
    if k in f.vals {
      var front :| f.keys == front + [e.id] && KeepsOrder(store.keys, front) && e.id !in front;
      BehindFilled(store, f, front, e.id, k, others);
      CapSpares(max, f, k, others + {e.id});
    } else {
      CapAddsNothing(max, f, k);
    }
  }

  lemma CapAddsNothing(max: nat, f: Store, k: string)
    requires f.Valid() && |f.keys| <= max + 1 && k !in f.vals
    ensures k !in Cap(max, f).vals
  {}

  lemma PutTracks(ttl: real, max: nat, store: Store, e: Event, clock: real, k: string,
                  latest: Option<Slot>, others: set<string>)
    requires 1 <= max && Chronological(store, clock) && |store.keys| <= max
    requires e.PutEvent? && !Ignored(e.id, e.entry) && clock <= e.now1 <= e.now2
    requires Tracks(ttl, max, store, clock, k, latest, others)
    ensures var left := PutSpec(ttl, max, store, e.id, e.entry, e.now1, e.now2);
            if k == e.id then Tracks(ttl, max, left, e.now2, k, Some(Slot(e.now2, e.entry)), {})
            else Tracks(ttl, max, left, e.now2, k, latest, others + {e.id})
  {
    if k == e.id {
      PutTracksOwn(ttl, max, store, e, clock);
    } else if latest.Some? {
      PutTracksOther(ttl, max, store, e, clock, k, latest.value, others);
    } else {
      FilledOrder(ttl, store, e.id, e.entry, e.now1, e.now2, clock);
      FilledEntries(ttl, store, e.id, e.entry, e.now1, e.now2, clock);
      CapAddsNothing(max, Filled(ttl, store, e.id, e.entry, e.now1, e.now2), k);
    }
  }

  lemma PopTracks(ttl: real, max: nat, store: Store, id: string, clock: real, now: real, k: string,
                  latest: Option<Slot>, others: set<string>)
    requires Chronological(store, clock) && clock <= now
    requires Tracks(ttl, max, store, clock, k, latest, others)
    ensures Tracks(ttl, max, store.Delete(id), now, k, if k == id then None else latest, others)
  {
    store.DeleteValid(id);
    DropKeepsOrder(store.keys, id);
    if latest.Some? && k in store.vals { BehindKept(store, store.Delete(id), k, others); }
  }

  lemma CapStaysChronological(max: nat, f: Store, clock: real)
    requires Chronological(f, clock) && |f.keys| <= max + 1
    ensures Chronological(Cap(max, f), clock) && |Cap(max, f).keys| <= max
  {
    CapIs(max, f);
    if |f.keys| == max + 1 {
      f.PopOldestValid();
      DropFirstIs(f, 1);
      StaysChronological(f, f.PopOldest(), clock);
    }
  }

  lemma StepKeepsOrder(ttl: real, max: nat, store: Store, e: Event, clock: real)
    requires 1 <= max && Chronological(store, clock) && |store.keys| <= max
    requires clock <= Begins(e) <= Ends(e)
    ensures var left := if e.PutEvent? then PutSpec(ttl, max, store, e.id, e.entry, e.now1, e.now2)
                        else PopSpec(store, e.id);
            Chronological(left, Ends(e)) && |left.keys| <= max
  {
    match e {
      case PopEvent(id, now) => DeleteIs(store, id, clock);
      case PutEvent(id, entry, now1, now2) =>
        if !Ignored(id, entry) {
          FilledOrder(ttl, store, id, entry, now1, now2, clock);
          CapStaysChronological(max, Filled(ttl, store, id, entry, now1, now2), now2);
        }
    }
  }

  /** The store after any run: in chronological order, within the cap, and on
      every id exactly as informed as the run allows. */
  lemma {:induction false} RunIs(ttl: real, max: nat, trace: seq<Event>, clock: real)
    requires 1 <= max && Clocked(trace, clock)
    ensures Chronological(After(ttl, max, trace), clock) && |After(ttl, max, trace).keys| <= max
    ensures forall k :: Tracks(ttl, max, After(ttl, max, trace), clock, k, Latest(trace, k), OthersSince(trace, k))
  {
    if trace == [] {
    } else {
      var e, before := trace[|trace| - 1], trace[..|trace| - 1];
      RunIs(ttl, max, before, Begins(e));
      StepKeepsOrder(ttl, max, After(ttl, max, before), e, Begins(e));
      ChronologicalLater(After(ttl, max, trace), Ends(e), clock);
      forall k
        ensures Tracks(ttl, max, After(ttl, max, trace), clock, k, Latest(trace, k), OthersSince(trace, k))
      {
        StepTracks(ttl, max, trace, k);
        TracksLater(ttl, max, After(ttl, max, trace), Ends(e), clock, k, Latest(trace, k), OthersSince(trace, k));
      }
    }
  }

  lemma ChronologicalLater(store: Store, clock: real, later: real)
    requires Chronological(store, clock) && clock <= later
    ensures Chronological(store, later)
  {}

  lemma TracksLater(ttl: real, max: nat, store: Store, clock: real, later: real, k: string,
                    latest: Option<Slot>, others: set<string>)
    requires Tracks(ttl, max, store, clock, k, latest, others) && clock <= later
    ensures Tracks(ttl, max, store, later, k, latest, others)
  {}

  lemma StepTracks(ttl: real, max: nat, trace: seq<Event>, k: string)
    requires 1 <= max && trace != []
    requires var e, before := trace[|trace| - 1], trace[..|trace| - 1];
             && Begins(e) <= Ends(e)
             && Chronological(After(ttl, max, before), Begins(e)) && |After(ttl, max, before).keys| <= max
             && Tracks(ttl, max, After(ttl, max, before), Begins(e), k, Latest(before, k), OthersSince(before, k))
    ensures Tracks(ttl, max, After(ttl, max, trace), Ends(trace[|trace| - 1]), k, Latest(trace, k),
                   OthersSince(trace, k))
  {
    var e, before := trace[|trace| - 1], trace[..|trace| - 1];
    var store := After(ttl, max, before);
    match e {
      case PopEvent(id, now) =>
        LatestHasId(before, k);
        if id != "" {
          PopTracks(ttl, max, store, id, now, now, k, Latest(before, k), OthersSince(before, k));
        }
      case PutEvent(id, entry, now1, now2) =>
        if Ignored(id, entry) {
          TracksLater(ttl, max, store, now1, now2, k, Latest(before, k), OthersSince(before, k));
        } else {
          PutTracks(ttl, max, store, e, now1, k, Latest(before, k), OthersSince(before, k));
        }
    }
  }

  /** Peeking after any run.  Nothing but the latest entry of that call id is
      ever returned; it is returned for sure while it is unexpired and fewer than
      `max` other ids were put since; and never once it expired. */
  lemma PeekAfterAnyRun(ttl: real, max: nat, trace: seq<Event>, clock: real, id: string, now: real)
    requires 1 <= max && Clocked(trace, clock) && clock <= now
    ensures var latest, found := Latest(trace, id), PeekSpec(ttl, After(ttl, max, trace), id, now);
            match latest
            case None => found == NoEntry()
            case Some(slot) =>
              && (found == slot.entry || found == NoEntry())
              && (!Expired(ttl, now, slot) && |OthersSince(trace, id)| < max ==> found == slot.entry)
              && (Expired(ttl, now, slot) ==> found == NoEntry())
  {
    RunIs(ttl, max, trace, clock);
    assert Tracks(ttl, max, After(ttl, max, trace), clock, id, Latest(trace, id), OthersSince(trace, id));
    LatestHasId(trace, "");
  }

  lemma {:induction false} LatestHasId(trace: seq<Event>, id: string)
    ensures Latest(trace, id).Some? ==> id != ""
  {
    if trace == [] {
    } else {
      LatestHasId(trace[..|trace| - 1], id);
    }
  }
}
