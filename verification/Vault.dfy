/** What the vault stores for one call, and how per-detector keyword arguments
    are frozen into something that can be a cache key. */
module Vault {
  import opened OrderedDicts
  import opened Sorting
  import opened Wrappers

  /** The Python values a detector may return as keyword arguments. */
  datatype Value =
    | Null
    | Bool(b: bool)
    | Int(n: int)
    | Float(r: real)
    | Str(s: string)
    | List(items: seq<Value>)
    | Tuple(items: seq<Value>)
    | Dict(fields: OrderedDict<string, Value>)

  type FrozenKwargs = seq<(string, Value)>
  type FrozenCallKwargs = seq<(string, FrozenKwargs)>

  datatype FreezeError = NestedDict

  /** `_freeze_value` */
  function FreezeValue(v: Value): Result<Value, FreezeError> {
    match v
    case List(items) => FreezeTuple(items)
    case Tuple(items) => FreezeTuple(items)
    case Dict(_) => Err(NestedDict)
    case _ => Ok(v)
  }

  function FreezeTuple(items: seq<Value>): Result<Value, FreezeError>
    decreases items, 1
  {
    match FreezeItems(items)
    case Ok(frozen) => Ok(Tuple(frozen))
    case Err(e) => Err(e)
  }

  function FreezeItems(items: seq<Value>): (r: Result<seq<Value>, FreezeError>)
    ensures r.Ok? ==> |r.value| == |items|
    decreases items, 0
  {
    if items == [] then Ok([])
    else
      match FreezeValue(items[0])
      case Err(e) => Err(e)
      case Ok(v) =>
        match FreezeItems(items[1..])
        case Err(e) => Err(e)
        case Ok(vs) => Ok([v] + vs)
  }

  /** A value that already went through freezing: no lists, no dicts. */
  predicate Frozen(v: Value) {
    match v
    case List(_) => false
    case Dict(_) => false
    case Tuple(items) => forall i :: 0 <= i < |items| ==> Frozen(items[i])
    case _ => true
  }

  predicate HasDict(v: Value) {
    match v
    case Dict(_) => true
    case List(items) => exists i :: 0 <= i < |items| && HasDict(items[i])
    case Tuple(items) => exists i :: 0 <= i < |items| && HasDict(items[i])
    case _ => false
  }

  /** Freezing fails exactly on a dict somewhere inside, yields a frozen value,
      and leaves exactly the frozen values alone. */
  lemma {:induction false} FreezeIs(v: Value)
    ensures FreezeValue(v).Err? <==> HasDict(v)
    ensures FreezeValue(v).Ok? ==> Frozen(FreezeValue(v).value)
    ensures FreezeValue(v) == Ok(v) <==> Frozen(v)
  {
    match v {
      case List(items) => FreezeItemsIs(items);
      case Tuple(items) => FreezeItemsIs(items);
      case _ =>
    }
  }

  lemma {:induction false} FreezeItemsIs(items: seq<Value>)
    ensures FreezeItems(items).Err? <==> exists i :: 0 <= i < |items| && HasDict(items[i])
    ensures FreezeItems(items).Ok? ==> forall i :: 0 <= i < |items| ==> Frozen(FreezeItems(items).value[i])
    ensures FreezeItems(items) == Ok(items) <==> forall i :: 0 <= i < |items| ==> Frozen(items[i])
  {
    if items == [] {
    } else {
      FreezeIs(items[0]);
      FreezeItemsIs(items[1..]);
      assert forall i :: 1 <= i < |items| ==> items[i] == items[1..][i - 1];
      assert items == [items[0]] + items[1..];
    }
  }

  /** The same value with every list, at any depth, a tuple. */
  ghost predicate Tupled(v: Value, w: Value) {
    match v
    case List(a) => w.Tuple? && |a| == |w.items| && forall i :: 0 <= i < |a| ==> Tupled(a[i], w.items[i])
    case Tuple(a) => w.Tuple? && |a| == |w.items| && forall i :: 0 <= i < |a| ==> Tupled(a[i], w.items[i])
    case Dict(_) => false
    case _ => w == v
  }

  /** Freezing makes lists into tuples and changes nothing else. */
  lemma {:induction false} FreezesToIff(v: Value, w: Value)
    ensures FreezeValue(v) == Ok(w) <==> Tupled(v, w)
  {
    match v {
      case List(a) => if w.Tuple? { ItemsFreezeToIff(a, w.items); }
      case Tuple(a) => if w.Tuple? { ItemsFreezeToIff(a, w.items); }
      case _ =>
    }
  }

  lemma {:induction false} ItemsFreezeToIff(a: seq<Value>, b: seq<Value>)
    ensures FreezeItems(a) == Ok(b) <==> |a| == |b| && forall i :: 0 <= i < |a| ==> Tupled(a[i], b[i])
  {
    if a == [] || b == [] {
    } else {
      FreezesToIff(a[0], b[0]);
      ItemsFreezeToIff(a[1..], b[1..]);
      assert b == [b[0]] + b[1..];
      assert forall i :: 1 <= i < |a| && i < |b| ==> a[i] == a[1..][i - 1] && b[i] == b[1..][i - 1];
    }
  }

  // ---- freeze_kwargs ----

  /** Python's order on strings: by code point, a prefix first. */
  predicate LexLe(a: string, b: string) {
    a == [] || (b != [] && (a[0] < b[0] || (a[0] == b[0] && LexLe(a[1..], b[1..]))))
  }

  lemma {:induction false} LexTotal(a: string, b: string)
    ensures LexLe(a, b) || LexLe(b, a)
    ensures LexLe(a, b) && LexLe(b, a) ==> a == b
  {
    if a != [] && b != [] && a[0] == b[0] {
      LexTotal(a[1..], b[1..]);
      assert a == [a[0]] + a[1..] && b == [b[0]] + b[1..];
    }
  }

  lemma {:induction false} LexTransitive(a: string, b: string, c: string)
    requires LexLe(a, b) && LexLe(b, c)
    ensures LexLe(a, c)
  {
    if a != [] && a[0] == b[0] && b[0] == c[0] {
      LexTransitive(a[1..], b[1..], c[1..]);
    }
  }

  /** A prefix comes first; otherwise the first difference decides. */
  ghost predicate ComesFirst(a: string, b: string) {
    a <= b || exists i :: 0 <= i < |a| && i < |b| && a[..i] == b[..i] && a[i] < b[i]
  }

  lemma {:induction false} LexIff(a: string, b: string)
    ensures LexLe(a, b) <==> ComesFirst(a, b)
  {
    if a == [] || b == [] {
    } else {
      LexIff(a[1..], b[1..]);
      assert a == [a[0]] + a[1..] && b == [b[0]] + b[1..];
      if a[0] == b[0] {
        if i :| 0 <= i < |a[1..]| && i < |b[1..]| && a[1..][..i] == b[1..][..i] && a[1..][i] < b[1..][i] {
          assert a[..i + 1] == [a[0]] + a[1..][..i] && b[..i + 1] == [b[0]] + b[1..][..i];
          assert a[i + 1] < b[i + 1];
        }
        if i :| 0 <= i < |a| && i < |b| && a[..i] == b[..i] && a[i] < b[i] {
          assert a[1..][..i - 1] == a[..i][1..] && b[1..][..i - 1] == b[..i][1..];
        }
      } else if a[0] < b[0] {
        assert a[..0] == b[..0];
      }
    }
  }

  lemma LexIsOrder()
    ensures TotalOrder(LexLe)
  {
    forall a, b
      ensures LexLe(a, b) || LexLe(b, a)
      ensures LexLe(a, b) && LexLe(b, a) ==> a == b
    {
      LexTotal(a, b);
    }
    forall a, b, c | LexLe(a, b) && LexLe(b, c)
      ensures LexLe(a, c)
    {
      LexTransitive(a, b, c);
    }
  }

  /** The frozen pairs of `keys`, in that order. */
  function FreezePairs(keys: seq<string>, kwargs: map<string, Value>): (r: Result<FrozenKwargs, FreezeError>)
    requires forall k :: k in keys ==> k in kwargs
    ensures r.Ok? ==> |r.value| == |keys|
  {
    if keys == [] then Ok([])
    else
      var rest := FreezePairs(keys[..|keys| - 1], kwargs);
      var last := keys[|keys| - 1];
      match rest
      case Err(e) => Err(e)
      case Ok(pairs) =>
        match FreezeValue(kwargs[last])
        case Err(e) => Err(e)
        case Ok(v) => Ok(pairs + [(last, v)])
  }

  function FreezeKwargsSpec(kwargs: OrderedDict<string, Value>): Result<FrozenKwargs, FreezeError>
    requires kwargs.Valid()
  {
    FreezePairs(Sort(LexLe, kwargs.keys), kwargs.vals)
  }

  method FreezeKwargs(kwargs: OrderedDict<string, Value>) returns (r: Result<FrozenKwargs, FreezeError>)
    requires kwargs.Valid()
    ensures r == FreezeKwargsSpec(kwargs)
  {
    var keys := Sort(LexLe, kwargs.keys);
    var out: FrozenKwargs := [];
    for i := 0 to |keys|
      invariant FreezePairs(keys[..i], kwargs.vals) == Ok(out)
    {
      FreezeOneMore(keys, kwargs.vals, i);
      var key := keys[i];
      var frozen := FreezeValue(kwargs.vals[key]);
      if frozen.Err? {
        FreezeStopsEarly(keys, kwargs.vals, i + 1);
        return Err(frozen.error);
      }
      out := out + [(key, frozen.value)];
    }
    assert keys[..|keys|] == keys;
    return Ok(out);
  }

  lemma FreezeOneMore(keys: seq<string>, kwargs: map<string, Value>, i: nat)
    requires (forall k :: k in keys ==> k in kwargs) && i < |keys|
    requires FreezePairs(keys[..i], kwargs).Ok?
    ensures var v := FreezeValue(kwargs[keys[i]]);
            FreezePairs(keys[..i + 1], kwargs) ==
              if v.Err? then Err(v.error) else Ok(FreezePairs(keys[..i], kwargs).value + [(keys[i], v.value)])
  {
    assert keys[..i + 1][..i] == keys[..i];
  }

  lemma {:induction false} FreezeStopsEarly(keys: seq<string>, kwargs: map<string, Value>, n: nat)
    requires forall k :: k in keys ==> k in kwargs
    requires n <= |keys| && FreezePairs(keys[..n], kwargs).Err?
    ensures FreezePairs(keys, kwargs) == FreezePairs(keys[..n], kwargs)
  {
    if n < |keys| {
      assert keys[..|keys| - 1][..n] == keys[..n];
      FreezeStopsEarly(keys[..|keys| - 1], kwargs, n);
    } else {
      assert keys[..n] == keys;
    }
  }

  lemma DistinctBag<T(!new)>(s: seq<T>, x: T)
    requires Distinct(s)
    ensures multiset(s)[x] == if x in s then 1 else 0
  {
    if s != [] {
      var rest := s[..|s| - 1];
      DistinctBag(rest, x);
      assert s == rest + [s[|s| - 1]];
    }
  }

  lemma SameKeysSameBag<T(!new)>(a: seq<T>, b: seq<T>)
    requires Distinct(a) && Distinct(b) && forall x :: x in a <==> x in b
    ensures multiset(a) == multiset(b)
  {
    forall x
      ensures multiset(a)[x] == multiset(b)[x]
    {
      DistinctBag(a, x);
      DistinctBag(b, x);
    }
  }

  /** One dict anywhere among the arguments is what makes freezing fail. */
  lemma {:induction false} FreezeFailsIff(keys: seq<string>, kwargs: map<string, Value>)
    requires forall k :: k in keys ==> k in kwargs
    ensures FreezePairs(keys, kwargs).Err? <==> exists k :: k in keys && HasDict(kwargs[k])
  {
    if keys == [] {
    } else {
      var init, last := keys[..|keys| - 1], keys[|keys| - 1];
      FreezeFailsIff(init, kwargs);
      FreezeIs(kwargs[last]);
      assert forall k :: k in keys <==> k in init || k == last;
    }
  }

  /** And nothing else is lost: the frozen pairs name every argument once, with
      its frozen value. */
  lemma {:induction false} FreezePairsAre(keys: seq<string>, kwargs: map<string, Value>, i: nat)
    requires (forall k :: k in keys ==> k in kwargs) && i < |keys|
    requires FreezePairs(keys, kwargs).Ok?
    ensures FreezePairs(keys, kwargs).value[i].0 == keys[i]
    ensures FreezeValue(kwargs[keys[i]]) == Ok(FreezePairs(keys, kwargs).value[i].1)
  {
    if i < |keys| - 1 {
      FreezePairsAre(keys[..|keys| - 1], kwargs, i);
    }
  }

  // ---- When two argument dicts freeze alike ----

  /** The same arguments up to what freezing forgets: their order, and lists or
      tuples. */
  ghost predicate SameArguments(a: map<string, Value>, b: map<string, Value>) {
    a.Keys == b.Keys && forall k :: k in a ==> FreezeValue(a[k]) == FreezeValue(b[k])
  }

  lemma {:induction false} FreezePairsAgree(keys: seq<string>, a: map<string, Value>, b: map<string, Value>)
    requires forall k :: k in keys ==> k in a && k in b && FreezeValue(a[k]) == FreezeValue(b[k])
    ensures FreezePairs(keys, a) == FreezePairs(keys, b)
  {
    if keys == [] {
    } else {
      FreezePairsAgree(keys[..|keys| - 1], a, b);
    }
  }

  lemma SameSortedKeys(a: OrderedDict<string, Value>, b: OrderedDict<string, Value>)
    requires a.Valid() && b.Valid() && a.vals.Keys == b.vals.Keys
    ensures Sort(LexLe, a.keys) == Sort(LexLe, b.keys)
  {
    LexIsOrder();
    forall k
      ensures k in a.keys <==> k in b.keys
    {
      assert k in a.vals.Keys <==> k in b.vals.Keys;
    }
    SameKeysSameBag(a.keys, b.keys);
    SortOrdered(LexLe, a.keys);
    SortOrdered(LexLe, b.keys);
    OrderedUnique(LexLe, Sort(LexLe, a.keys), Sort(LexLe, b.keys));
  }

  lemma FrozenKeys(d: OrderedDict<string, Value>, k: string)
    requires d.Valid() && FreezeKwargsSpec(d).Ok?
    ensures k in d.vals <==> exists i :: 0 <= i < |FreezeKwargsSpec(d).value| && FreezeKwargsSpec(d).value[i].0 == k
    ensures k in d.vals ==> FreezeValue(d.vals[k]).Ok? && (k, FreezeValue(d.vals[k]).value) in FreezeKwargsSpec(d).value
  {
    var keys, pairs := Sort(LexLe, d.keys), FreezeKwargsSpec(d).value;
    forall i | 0 <= i < |pairs|
      ensures pairs[i].0 == keys[i] && FreezeValue(d.vals[keys[i]]) == Ok(pairs[i].1)
    {
      FreezePairsAre(keys, d.vals, i);
    }
    if k in d.vals {
      assert k in d.keys && k in keys;
      var i :| 0 <= i < |keys| && keys[i] == k;
      assert pairs[i] == (k, FreezeValue(d.vals[k]).value);
    }
  }

  lemma FrozenValue(d: OrderedDict<string, Value>, k: string, v: Value)
    requires d.Valid() && FreezeKwargsSpec(d).Ok? && (k, v) in FreezeKwargsSpec(d).value
    ensures k in d.vals && FreezeValue(d.vals[k]) == Ok(v)
  {
    var keys, pairs := Sort(LexLe, d.keys), FreezeKwargsSpec(d).value;
    var i :| 0 <= i < |pairs| && pairs[i] == (k, v);
    FreezePairsAre(keys, d.vals, i);
  }

  /** Two argument dicts freeze to one tuple exactly when they hold the same
      arguments. */
  lemma FreezeAlikeIff(a: OrderedDict<string, Value>, b: OrderedDict<string, Value>)
    requires a.Valid() && b.Valid() && FreezeKwargsSpec(a).Ok? && FreezeKwargsSpec(b).Ok?
    ensures FreezeKwargsSpec(a) == FreezeKwargsSpec(b) <==> SameArguments(a.vals, b.vals)
  {
    if SameArguments(a.vals, b.vals) {
      SameSortedKeys(a, b);
      FreezePairsAgree(Sort(LexLe, a.keys), a.vals, b.vals);
    }
    if FreezeKwargsSpec(a) == FreezeKwargsSpec(b) {
      forall k
        ensures k in a.vals <==> k in b.vals
        ensures k in a.vals && k in b.vals ==> FreezeValue(a.vals[k]) == FreezeValue(b.vals[k])
      {
        FrozenKeys(a, k);
        FrozenKeys(b, k);
        if k in a.vals { FrozenValue(b, k, FreezeValue(a.vals[k]).value); }
      }
      assert a.vals.Keys == b.vals.Keys;
    }
  }

  /** The order in which a detector lists its arguments leaves no trace. */
  lemma FreezeIgnoresOrder(a: OrderedDict<string, Value>, b: OrderedDict<string, Value>)
    requires a.Valid() && b.Valid() && a.vals == b.vals
    ensures FreezeKwargsSpec(a) == FreezeKwargsSpec(b)
  {
    SameSortedKeys(a, b);
  }

  // ---- Frozen arguments as dictionary keys ----

  predicate IsNumber(v: Value) {
    v.Bool? || v.Int? || v.Float?
  }

  function NumberOf(v: Value): real
    requires IsNumber(v)
  {
    match v
    case Bool(b) => if b then 1.0 else 0.0
    case Int(n) => n as real
    case Float(r) => r
  }

  /** Python's `v == w` on values without dicts: numbers are compared by value, so
      that `True`, `1` and `1.0` are one dictionary key. */
  predicate Equal(v: Value, w: Value) {
    match (v, w)
    case (Tuple(a), Tuple(b)) => |a| == |b| && forall i :: 0 <= i < |a| ==> Equal(a[i], b[i])
    case (List(a), List(b)) => |a| == |b| && forall i :: 0 <= i < |a| ==> Equal(a[i], b[i])
    case _ => if IsNumber(v) && IsNumber(w) then NumberOf(v) == NumberOf(w) else v == w
  }

  ghost predicate EqualPairs(x: FrozenKwargs, y: FrozenKwargs) {
    |x| == |y| && forall i :: 0 <= i < |x| ==> x[i].0 == y[i].0 && Equal(x[i].1, y[i].1)
  }

  ghost predicate FreezeEqual(v: Value, w: Value) {
    FreezeValue(v).Ok? && FreezeValue(w).Ok? && Equal(FreezeValue(v).value, FreezeValue(w).value)
  }

  /** The same arguments up to what freezing and `==` do not tell apart. */
  ghost predicate EqualArguments(a: map<string, Value>, b: map<string, Value>) {
    a.Keys == b.Keys && forall k :: k in a ==> FreezeEqual(a[k], b[k])
  }

  lemma PairsAt(d: OrderedDict<string, Value>, i: nat)
    requires d.Valid() && FreezeKwargsSpec(d).Ok? && i < |d.keys|
    ensures var keys, pairs := Sort(LexLe, d.keys), FreezeKwargsSpec(d).value;
            && |keys| == |d.keys| == |pairs| && keys[i] in d.vals
            && pairs[i].0 == keys[i] && FreezeValue(d.vals[keys[i]]) == Ok(pairs[i].1)
  {
    FreezePairsAre(Sort(LexLe, d.keys), d.vals, i);
    assert Sort(LexLe, d.keys)[i] in d.keys;
  }

  lemma SortedIndex(d: OrderedDict<string, Value>, k: string) returns (i: nat)
    requires d.Valid() && k in d.vals
    ensures i < |d.keys| == |Sort(LexLe, d.keys)| && Sort(LexLe, d.keys)[i] == k
  {
    assert k in d.keys && k in Sort(LexLe, d.keys);
    i :| 0 <= i < |Sort(LexLe, d.keys)| && Sort(LexLe, d.keys)[i] == k;
  }

  lemma EqualArgumentsFreeze(a: OrderedDict<string, Value>, b: OrderedDict<string, Value>)
    requires a.Valid() && b.Valid() && FreezeKwargsSpec(a).Ok? && FreezeKwargsSpec(b).Ok?
    requires EqualArguments(a.vals, b.vals)
    ensures EqualPairs(FreezeKwargsSpec(a).value, FreezeKwargsSpec(b).value)
  {
    SameSortedKeys(a, b);
    forall i | 0 <= i < |a.keys|
      ensures i < |b.keys| && FreezeKwargsSpec(a).value[i].0 == FreezeKwargsSpec(b).value[i].0
      ensures Equal(FreezeKwargsSpec(a).value[i].1, FreezeKwargsSpec(b).value[i].1)
    {
      PairsAt(a, i);
      PairsAt(b, i);
      assert FreezeEqual(a.vals[Sort(LexLe, a.keys)[i]], b.vals[Sort(LexLe, a.keys)[i]]);
    }
  }

  lemma EqualPairsThaw(a: OrderedDict<string, Value>, b: OrderedDict<string, Value>)
    requires a.Valid() && b.Valid() && FreezeKwargsSpec(a).Ok? && FreezeKwargsSpec(b).Ok?
    requires EqualPairs(FreezeKwargsSpec(a).value, FreezeKwargsSpec(b).value)
    ensures forall k :: k in a.vals ==> k in b.vals && FreezeEqual(a.vals[k], b.vals[k])
    ensures forall k :: k in b.vals ==> k in a.vals
  {
    forall k | k in a.vals
      ensures k in b.vals && FreezeEqual(a.vals[k], b.vals[k])
    {
      var i := SortedIndex(a, k);
      PairsAt(a, i);
      PairsAt(b, i);
    }
    forall k | k in b.vals
      ensures k in a.vals
    {
      var i := SortedIndex(b, k);
      PairsAt(a, i);
      PairsAt(b, i);
    }
  }

  /** Two argument dicts freeze to one dictionary key exactly when they hold equal
      arguments. */
  lemma FreezeEqualIff(a: OrderedDict<string, Value>, b: OrderedDict<string, Value>)
    requires a.Valid() && b.Valid() && FreezeKwargsSpec(a).Ok? && FreezeKwargsSpec(b).Ok?
    ensures EqualPairs(FreezeKwargsSpec(a).value, FreezeKwargsSpec(b).value) <==> EqualArguments(a.vals, b.vals)
  {
    if EqualArguments(a.vals, b.vals) {
      EqualArgumentsFreeze(a, b);
    } else if EqualPairs(FreezeKwargsSpec(a).value, FreezeKwargsSpec(b).value) {
      EqualPairsThaw(a, b);
      assert false;
    }
  }

  // ---- Vault entries ----

  datatype VaultSurrogate = VaultSurrogate(original: string, entityType: string, sourceDetectors: seq<string>)

  datatype VaultEntry = VaultEntry(
    surrogates: OrderedDict<string, VaultSurrogate>,
    detectorMode: seq<string>,
    kwargs: FrozenCallKwargs)
  {
    predicate IsEmpty() { surrogates.keys == [] }
  }

  /** `VaultEntry()` */
  function NoEntry(): VaultEntry {
    VaultEntry(Empty(), [], [])
  }
}
