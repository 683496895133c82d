/** Python's `OrderedDict`: a mapping that also remembers insertion order.
    Kept as a duplicate-free key sequence (oldest first) plus a map. */
module OrderedDicts {
  predicate Distinct<T(==)>(s: seq<T>) {
    forall i, j :: 0 <= i < j < |s| ==> s[i] != s[j]
  }

  ghost predicate Injective<K(!new), V>(vals: map<K, V>) {
    forall j, k :: j in vals && k in vals && vals[j] == vals[k] ==> j == k
  }

  /** `s` without the first occurrence of `x`. */
  function Drop<T(==)>(s: seq<T>, x: T): seq<T> {
    if s == [] then []
    else if s[0] == x then s[1..]
    else [s[0]] + Drop(s[1..], x)
  }

  lemma {:induction false} DropAt<T>(s: seq<T>, x: T, i: nat)
    requires i < |s| && s[i] == x && x !in s[..i]
    ensures Drop(s, x) == s[..i] + s[i + 1..]
  {
    if i == 0 {
    } else {
      assert s[0] in s[..i];
      assert s[1..][..i - 1] == s[..i][1..];
      DropAt(s[1..], x, i - 1);
      assert s[..i] == [s[0]] + s[..i][1..];
    }
  }

  lemma {:induction false} DropAbsent<T>(s: seq<T>, x: T)
    requires x !in s
    ensures Drop(s, x) == s
  {
    if s == [] {
    } else {
      assert s == [s[0]] + s[1..];
      DropAbsent(s[1..], x);
    }
  }

  /** In a duplicate-free sequence `Drop` takes out exactly `x`. */
  lemma DropIs<T(!new)>(s: seq<T>, x: T)
    requires Distinct(s)
    ensures |Drop(s, x)| == if x in s then |s| - 1 else |s|
    ensures Distinct(Drop(s, x))
    ensures forall y :: y in Drop(s, x) <==> y in s && y != x
  {
    if x in s {
      var i :| 0 <= i < |s| && s[i] == x;
      DropAt(s, x, i);
      CutOut(s, i);
    } else {
      DropAbsent(s, x);
    }
  }

  lemma CutOut<T(!new)>(s: seq<T>, i: nat)
    requires Distinct(s) && i < |s|
    ensures Distinct(s[..i] + s[i + 1..])
    ensures forall y :: y in s[..i] + s[i + 1..] <==> y in s && y != s[i]
  {}

  lemma {:induction false} DropAppend<T>(p: seq<T>, q: seq<T>, x: T)
    requires x in p
    ensures Drop(p + q, x) == Drop(p, x) + q
  {
    if p[0] == x {
      assert (p + q)[1..] == p[1..] + q;
    } else {
      DropAppend(p[1..], q, x);
      assert (p + q)[1..] == p[1..] + q;
    }
  }

  lemma SubsetCount<T>(a: set<T>, b: set<T>)
    requires a <= b
    ensures |a| <= |b|
  {
    assert b == a + (b - a);
  }

  lemma DistinctCount<T>(s: seq<T>)
    requires Distinct(s)
    ensures |set x | x in s| == |s|
  {
    if s != [] {
      var rest := s[..|s| - 1];
      DistinctCount(rest);
      var all, fewer := set x | x in s, set x | x in rest;
      assert s == rest + [s[|s| - 1]];
      assert all == fewer + {s[|s| - 1]};
    }
  }

  datatype OrderedDict<K(==,!new), V> = OrderedDict(keys: seq<K>, vals: map<K, V>)
  {
    ghost predicate Valid() {
      && Distinct(keys)
      && (forall k :: k in keys <==> k in vals)
    }

    predicate Has(k: K) { k in vals }

    /** `d[k] = v`: a present key keeps its place, a new one goes last. */
    function Put(k: K, v: V): OrderedDict<K, V> {
      OrderedDict(if k in vals then keys else keys + [k], vals[k := v])
    }

    /** `d.move_to_end(k)` */
    function MoveToEnd(k: K): OrderedDict<K, V> {
      OrderedDict(Drop(keys, k) + [k], vals)
    }

    /** `d.pop(k, None)` */
    function Delete(k: K): OrderedDict<K, V> {
      OrderedDict(Drop(keys, k), vals - {k})
    }

    /** `d.popitem(last=False)` */
    function PopOldest(): OrderedDict<K, V>
      requires keys != []
    {
      OrderedDict(keys[1..], vals - {keys[0]})
    }

    lemma PutValid(k: K, v: V)
      requires Valid()
      ensures Put(k, v).Valid()
    {}

    lemma MoveToEndValid(k: K)
      requires Valid() && k in vals
      ensures MoveToEnd(k).Valid()
      ensures |MoveToEnd(k).keys| == |keys|
    {
      DropIs(keys, k);
    }

    lemma DeleteValid(k: K)
      requires Valid()
      ensures Delete(k).Valid()
      ensures |Delete(k).keys| <= |keys|
    {
      DropIs(keys, k);
    }

    lemma PopOldestValid()
      requires Valid() && keys != []
      ensures PopOldest().Valid()
    {}

    /** `len(d)` counts keys once each. */
    lemma Size()
      requires Valid()
      ensures |vals| == |keys|
    {
      DistinctCount(keys);
      assert vals.Keys == set k | k in keys;
    }
  }

  function Empty<K(!new), V>(): OrderedDict<K, V> {
    OrderedDict([], map[])
  }

  /** The dict whose items are `keys[i]: values[i]`, filled one by one. */
  function FromItems<K(!new), V>(keys: seq<K>, values: seq<V>): OrderedDict<K, V>
    requires |keys| == |values|
  {
    if keys == [] then Empty()
    else FromItems(keys[..|keys| - 1], values[..|keys| - 1]).Put(keys[|keys| - 1], values[|keys| - 1])
  }

  lemma {:induction false} FromItemsIs<K(!new), V>(keys: seq<K>, values: seq<V>)
    requires |keys| == |values| && Distinct(keys)
    ensures FromItems(keys, values).Valid() && FromItems(keys, values).keys == keys
    ensures forall k :: k in FromItems(keys, values).vals <==> k in keys
  {
    if keys == [] {
    } else {
      var n := |keys| - 1;
      var init := FromItems(keys[..n], values[..n]);
      FromItemsIs(keys[..n], values[..n]);
      assert keys == keys[..n] + [keys[n]] && keys[n] !in keys[..n];
      init.PutValid(keys[n], values[n]);
    }
  }

  lemma {:induction false} FromItemsAt<K(!new), V>(keys: seq<K>, values: seq<V>, i: nat)
    requires |keys| == |values| && Distinct(keys) && i < |keys|
    ensures keys[i] in FromItems(keys, values).vals && FromItems(keys, values).vals[keys[i]] == values[i]
  {
    var n := |keys| - 1;
    if i < n {
      FromItemsAt(keys[..n], values[..n], i);
      assert keys[i] != keys[n];
    }
  }

  lemma FromItemsSnoc<K(!new), V>(keys: seq<K>, values: seq<V>, k: K, v: V)
    requires |keys| == |values|
    ensures FromItems(keys + [k], values + [v]) == FromItems(keys, values).Put(k, v)
  {}
}
