/** The wire format of a vault entry: encoding to a JSON tree, and decoding a
    tree that may have any shape. */
module VaultCodec {
  import opened OrderedDicts
  import opened Vault
  import opened Wrappers

  datatype Json =
    | JNull
    | JBool(b: bool)
    | JInt(n: int)
    | JFloat(r: real)
    | JStr(s: string)
    | JArr(items: seq<Json>)
    | JObj(fields: OrderedDict<string, Json>)

  /** Python's two complaints about a tree of the wrong shape. */
  datatype ShapeError = TypeError | ValueError

  /** What `json.dumps` makes of a value: tuples and lists become arrays. */
  function ToJson(v: Value): Json {
    match v
    case Null => JNull
    case Bool(b) => JBool(b)
    case Int(n) => JInt(n)
    case Float(r) => JFloat(r)
    case Str(s) => JStr(s)
    case List(items) => JArr(seq(|items|, i requires 0 <= i < |items| => ToJson(items[i])))
    case Tuple(items) => JArr(seq(|items|, i requires 0 <= i < |items| => ToJson(items[i])))
    case Dict(d) => JObj(OrderedDict(d.keys, map k | k in d.vals :: ToJson(d.vals[k])))
  }

  /** What `json.loads` makes of a tree. */
  function Loaded(j: Json): Value {
    match j
    case JNull => Null
    case JBool(b) => Bool(b)
    case JInt(n) => Int(n)
    case JFloat(r) => Float(r)
    case JStr(s) => Str(s)
    case JArr(items) => List(seq(|items|, i requires 0 <= i < |items| => Loaded(items[i])))
    case JObj(d) => Dict(OrderedDict(d.keys, map k | k in d.vals :: Loaded(d.vals[k])))
  }

  /** `_coerce_value`: arrays become tuples all the way down; objects stay as
      they were loaded. */
  function CoerceValue(j: Json): Value {
    match j
    case JArr(items) => Tuple(seq(|items|, i requires 0 <= i < |items| => CoerceValue(items[i])))
    case _ => Loaded(j)
  }

  // ---- Encoding ----

  function Strings(ss: seq<string>): Json {
    JArr(seq(|ss|, i requires 0 <= i < |ss| => JStr(ss[i])))
  }

  function EncodeSurrogate(s: VaultSurrogate): Json {
    JArr([JStr(s.original), JStr(s.entityType), Strings(s.sourceDetectors)])
  }

  function EncodePair(p: (string, Value)): Json {
    JArr([JStr(p.0), ToJson(p.1)])
  }

  function EncodeKwargs(k: (string, FrozenKwargs)): Json {
    JArr([JStr(k.0), JArr(seq(|k.1|, i requires 0 <= i < |k.1| => EncodePair(k.1[i])))])
  }

  function Object3(surrogates: Json, mode: Json, kwargs: Json): Json {
    JObj(OrderedDict(["surrogates", "detector_mode", "kwargs"],
                     map["surrogates" := surrogates, "detector_mode" := mode, "kwargs" := kwargs]))
  }

  function EncodeSurrogates(d: OrderedDict<string, VaultSurrogate>): Json {
    JObj(OrderedDict(d.keys, map s | s in d.vals :: EncodeSurrogate(d.vals[s])))
  }

  function EncodeCallKwargs(kwargs: FrozenCallKwargs): Json {
    JArr(seq(|kwargs|, i requires 0 <= i < |kwargs| => EncodeKwargs(kwargs[i])))
  }

  /** `_encode_entry`, as the tree that is written. */
  function EncodeEntry(e: VaultEntry): Json {
    Object3(EncodeSurrogates(e.surrogates), Strings(e.detectorMode), EncodeCallKwargs(e.kwargs))
  }

  // ---- Decoding ----

  /** Decode every item in order; the first failure wins. */
  function Traverse<A, B>(decode: A -> Result<B, ShapeError>, items: seq<A>): (r: Result<seq<B>, ShapeError>)
    ensures r.Ok? ==> |r.value| == |items|
  {
    if items == [] then Ok([])
    else
      match Traverse(decode, items[..|items| - 1])
      case Err(e) => Err(e)
      case Ok(done) =>
        match decode(items[|items| - 1])
        case Err(e) => Err(e)
        case Ok(v) => Ok(done + [v])
  }

  lemma {:induction false} TraverseStops<A, B>(decode: A -> Result<B, ShapeError>, items: seq<A>, n: nat)
    requires n <= |items| && Traverse(decode, items[..n]).Err?
    ensures Traverse(decode, items) == Traverse(decode, items[..n])
  {
    if n < |items| {
      assert items[..|items| - 1][..n] == items[..n];
      TraverseStops(decode, items[..|items| - 1], n);
    } else {
      assert items[..n] == items;
    }
  }

  /** The loop shape all of the decoder's loops have. */
  method DecodeAll<A, B>(decode: A -> Result<B, ShapeError>, items: seq<A>) returns (r: Result<seq<B>, ShapeError>)
    ensures r == Traverse(decode, items)
  {
    var out: seq<B> := [];
    for i := 0 to |items|
      invariant Traverse(decode, items[..i]) == Ok(out)
    {
      assert items[..i + 1][..i] == items[..i];
      var one := decode(items[i]);
      if one.Err? {
        TraverseStops(decode, items, i + 1);
        return Err(one.error);
      }
      out := out + [one.value];
    }
    assert items[..|items|] == items;
    return Ok(out);
  }

  /** `isinstance(x, list) and all(isinstance(s, str) for s in x)` */
  function DecodeStrings(j: Json): Result<seq<string>, ShapeError> {
    if j.JArr? && forall i :: 0 <= i < |j.items| ==> j.items[i].JStr? then
      Ok(seq(|j.items|, i requires 0 <= i < |j.items| => j.items[i].s))
    else Err(TypeError)
  }

  function DecodeSurrogate(j: Json): Result<VaultSurrogate, ShapeError> {
    if !j.JArr? || |j.items| != 3 then Err(ValueError)
    else if !j.items[0].JStr? || !j.items[1].JStr? then Err(TypeError)
    else
      match DecodeStrings(j.items[2])
      case Err(e) => Err(e)
      case Ok(sources) => Ok(VaultSurrogate(j.items[0].s, j.items[1].s, sources))
  }

  function DecodePair(j: Json): Result<(string, Value), ShapeError> {
    if !j.JArr? || |j.items| != 2 then Err(ValueError)
    else if !j.items[0].JStr? then Err(TypeError)
    else Ok((j.items[0].s, CoerceValue(j.items[1])))
  }

  function DecodeKwargs(j: Json): Result<(string, FrozenKwargs), ShapeError> {
    if !j.JArr? || |j.items| != 2 then Err(ValueError)
    else if !j.items[0].JStr? || !j.items[1].JArr? then Err(TypeError)
    else
      match Traverse(DecodePair, j.items[1].items)
      case Err(e) => Err(e)
      case Ok(pairs) => Ok((j.items[0].s, pairs))
  }

  /** A parsed object has each key once. */
  ghost predicate ParsedObject(j: Json) {
    j.JObj? ==> j.fields.Valid() && ("surrogates" in j.fields.vals && j.fields.vals["surrogates"].JObj? ==>
      j.fields.vals["surrogates"].fields.Valid())
  }

  function Values<V>(d: OrderedDict<string, V>): seq<V>
    requires d.Valid()
  {
    seq(|d.keys|, i requires 0 <= i < |d.keys| => d.vals[d.keys[i]])
  }

  /** `data.get(name, [])` */
  function GetList(j: Json, name: string): Json
    requires j.JObj?
  {
    if name in j.fields.vals then j.fields.vals[name] else JArr([])
  }

  function DecodeSpec(j: Json): Result<VaultEntry, ShapeError>
    requires ParsedObject(j)
  {
    if !j.JObj? || "surrogates" !in j.fields.vals || !j.fields.vals["surrogates"].JObj? then Err(TypeError)
    else
      var raw := j.fields.vals["surrogates"].fields;
      match Traverse(DecodeSurrogate, Values(raw))
      case Err(e) => Err(e)
      case Ok(surrogates) =>
        match DecodeStrings(GetList(j, "detector_mode"))
        case Err(e) => Err(e)
        case Ok(mode) =>
          if !GetList(j, "kwargs").JArr? then Err(TypeError)
          else
            match Traverse(DecodeKwargs, GetList(j, "kwargs").items)
            case Err(e) => Err(e)
            case Ok(kwargs) => Ok(VaultEntry(FromItems(raw.keys, surrogates), mode, kwargs))
  }

  /** `_decode_entry` */
  method DecodeEntry(j: Json) returns (r: Result<VaultEntry, ShapeError>)
    requires ParsedObject(j)
    ensures r == DecodeSpec(j)
  {
    if !j.JObj? || "surrogates" !in j.fields.vals || !j.fields.vals["surrogates"].JObj? { return Err(TypeError); }
    var raw := j.fields.vals["surrogates"].fields;
    var values := DecodeAll(DecodeSurrogate, Values(raw));
    if values.Err? { return Err(values.error); }
    var surrogates: OrderedDict<string, VaultSurrogate> := Empty();
    for i := 0 to |raw.keys|
      invariant surrogates == FromItems(raw.keys[..i], values.value[..i])
    {
      assert raw.keys[..i + 1][..i] == raw.keys[..i] && values.value[..i + 1][..i] == values.value[..i];
      surrogates := surrogates.Put(raw.keys[i], values.value[i]);
    }
    assert raw.keys[..|raw.keys|] == raw.keys && values.value[..|raw.keys|] == values.value;
    var mode := DecodeStrings(GetList(j, "detector_mode"));
    if mode.Err? { return Err(mode.error); }
    if !GetList(j, "kwargs").JArr? { return Err(TypeError); }
    var kwargs := DecodeAll(DecodeKwargs, GetList(j, "kwargs").items);
    if kwargs.Err? { return Err(kwargs.error); }
    return Ok(VaultEntry(surrogates, mode.value, kwargs.value));
  }

  // ---- Values ----

  /** Loading is undone by dumping. */
  lemma {:induction false} LoadedBack(j: Json)
    ensures ToJson(Loaded(j)) == j
  {
    match j {
      case JArr(items) =>
        forall i | 0 <= i < |items| { LoadedBack(items[i]); }
        assert ToJson(Loaded(j)).items == items;
      case JObj(d) =>
        forall k | k in d.vals
          ensures ToJson(Loaded(d.vals[k])) == d.vals[k]
        {
          LoadedBack(d.vals[k]);
        }
        assert ToJson(Loaded(j)).fields.vals == d.vals;
      case _ =>
    }
  }

  lemma {:induction false} CoercedBack(j: Json)
    ensures ToJson(CoerceValue(j)) == j
  {
    match j {
      case JArr(items) =>
        forall i | 0 <= i < |items| { CoercedBack(items[i]); }
        assert ToJson(CoerceValue(j)).items == items;
      case _ => LoadedBack(j);
    }
  }

  /** What a value becomes on its way through the store is its frozen form. */
  lemma {:induction false} StoredIsFrozen(v: Value)
    requires !HasDict(v)
    ensures FreezeValue(v) == Ok(CoerceValue(ToJson(v)))
  {
    match v {
      case List(items) =>
        StoredItems(items);
        assert FreezeItems(items).value == CoerceValue(ToJson(v)).items;
      case Tuple(items) =>
        StoredItems(items);
        assert FreezeItems(items).value == CoerceValue(ToJson(v)).items;
      case _ =>
    }
  }

  lemma {:induction false} StoredItems(items: seq<Value>)
    requires forall i :: 0 <= i < |items| ==> !HasDict(items[i])
    ensures FreezeItems(items).Ok?
    ensures forall i :: 0 <= i < |items| ==> FreezeItems(items).value[i] == CoerceValue(ToJson(items[i]))
  {
    if items == [] {
    } else {
      StoredIsFrozen(items[0]);
      assert forall i :: 0 <= i < |items| - 1 ==> items[1..][i] == items[i + 1];
      StoredItems(items[1..]);
    }
  }

  /** No tuple anywhere: loading a tree yields nothing else. */
  predicate Loadable(v: Value) {
    match v
    case Tuple(_) => false
    case List(items) => forall i :: 0 <= i < |items| ==> Loadable(items[i])
    case Dict(d) => forall k :: k in d.vals ==> Loadable(d.vals[k])
    case _ => true
  }

  /** Tuples down to the first dict, lists from there on. */
  predicate Storable(v: Value) {
    match v
    case List(_) => false
    case Tuple(items) => forall i :: 0 <= i < |items| ==> Storable(items[i])
    case Dict(_) => Loadable(v)
    case _ => true
  }

  lemma {:induction false} LoadsIff(v: Value)
    ensures Loaded(ToJson(v)) == v <==> Loadable(v)
  {
    match v {
      case List(items) =>
        forall i | 0 <= i < |items| { LoadsIff(items[i]); }
        ListLoads(items);
      case Dict(d) =>
        forall k | k in d.vals
          ensures Loaded(ToJson(d.vals[k])) == d.vals[k] <==> Loadable(d.vals[k])
        {
          LoadsIff(d.vals[k]);
        }
        DictLoads(d);
      case _ =>
    }
  }

  lemma ListLoads(items: seq<Value>)
    ensures Loaded(ToJson(List(items))) == List(items) <==>
              forall i :: 0 <= i < |items| ==> Loaded(ToJson(items[i])) == items[i]
  {
    var back := Loaded(ToJson(List(items))).items;
    assert |back| == |items| && forall i :: 0 <= i < |items| ==> back[i] == Loaded(ToJson(items[i]));
  }

  lemma DictLoads(d: OrderedDict<string, Value>)
    ensures Loaded(ToJson(Dict(d))) == Dict(d) <==> forall k :: k in d.vals ==> Loaded(ToJson(d.vals[k])) == d.vals[k]
  {
    var back := Loaded(ToJson(Dict(d))).fields;
    assert back.keys == d.keys && forall k :: k in back.vals <==> k in d.vals;
    assert forall k :: k in d.vals ==> back.vals[k] == Loaded(ToJson(d.vals[k]));
    assert back.vals == d.vals <==> forall k :: k in d.vals ==> back.vals[k] == d.vals[k];
  }

  lemma TupleCoerces(items: seq<Value>)
    ensures CoerceValue(ToJson(Tuple(items))) == Tuple(items) <==>
              forall i :: 0 <= i < |items| ==> CoerceValue(ToJson(items[i])) == items[i]
  {
    var back := CoerceValue(ToJson(Tuple(items))).items;
    assert |back| == |items| && forall i :: 0 <= i < |items| ==> back[i] == CoerceValue(ToJson(items[i]));
  }

  /** Exactly the storable values survive storage. */
  lemma {:induction false} SurvivesIff(v: Value)
    ensures CoerceValue(ToJson(v)) == v <==> Storable(v)
  {
    match v {
      case Tuple(items) =>
        forall i | 0 <= i < |items| { SurvivesIff(items[i]); }
        TupleCoerces(items);
      case Dict(_) => LoadsIff(v);
      case _ =>
    }
  }

  /** Among dict-free values those are the frozen ones. */
  lemma StorableIsFrozen(v: Value)
    requires !HasDict(v)
    ensures Storable(v) <==> Frozen(v)
  {}

  lemma FrozenHasNoDict(v: Value)
    requires Frozen(v)
    ensures !HasDict(v)
  {}

  // ---- Lists ----

  lemma {:induction false} TraverseIs<A, B>(decode: A -> Result<B, ShapeError>, items: seq<A>)
    ensures Traverse(decode, items).Ok? <==> forall i :: 0 <= i < |items| ==> decode(items[i]).Ok?
    ensures Traverse(decode, items).Ok? ==>
              forall i :: 0 <= i < |items| ==> decode(items[i]) == Ok(Traverse(decode, items).value[i])
  {
    if items == [] {
    } else {
      TraverseIs(decode, items[..|items| - 1]);
    }
  }

  lemma TraverseYields<A, B>(decode: A -> Result<B, ShapeError>, items: seq<A>, values: seq<B>)
    requires |items| == |values| && forall i :: 0 <= i < |items| ==> decode(items[i]) == Ok(values[i])
    ensures Traverse(decode, items) == Ok(values)
  {
    TraverseIs(decode, items);
    assert Traverse(decode, items).value == values;
  }

  lemma SameItems<V>(d: OrderedDict<string, V>)
    requires d.Valid()
    ensures FromItems(d.keys, Values(d)) == d
  {
    var r := FromItems(d.keys, Values(d));
    FromItemsIs(d.keys, Values(d));
    forall k | k in d.vals
      ensures r.vals[k] == d.vals[k]
    {
      var i :| 0 <= i < |d.keys| && d.keys[i] == k;
      FromItemsAt(d.keys, Values(d), i);
    }
    assert r.vals == d.vals;
  }

  // ---- decode(encode(e)) ----

  /** Frozen keyword arguments, as `freeze_kwargs` produces them. */
  ghost predicate FrozenEntry(e: VaultEntry) {
    forall i, j :: 0 <= i < |e.kwargs| && 0 <= j < |e.kwargs[i].1| ==> Frozen(e.kwargs[i].1[j].1)
  }

  ghost predicate StorableEntry(e: VaultEntry) {
    forall i, j :: 0 <= i < |e.kwargs| && 0 <= j < |e.kwargs[i].1| ==> Storable(e.kwargs[i].1[j].1)
  }

  ghost predicate DictFree(e: VaultEntry) {
    forall i, j :: 0 <= i < |e.kwargs| && 0 <= j < |e.kwargs[i].1| ==> !HasDict(e.kwargs[i].1[j].1)
  }

  function StoredPairs(pairs: FrozenKwargs): FrozenKwargs {
    seq(|pairs|, j requires 0 <= j < |pairs| => (pairs[j].0, CoerceValue(ToJson(pairs[j].1))))
  }

  function StoredKwargs(kwargs: FrozenCallKwargs): FrozenCallKwargs {
    seq(|kwargs|, i requires 0 <= i < |kwargs| => (kwargs[i].0, StoredPairs(kwargs[i].1)))
  }

  lemma KwargsThereAndBack(k: (string, FrozenKwargs))
    ensures DecodeKwargs(EncodeKwargs(k)) == Ok((k.0, StoredPairs(k.1)))
  {
    TraverseYields(DecodePair, EncodeKwargs(k).items[1].items, StoredPairs(k.1));
  }

  /** Whatever the entry, it comes back with its values coerced and otherwise
      untouched, its surrogates in the same order. */
  lemma DecodeEncoded(e: VaultEntry)
    requires e.surrogates.Valid()
    ensures ParsedObject(EncodeEntry(e))
    ensures DecodeSpec(EncodeEntry(e)) == Ok(e.(kwargs := StoredKwargs(e.kwargs)))
  {
    var j := EncodeEntry(e);
    var raw := j.fields.vals["surrogates"].fields;
    assert raw.Valid() && j.fields.Valid();
    forall i | 0 <= i < |raw.keys|
      ensures DecodeSurrogate(Values(raw)[i]) == Ok(Values(e.surrogates)[i])
    {
      SurrogateThereAndBack(e.surrogates.vals[e.surrogates.keys[i]]);
    }
    TraverseYields(DecodeSurrogate, Values(raw), Values(e.surrogates));
    SameItems(e.surrogates);
    StringsThereAndBack(e.detectorMode);
    var kwargs := GetList(j, "kwargs").items;
    forall i | 0 <= i < |kwargs|
      ensures DecodeKwargs(kwargs[i]) == Ok(StoredKwargs(e.kwargs)[i])
    {
      KwargsThereAndBack(e.kwargs[i]);
    }
    TraverseYields(DecodeKwargs, kwargs, StoredKwargs(e.kwargs));
  }

  lemma StringsThereAndBack(ss: seq<string>)
    ensures DecodeStrings(Strings(ss)) == Ok(ss)
  {
    assert DecodeStrings(Strings(ss)).value == ss;
  }

  lemma SurrogateThereAndBack(s: VaultSurrogate)
    ensures DecodeSurrogate(EncodeSurrogate(s)) == Ok(s)
  {
    StringsThereAndBack(s.sourceDetectors);
  }

  /** Decoding inverts encoding exactly for entries whose arguments are storable. */
  lemma RoundTripIff(e: VaultEntry)
    requires e.surrogates.Valid()
    ensures ParsedObject(EncodeEntry(e))
    ensures DecodeSpec(EncodeEntry(e)) == Ok(e) <==> StorableEntry(e)
  {
    DecodeEncoded(e);
    forall i, j | 0 <= i < |e.kwargs| && 0 <= j < |e.kwargs[i].1|
      ensures StoredKwargs(e.kwargs)[i].1[j] == e.kwargs[i].1[j] <==> Storable(e.kwargs[i].1[j].1)
    {
      SurvivesIff(e.kwargs[i].1[j].1);
    }
    if StorableEntry(e) {
      forall i | 0 <= i < |e.kwargs|
        ensures StoredKwargs(e.kwargs)[i] == e.kwargs[i]
      {
        assert StoredPairs(e.kwargs[i].1) == e.kwargs[i].1;
      }
      assert StoredKwargs(e.kwargs) == e.kwargs;
    }
  }

  /** When no argument has a dict inside, that is when they are frozen. */
  lemma RoundTripIffFrozen(e: VaultEntry)
    requires e.surrogates.Valid() && DictFree(e)
    ensures ParsedObject(EncodeEntry(e))
    ensures DecodeSpec(EncodeEntry(e)) == Ok(e) <==> FrozenEntry(e)
  {
    RoundTripIff(e);
    forall i, j | 0 <= i < |e.kwargs| && 0 <= j < |e.kwargs[i].1|
      ensures Storable(e.kwargs[i].1[j].1) <==> Frozen(e.kwargs[i].1[j].1)
    {
      StorableIsFrozen(e.kwargs[i].1[j].1);
    }
  }

  /** Entries built from frozen arguments come back as they went in. */
  lemma FrozenComesBack(e: VaultEntry)
    requires e.surrogates.Valid() && FrozenEntry(e)
    ensures ParsedObject(EncodeEntry(e)) && DecodeSpec(EncodeEntry(e)) == Ok(e)
  {
    forall i, j | 0 <= i < |e.kwargs| && 0 <= j < |e.kwargs[i].1|
      ensures !HasDict(e.kwargs[i].1[j].1)
    {
      FrozenHasNoDict(e.kwargs[i].1[j].1);
    }
    RoundTripIffFrozen(e);
  }

  // ---- encode(decode(j)) ----

  lemma StringsBack(j: Json)
    requires DecodeStrings(j).Ok?
    ensures Strings(DecodeStrings(j).value) == j
  {}

  lemma SurrogateBack(j: Json)
    requires DecodeSurrogate(j).Ok?
    ensures EncodeSurrogate(DecodeSurrogate(j).value) == j
  {
    StringsBack(j.items[2]);
    assert j.items == [j.items[0], j.items[1], j.items[2]];
  }

  lemma KwargsBack(j: Json)
    requires DecodeKwargs(j).Ok?
    ensures EncodeKwargs(DecodeKwargs(j).value) == j
  {
    var pairs := j.items[1].items;
    var k := DecodeKwargs(j).value;
    TraverseIs(DecodePair, pairs);
    forall i | 0 <= i < |pairs|
      ensures EncodePair(k.1[i]) == pairs[i]
    {
      CoercedBack(pairs[i].items[1]);
      assert pairs[i].items == [pairs[i].items[0], pairs[i].items[1]];
    }
    assert EncodeKwargs(k).items[1].items == pairs;
    assert j.items == [j.items[0], j.items[1]];
  }

  lemma SurrogateAtBack(raw: OrderedDict<string, Json>, values: seq<VaultSurrogate>, k: string)
    requires raw.Valid() && Traverse(DecodeSurrogate, Values(raw)) == Ok(values) && k in raw.vals
    ensures k in FromItems(raw.keys, values).vals && EncodeSurrogate(FromItems(raw.keys, values).vals[k]) == raw.vals[k]
  {
    TraverseIs(DecodeSurrogate, Values(raw));
    var i :| 0 <= i < |raw.keys| && raw.keys[i] == k;
    FromItemsAt(raw.keys, values, i);
    assert DecodeSurrogate(Values(raw)[i]) == Ok(values[i]);
    SurrogateBack(Values(raw)[i]);
  }

  lemma SurrogatesBack(raw: OrderedDict<string, Json>, values: seq<VaultSurrogate>)
    requires raw.Valid() && Traverse(DecodeSurrogate, Values(raw)) == Ok(values)
    ensures FromItems(raw.keys, values).Valid() && EncodeSurrogates(FromItems(raw.keys, values)) == JObj(raw)
  {
    var d := FromItems(raw.keys, values);
    FromItemsIs(raw.keys, values);
    assert d.vals.Keys == raw.vals.Keys;
    forall k | k in raw.vals
      ensures EncodeSurrogate(d.vals[k]) == raw.vals[k]
    {
      SurrogateAtBack(raw, values, k);
    }
    SurrogatesEncodeTo(d, raw);
  }

  lemma SurrogatesEncodeTo(d: OrderedDict<string, VaultSurrogate>, raw: OrderedDict<string, Json>)
    requires d.keys == raw.keys && d.vals.Keys == raw.vals.Keys
    requires forall k :: k in raw.vals ==> EncodeSurrogate(d.vals[k]) == raw.vals[k]
    ensures EncodeSurrogates(d) == JObj(raw)
  {}

  lemma CallKwargsBack(items: seq<Json>, kwargs: FrozenCallKwargs)
    requires Traverse(DecodeKwargs, items) == Ok(kwargs)
    ensures EncodeCallKwargs(kwargs) == JArr(items)
  {
    TraverseIs(DecodeKwargs, items);
    forall i | 0 <= i < |items|
      ensures EncodeKwargs(kwargs[i]) == items[i]
    {
      KwargsBack(items[i]);
    }
    assert EncodeCallKwargs(kwargs).items == items;
  }

  /** What decodes is exactly what encoding its result writes, up to fields the
      format does not know and defaults it fills in. */
  lemma EncodeDecoded(j: Json)
    requires ParsedObject(j) && DecodeSpec(j).Ok?
    ensures DecodeSpec(j).value.surrogates.Valid()
    ensures EncodeEntry(DecodeSpec(j).value)
         == Object3(j.fields.vals["surrogates"], GetList(j, "detector_mode"), GetList(j, "kwargs"))
  {
    var e, raw := DecodeSpec(j).value, j.fields.vals["surrogates"].fields;
    SurrogatesBack(raw, Traverse(DecodeSurrogate, Values(raw)).value);
    StringsBack(GetList(j, "detector_mode"));
    CallKwargsBack(GetList(j, "kwargs").items, e.kwargs);
  }

  // ---- Which trees decode ----

  ghost predicate StringList(j: Json) {
    j.JArr? && forall s :: s in j.items ==> s.JStr?
  }

  ghost predicate SurrogateShape(j: Json) {
    j.JArr? && |j.items| == 3 && j.items[0].JStr? && j.items[1].JStr? && StringList(j.items[2])
  }

  ghost predicate KwargsShape(j: Json) {
    && j.JArr? && |j.items| == 2 && j.items[0].JStr? && j.items[1].JArr?
    && forall p :: p in j.items[1].items ==> p.JArr? && |p.items| == 2 && p.items[0].JStr?
  }

  /** The shape of a stored entry; the mode and the arguments may be missing. */
  ghost predicate EntryShape(j: Json) {
    && j.JObj? && "surrogates" in j.fields.vals && j.fields.vals["surrogates"].JObj?
    && (forall k :: k in j.fields.vals["surrogates"].fields.vals ==>
          SurrogateShape(j.fields.vals["surrogates"].fields.vals[k]))
    && StringList(GetList(j, "detector_mode"))
    && GetList(j, "kwargs").JArr?
    && forall k :: k in GetList(j, "kwargs").items ==> KwargsShape(k)
  }

  lemma StringListIff(j: Json)
    ensures DecodeStrings(j).Ok? <==> StringList(j)
  {}

  lemma KwargsShapeIff(j: Json)
    ensures DecodeKwargs(j).Ok? <==> KwargsShape(j)
  {
    if j.JArr? && |j.items| == 2 && j.items[1].JArr? {
      var pairs := j.items[1].items;
      TraverseIs(DecodePair, pairs);
      assert forall i :: 0 <= i < |pairs| ==> pairs[i] in pairs;
    }
  }

  lemma AllSurrogatesIff(raw: OrderedDict<string, Json>)
    requires raw.Valid()
    ensures Traverse(DecodeSurrogate, Values(raw)).Ok? <==> forall k :: k in raw.vals ==> SurrogateShape(raw.vals[k])
  {
    TraverseIs(DecodeSurrogate, Values(raw));
    forall i | 0 <= i < |raw.keys|
      ensures DecodeSurrogate(Values(raw)[i]).Ok? <==> SurrogateShape(raw.vals[raw.keys[i]])
    {
      var j := Values(raw)[i];
      if j.JArr? && |j.items| == 3 { StringListIff(j.items[2]); }
    }
    forall k | k in raw.vals
      ensures exists i :: 0 <= i < |raw.keys| && raw.keys[i] == k
    {
      assert k in raw.keys;
    }
  }

  /** Decoding accepts exactly the trees of the entry shape. */
  lemma DecodesIff(j: Json)
    requires ParsedObject(j)
    ensures DecodeSpec(j).Ok? <==> EntryShape(j)
  {
    if j.JObj? && "surrogates" in j.fields.vals && j.fields.vals["surrogates"].JObj? {
      AllSurrogatesIff(j.fields.vals["surrogates"].fields);
      StringListIff(GetList(j, "detector_mode"));
      if GetList(j, "kwargs").JArr? {
        var items := GetList(j, "kwargs").items;
        TraverseIs(DecodeKwargs, items);
        forall i | 0 <= i < |items|
          ensures DecodeKwargs(items[i]).Ok? <==> KwargsShape(items[i])
        {
          KwargsShapeIff(items[i]);
        }
        assert forall i :: 0 <= i < |items| ==> items[i] in items;
      }
    }
  }
}
