/** Does the pipeline-cache key rebuilt at prewarm time match the one that the
    next request looks up? */
module CacheKeys {
  import opened OrderedDicts
  import opened Sorting
  import opened Vault
  import opened VaultCodec
  import opened Wrappers

  /** An active detector: its name, whether it is configured for merged
      dispatch, and its size cap if it has one. */
  datatype Detector = Detector(name: string, mergedMode: bool, maxChars: int, capped: bool)

  function Names(detectors: seq<Detector>): seq<string> {
    seq(|detectors|, i requires 0 <= i < |detectors| => detectors[i].name)
  }

  function Keep(detectors: seq<Detector>, which: Detector -> bool): seq<Detector> {
    if detectors == [] then []
    else
      var last := detectors[|detectors| - 1];
      Keep(detectors[..|detectors| - 1], which) + if which(last) then [last] else []
  }

  predicate Demoted(d: Detector, blobLength: nat) {
    d.mergedMode && d.capped && blobLength > d.maxChars
  }

  predicate StaysMerged(d: Detector, blobLength: nat) {
    d.mergedMode && !Demoted(d, blobLength)
  }

  /** The per-text detectors first, then the merged ones that were demoted: what
      `_run_detection` hands to the per-text fan-out. */
  function PerTextDetectors(active: seq<Detector>, blobLength: nat): seq<Detector> {
    Keep(active, (d: Detector) => !d.mergedMode) + Keep(active, (d: Detector) => Demoted(d, blobLength))
  }

  lemma {:induction false} KeepIs(detectors: seq<Detector>, which: Detector -> bool, d: Detector)
    ensures d in Keep(detectors, which) <==> d in detectors && which(d)
  {
    if detectors == [] {
    } else {
      var n := |detectors| - 1;
      KeepIs(detectors[..n], which, d);
      assert detectors == detectors[..n] + [detectors[n]];
    }
  }

  /** Keeping from a list whose first `n` all qualify and whose rest does not. */
  lemma {:induction false} KeepPrefix(detectors: seq<Detector>, which: Detector -> bool, n: nat)
    requires n <= |detectors|
    requires forall i :: 0 <= i < |detectors| ==> (which(detectors[i]) <==> i < n)
    ensures Keep(detectors, which) == detectors[..n]
  {
    if detectors == [] {
    } else {
      var last := |detectors| - 1;
      KeepPrefix(detectors[..last], which, if n <= last then n else last);
      assert n <= last ==> detectors[..last][..n] == detectors[..n];
      assert n == last + 1 ==> detectors[..n] == detectors[..last] + [detectors[last]];
    }
  }

  lemma {:induction false} KeepSuffix(detectors: seq<Detector>, which: Detector -> bool, n: nat)
    requires n <= |detectors|
    requires forall i :: 0 <= i < |detectors| ==> (which(detectors[i]) <==> n <= i)
    ensures Keep(detectors, which) == detectors[n..]
  {
    if n < |detectors| {
      var last := |detectors| - 1;
      KeepSuffix(detectors[..last], which, n);
      assert detectors[n..] == detectors[..last][n..] + [detectors[last]];
    } else {
      KeepPrefix(detectors, which, 0);
    }
  }

  /** No merged detector is listed before a per-text one. */
  ghost predicate PerTextFirst(active: seq<Detector>) {
    forall i, j :: 0 <= i < j < |active| && active[i].mergedMode ==> active[j].mergedMode
  }

  lemma {:induction false} Border(active: seq<Detector>) returns (n: nat)
    requires PerTextFirst(active)
    ensures n <= |active| && forall i :: 0 <= i < |active| ==> (active[i].mergedMode <==> n <= i)
  {
    if active == [] || active[|active| - 1].mergedMode == false {
      n := |active|;
    } else {
      n := Border(active[..|active| - 1]);
    }
  }

  /** Detectors with distinct names are told apart by their names. */
  lemma NamesDecide(active: seq<Detector>, some: seq<Detector>)
    requires Distinct(Names(active)) && (forall d :: d in some ==> d in active)
    ensures Names(some) == Names(active) <==> some == active
  {
    if Names(some) == Names(active) {
      forall k | 0 <= k < |active|
        ensures some[k] == active[k]
      {
        assert Names(some)[k] == Names(active)[k];
        assert some[k] in active;
        var i :| 0 <= i < |active| && active[i] == some[k];
        assert Names(active)[i] == Names(active)[k];
      }
      assert |Names(some)| == |some| && |Names(active)| == |active|;
    }
  }

  /** Under these conditions the fan-out runs the active list as configured. */
  lemma FanOutIsActive(active: seq<Detector>, blobLength: nat)
    requires PerTextFirst(active) && forall d :: d in active ==> !StaysMerged(d, blobLength)
    ensures PerTextDetectors(active, blobLength) == active
  {
    var n := Border(active);
    assert forall i :: 0 <= i < |active| ==> active[i] in active && !StaysMerged(active[i], blobLength);
    KeepPrefix(active, (d: Detector) => !d.mergedMode, n);
    KeepSuffix(active, (d: Detector) => Demoted(d, blobLength), n);
    assert active[..n] + active[n..] == active;
  }

  /** A detector sees the texts one by one exactly when it is not configured for
      merged dispatch, or has a size cap that the blob exceeds. */
  lemma FanOutIs(active: seq<Detector>, blobLength: nat, d: Detector)
    ensures d in PerTextDetectors(active, blobLength) <==>
              d in active && (d.mergedMode ==> d.capped && d.maxChars < blobLength)
  {
    KeepIs(active, (d: Detector) => !d.mergedMode, d);
    KeepIs(active, (d: Detector) => Demoted(d, blobLength), d);
  }

  lemma ActiveMustBe(active: seq<Detector>, blobLength: nat)
    requires PerTextDetectors(active, blobLength) == active
    ensures PerTextFirst(active) && forall d :: d in active ==> !StaysMerged(d, blobLength)
  {
    var front := Keep(active, (d: Detector) => !d.mergedMode);
    forall i | 0 <= i < |active|
      ensures active[i].mergedMode <==> |front| <= i
    {
      KeepIs(active, (d: Detector) => !d.mergedMode, active[i]);
      KeepIs(active, (d: Detector) => Demoted(d, blobLength), active[i]);
      if i < |front| { assert active[i] == front[i]; }
      else { assert active[i] == Keep(active, (d: Detector) => Demoted(d, blobLength))[i - |front|]; }
    }
    forall d | d in active
      ensures !StaysMerged(d, blobLength)
    {
      FanOutIs(active, blobLength, d);
    }
  }

  // ---- Demotion and the detector order ----

  /** The fan-out as the configured order would have it. */
  function InConfiguredOrder(active: seq<Detector>, blobLength: nat): seq<Detector> {
    Keep(active, (d: Detector) => !StaysMerged(d, blobLength))
  }

  /** No demoted detector is listed before a per-text one. */
  ghost predicate NoneIsOvertaken(active: seq<Detector>, blobLength: nat) {
    forall i, j :: 0 <= i < j < |active| && Demoted(active[i], blobLength) ==> active[j].mergedMode
  }

  lemma {:induction false} KeepNone(detectors: seq<Detector>, which: Detector -> bool)
    ensures Keep(detectors, which) == [] <==> forall i :: 0 <= i < |detectors| ==> !which(detectors[i])
  {
    if detectors == [] {
    } else {
      KeepNone(detectors[..|detectors| - 1], which);
    }
  }

  lemma OvertakenSnoc(before: seq<Detector>, last: Detector, blobLength: nat)
    ensures NoneIsOvertaken(before + [last], blobLength) <==>
              && NoneIsOvertaken(before, blobLength)
              && (last.mergedMode || forall i :: 0 <= i < |before| ==> !Demoted(before[i], blobLength))
  {
    var all := before + [last];
    assert all[|before|] == last && forall i :: 0 <= i < |before| ==> all[i] == before[i];
    if NoneIsOvertaken(all, blobLength) {
      forall i | 0 <= i < |before| && Demoted(before[i], blobLength)
        ensures last.mergedMode
      {
        assert Demoted(all[i], blobLength);
      }
    }
  }

  lemma AppendCancels<T>(a: seq<T>, b: seq<T>, x: T)
    ensures a + [x] == b + [x] <==> a == b
  {
    if a + [x] == b + [x] { assert a == (a + [x])[..|a|] == (b + [x])[..|b|] == b; }
  }

  /** Demoting keeps the configured order exactly when no per-text detector is
      listed after a demoted one, whichever detectors stay merged. */
  lemma {:induction false} DemotingKeepsOrderIff(active: seq<Detector>, blobLength: nat)
    ensures PerTextDetectors(active, blobLength) == InConfiguredOrder(active, blobLength) <==>
              NoneIsOvertaken(active, blobLength)
  {
    if active == [] {
    } else {
      var before, last := active[..|active| - 1], active[|active| - 1];
      assert active == before + [last];
      DemotingKeepsOrderIff(before, blobLength);
      OvertakenSnoc(before, last, blobLength);
      var demoted := Keep(before, (d: Detector) => Demoted(d, blobLength));
      var front := Keep(before, (d: Detector) => !d.mergedMode);
      KeepNone(before, (d: Detector) => Demoted(d, blobLength));
      FanOutGrows(before, last, blobLength);
      AppendCancels(front + demoted, InConfiguredOrder(before, blobLength), last);
      if !last.mergedMode && demoted != [] {
        AppendedIsOutOfOrder(before, last, blobLength);
      }
    }
  }

  lemma FanOutGrows(before: seq<Detector>, last: Detector, blobLength: nat)
    ensures var front, demoted := Keep(before, (d: Detector) => !d.mergedMode),
                                  Keep(before, (d: Detector) => Demoted(d, blobLength));
            PerTextDetectors(before + [last], blobLength)
            == if !last.mergedMode then (front + [last]) + demoted
               else if Demoted(last, blobLength) then (front + demoted) + [last]
               else front + demoted
    ensures InConfiguredOrder(before + [last], blobLength)
         == InConfiguredOrder(before, blobLength) + if StaysMerged(last, blobLength) then [] else [last]
  {
    assert (before + [last])[..|before|] == before;
  }

  /** A per-text detector listed last comes last in order, but a demoted one was
      put behind it. */
  lemma AppendedIsOutOfOrder(before: seq<Detector>, last: Detector, blobLength: nat)
    requires !last.mergedMode && Keep(before, (d: Detector) => Demoted(d, blobLength)) != []
    ensures PerTextDetectors(before + [last], blobLength) != InConfiguredOrder(before + [last], blobLength)
  {
    var demoted := Keep(before, (d: Detector) => Demoted(d, blobLength));
    FanOutGrows(before, last, blobLength);
    var final := demoted[|demoted| - 1];
    KeepIs(before, (d: Detector) => Demoted(d, blobLength), final);
    var all := PerTextDetectors(before + [last], blobLength);
    assert all[|all| - 1] == final && final.mergedMode;
  }

  /** It does change: a detector that is demoted, listed first, runs last. */
  lemma DemotingChangesOrder(a: Detector, b: Detector, blobLength: nat)
    requires Demoted(a, blobLength) && !b.mergedMode
    ensures PerTextDetectors([a, b], blobLength) == [b, a]
    ensures InConfiguredOrder([a, b], blobLength) == [a, b]
  {
    assert [a, b] == [a] + [b] && [a] == [] + [a];
    FanOutGrows([], a, blobLength);
    FanOutGrows([a], b, blobLength);
  }

  datatype PipelineCacheKey = PipelineCacheKey(text: string, detectorMode: seq<string>, kwargs: FrozenCallKwargs)

  /** The key `_detect_one` looks up for a text of the request. */
  function LookupKey(text: string, active: seq<Detector>, blobLength: nat, kwargs: FrozenCallKwargs): PipelineCacheKey {
    PipelineCacheKey(text, Names(PerTextDetectors(active, blobLength)), kwargs)
  }

  /** The key the prewarm step rebuilds from the vault entry. */
  function PrewarmKey(text: string, entry: VaultEntry): PipelineCacheKey {
    PipelineCacheKey(text, entry.detectorMode, entry.kwargs)
  }

  /** One slot of the in-memory cache, a Python dict: keys are compared by `==`. */
  ghost predicate SameSlot(x: PipelineCacheKey, y: PipelineCacheKey) {
    x.text == y.text && x.detectorMode == y.detectorMode && EqualCallKwargs(x.kwargs, y.kwargs)
  }

  // ---- The arguments in the key ----

  /** One argument dict per active detector, in any order of its keys. */
  ghost predicate ArgumentDicts(active: seq<Detector>, raw: seq<OrderedDict<string, Value>>) {
    |raw| == |active| && forall i :: 0 <= i < |raw| ==> raw[i].Valid()
  }

  /** `_build_call_kwargs` for the first `n` active detectors. */
  function CallKwargs(active: seq<Detector>, raw: seq<OrderedDict<string, Value>>, n: nat)
    : (r: Result<FrozenCallKwargs, FreezeError>)
    requires ArgumentDicts(active, raw) && n <= |active|
    ensures r.Ok? ==> |r.value| == n
  {
    if n == 0 then Ok([])
    else
      match CallKwargs(active, raw, n - 1)
      case Err(e) => Err(e)
      case Ok(before) =>
        match FreezeKwargsSpec(raw[n - 1])
        case Err(e) => Err(e)
        case Ok(frozen) => Ok(before + [(active[n - 1].name, frozen)])
  }

  /** `_build_call_kwargs`; `raw` is what the detectors' specs resolve. */
  method BuildCallKwargs(active: seq<Detector>, raw: seq<OrderedDict<string, Value>>)
    returns (r: Result<FrozenCallKwargs, FreezeError>)
    requires ArgumentDicts(active, raw)
    ensures r == CallKwargs(active, raw, |active|)
  {
    var out: FrozenCallKwargs := [];
    var i := 0;
    while i < |active|
      invariant i <= |active| && CallKwargs(active, raw, i) == Ok(out)
    {
      var next := i + 1;
      var frozen := FreezeKwargs(raw[i]);
      CallKwargsNext(active, raw, i, next);
      if frozen.Err? {
        ErrorStays(active, raw, next, |active|);
        return Err(frozen.error);
      }
      out := out + [(active[i].name, frozen.value)];
      i := next;
    }
    return Ok(out);
  }

  lemma CallKwargsNext(active: seq<Detector>, raw: seq<OrderedDict<string, Value>>, i: nat, next: nat)
    requires ArgumentDicts(active, raw) && i < |active| && next == i + 1
    ensures CallKwargs(active, raw, i).Err? ==> CallKwargs(active, raw, next) == CallKwargs(active, raw, i)
    ensures CallKwargs(active, raw, i).Ok? ==>
              var out, frozen := CallKwargs(active, raw, i).value, FreezeKwargsSpec(raw[i]);
              CallKwargs(active, raw, next)
              == if frozen.Err? then Err(frozen.error) else Ok(out + [(active[i].name, frozen.value)])
  {}

  lemma {:induction false} ErrorStays(active: seq<Detector>, raw: seq<OrderedDict<string, Value>>, n: nat, m: nat)
    requires ArgumentDicts(active, raw) && n <= m <= |active| && CallKwargs(active, raw, n).Err?
    ensures CallKwargs(active, raw, m) == CallKwargs(active, raw, n)
  {
    if m == n {
    } else {
      ErrorStays(active, raw, n, m - 1);
    }
  }

  lemma {:induction false} CallKwargsAre(active: seq<Detector>, raw: seq<OrderedDict<string, Value>>, n: nat, i: nat)
    requires ArgumentDicts(active, raw) && i < n <= |active| && CallKwargs(active, raw, n).Ok?
    ensures CallKwargs(active, raw, n).value[i].0 == active[i].name
    ensures FreezeKwargsSpec(raw[i]) == Ok(CallKwargs(active, raw, n).value[i].1)
  {
    if i == n - 1 {
    } else {
      CallKwargsAre(active, raw, n - 1, i);
    }
  }

  /** Some argument has a dict inside. */
  ghost predicate Unfreezable(d: OrderedDict<string, Value>) {
    exists k :: k in d.vals && HasDict(d.vals[k])
  }

  lemma UnfreezableIff(d: OrderedDict<string, Value>)
    requires d.Valid()
    ensures FreezeKwargsSpec(d).Err? <==> Unfreezable(d)
  {
    FreezeFailsIff(Sort(LexLe, d.keys), d.vals);
    forall k
      ensures k in Sort(LexLe, d.keys) <==> k in d.vals
    {}
  }

  ghost predicate SomeUnfreezable(raw: seq<OrderedDict<string, Value>>, n: nat)
    requires n <= |raw|
  {
    exists i :: 0 <= i < n && Unfreezable(raw[i])
  }

  lemma OneMoreUnfreezable(raw: seq<OrderedDict<string, Value>>, m: nat, n: nat)
    requires n == m + 1 && n <= |raw|
    ensures SomeUnfreezable(raw, n) <==> SomeUnfreezable(raw, m) || Unfreezable(raw[m])
  {}

  /** Building fails exactly when some detector passes a dict inside an argument. */
  lemma {:induction false} BuildFailsIff(active: seq<Detector>, raw: seq<OrderedDict<string, Value>>, n: nat)
    requires ArgumentDicts(active, raw) && n <= |active|
    ensures CallKwargs(active, raw, n).Err? <==> SomeUnfreezable(raw, n)
  {
    if n == 0 {
    } else {
      var m := n - 1;
      BuildFailsIff(active, raw, m);
      CallKwargsNext(active, raw, m, n);
      UnfreezableIff(raw[m]);
      OneMoreUnfreezable(raw, m, n);
    }
  }

  /** Both requests give every detector the same arguments. */
  ghost predicate SameCall(raw: seq<OrderedDict<string, Value>>, later: seq<OrderedDict<string, Value>>) {
    |raw| == |later| && forall i :: 0 <= i < |raw| ==> SameArguments(raw[i].vals, later[i].vals)
  }

  /** Equal as parts of a dictionary key. */
  ghost predicate EqualCallKwargs(x: FrozenCallKwargs, y: FrozenCallKwargs) {
    |x| == |y| && forall i :: 0 <= i < |x| ==> x[i].0 == y[i].0 && EqualPairs(x[i].1, y[i].1)
  }

  /** Both requests give every detector equal arguments. */
  ghost predicate EqualCall(raw: seq<OrderedDict<string, Value>>, later: seq<OrderedDict<string, Value>>) {
    |raw| == |later| && forall i :: 0 <= i < |raw| ==> EqualArguments(raw[i].vals, later[i].vals)
  }

  lemma CallKwargsEqualIff(active: seq<Detector>, raw: seq<OrderedDict<string, Value>>,
                           later: seq<OrderedDict<string, Value>>)
    requires ArgumentDicts(active, raw) && ArgumentDicts(active, later)
    requires CallKwargs(active, raw, |active|).Ok? && CallKwargs(active, later, |active|).Ok?
    ensures EqualCallKwargs(CallKwargs(active, raw, |active|).value, CallKwargs(active, later, |active|).value)
            <==> EqualCall(raw, later)
  {
    var a, b := CallKwargs(active, raw, |active|).value, CallKwargs(active, later, |active|).value;
    forall i | 0 <= i < |active|
      ensures a[i].0 == b[i].0 && (EqualPairs(a[i].1, b[i].1) <==> EqualArguments(raw[i].vals, later[i].vals))
    {
      CallKwargsAre(active, raw, |active|, i);
      CallKwargsAre(active, later, |active|, i);
      FreezeEqualIff(raw[i], later[i]);
    }
  }

  lemma CallKwargsAgreeIff(active: seq<Detector>, raw: seq<OrderedDict<string, Value>>,
                           later: seq<OrderedDict<string, Value>>)
    requires ArgumentDicts(active, raw) && ArgumentDicts(active, later)
    requires CallKwargs(active, raw, |active|).Ok? && CallKwargs(active, later, |active|).Ok?
    ensures CallKwargs(active, raw, |active|) == CallKwargs(active, later, |active|) <==> SameCall(raw, later)
  {
    var a, b := CallKwargs(active, raw, |active|).value, CallKwargs(active, later, |active|).value;
    forall i | 0 <= i < |active|
      ensures a[i].0 == b[i].0 && (a[i].1 == b[i].1 <==> SameArguments(raw[i].vals, later[i].vals))
    {
      CallKwargsAre(active, raw, |active|, i);
      CallKwargsAre(active, later, |active|, i);
      FreezeAlikeIff(raw[i], later[i]);
    }
    if SameCall(raw, later) { assert a == b; }
  }

  /** What was built is frozen, and so survives storage. */
  lemma BuiltIsFrozen(active: seq<Detector>, raw: seq<OrderedDict<string, Value>>, entry: VaultEntry)
    requires ArgumentDicts(active, raw) && CallKwargs(active, raw, |active|) == Ok(entry.kwargs)
    ensures FrozenEntry(entry)
  {
    forall i, j | 0 <= i < |entry.kwargs| && 0 <= j < |entry.kwargs[i].1|
      ensures Frozen(entry.kwargs[i].1[j].1)
    {
      CallKwargsAre(active, raw, |active|, i);
      var keys := Sort(LexLe, raw[i].keys);
      FreezePairsAre(keys, raw[i].vals, j);
      FreezeIs(raw[i].vals[keys[j]]);
    }
  }

  // ---- The two keys ----

  lemma DetectorsAgreeIff(active: seq<Detector>, blobLength: nat)
    requires Distinct(Names(active))
    ensures Names(PerTextDetectors(active, blobLength)) == Names(active) <==>
              PerTextFirst(active) && forall d :: d in active ==> !StaysMerged(d, blobLength)
  {
    var all := PerTextDetectors(active, blobLength);
    forall d | d in all
      ensures d in active
    {
      FanOutIs(active, blobLength, d);
    }
    NamesDecide(active, all);
    if all == active {
      ActiveMustBe(active, blobLength);
    } else if PerTextFirst(active) && forall d :: d in active ==> !StaysMerged(d, blobLength) {
      FanOutIsActive(active, blobLength);
    }
  }

  /** A request stores an entry, in the vault or as JSON; a later request with
      arguments of its own looks a text up.  The key prewarmed from the stored
      entry and the key looked up agree exactly when both give every detector the
      same arguments (in any order, as lists or tuples; for a dict, which takes
      `True` and `1` for one key, equal arguments), no detector stays in merged
      dispatch, and no demoted one stands, in the configured order, before a
      per-text one. */
  lemma KeysAgreeIff(text: string, active: seq<Detector>, blobLength: nat, raw: seq<OrderedDict<string, Value>>,
                     later: seq<OrderedDict<string, Value>>, entry: VaultEntry, kwargs: FrozenCallKwargs)
    requires Distinct(Names(active)) && ArgumentDicts(active, raw) && ArgumentDicts(active, later)
    requires entry.surrogates.Valid() && entry.detectorMode == Names(active)
    requires CallKwargs(active, raw, |active|) == Ok(entry.kwargs) && CallKwargs(active, later, |active|) == Ok(kwargs)
    ensures ParsedObject(EncodeEntry(entry)) && DecodeSpec(EncodeEntry(entry)).Ok?
    ensures var stored := DecodeSpec(EncodeEntry(entry)).value;
            && PrewarmKey(text, stored) == PrewarmKey(text, entry)
            && (LookupKey(text, active, blobLength, kwargs) == PrewarmKey(text, stored) <==>
                  && SameCall(raw, later) && PerTextFirst(active)
                  && forall d :: d in active ==> !StaysMerged(d, blobLength))
            && (SameSlot(PrewarmKey(text, stored), LookupKey(text, active, blobLength, kwargs)) <==>
                  && EqualCall(raw, later) && PerTextFirst(active)
                  && forall d :: d in active ==> !StaysMerged(d, blobLength))
  {
    BuiltIsFrozen(active, raw, entry);
    FrozenComesBack(entry);
    CallKwargsAgreeIff(active, raw, later);
    CallKwargsEqualIff(active, raw, later);
    DetectorsAgreeIff(active, blobLength);
  }
}
