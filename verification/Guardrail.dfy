/** The response side of the guardrail endpoint: one decision per streamed call
    against the shared vault. */
module Guardrails {
  import opened Deanonymize
  import opened MemoryVaults
  import opened Replacer
  import opened RoundTrip
  import opened Streaming
  import opened Texts
  import opened Tokens
  import opened Vault
  import opened Wrappers

  datatype Config = Config(useFaker: bool, fakerBuffer: bool, substitute: bool)

  /** The response action with its payload. */
  datatype Reply = NoChange | Intervened(texts: seq<string>) | Wait

  /** Must this mid-stream call be deferred? */
  predicate Defers(config: Config, texts: seq<string>) {
    || (config.useFaker && config.fakerBuffer)
    || exists i :: 0 <= i < |texts| && HasPartialSuffix(texts[i])
  }

  function Answer(restored: seq<string>, texts: seq<string>): Reply {
    if restored == texts then NoChange else Intervened(restored)
  }

  /** The response branch of `guardrail`, given the entry the vault returns. */
  function ReplyWith(config: Config, entry: VaultEntry, texts: seq<string>, isFinal: Option<bool>): Reply
    requires entry.surrogates.Valid()
  {
    if texts == [] then NoChange
    else if isFinal == Some(false) && Defers(config, texts) then Wait
    else Answer(Restore(config.substitute, entry, texts), texts)
  }

  /** When a call is deferred, and what it is answered otherwise: nothing is held
      back but the middle of a stream whose text stops inside a token, or all of it
      in buffer mode. */
  lemma ReplyIs(config: Config, entry: VaultEntry, texts: seq<string>, isFinal: Option<bool>)
    requires entry.surrogates.Valid()
    ensures var reply := ReplyWith(config, entry, texts, isFinal);
            var restored := Restore(config.substitute, entry, texts);
            && (reply.Wait? <==>
                  && texts != [] && isFinal == Some(false)
                  && ((config.useFaker && config.fakerBuffer)
                      || exists i :: 0 <= i < |texts| && EndsInToken(texts[i])))
            && (!reply.Wait? ==> if restored == texts then reply.NoChange? else reply == Intervened(restored))
  {
    forall i | 0 <= i < |texts|
      ensures HasPartialSuffix(texts[i]) <==> EndsInToken(texts[i])
    {
      WaitsIff(texts[i]);
    }
  }

  class Guardrail {
    const vault: MemoryVault
    const config: Config

    constructor (vault: MemoryVault, config: Config)
      ensures this.vault == vault && this.config == config
    {
      this.vault, this.config := vault, config;
    }

    /** The response branch of `guardrail`, vault lookup included. */
    method Respond(texts: seq<string>, callId: Option<string>, isFinal: Option<bool>, now: real)
      returns (reply: Reply)
      requires vault.Valid()
      ensures Lookup(vault.ttl, vault.store, callId, now).surrogates.Valid()
      ensures reply == ReplyWith(config, Lookup(vault.ttl, vault.store, callId, now), texts, isFinal)
    {
      if texts == [] { return NoChange; }
      if isFinal == Some(false) {
        if config.useFaker && config.fakerBuffer { return Wait; }
        for i := 0 to |texts|
          invariant forall j :: 0 <= j < i ==> !HasPartialSuffix(texts[j])
        {
          if HasPartialSuffix(texts[i]) { return Wait; }
        }
      }
      var entry := NoEntry();
      if callId.Some? { entry := vault.Peek(callId.value, now); }
      var restored := texts;
      if !entry.IsEmpty() && config.substitute {
        restored := ReplaceEach(FlatMapping(entry), texts);
      }
      return if restored == texts then NoChange else Intervened(restored);
    }
  }

  // ---- Streams ----

  /** One streamed call: the text accumulated so far, and how many vault events
      (from any request) have happened when it arrives. */
  datatype Call = Call(texts: seq<string>, isFinal: bool, events: nat, now: real)

  ghost predicate Extends(a: seq<string>, b: seq<string>) {
    |a| == |b| && forall i :: 0 <= i < |a| ==> a[i] <= b[i]
  }

  /** What the client holds after a reply that is not a deferral. */
  function Delivered(reply: Reply, texts: seq<string>): seq<string> {
    if reply.Intervened? then reply.texts else texts
  }

  /** When `call` arrives, `entry` is the latest put under `id`, unexpired, and
      fewer than `max` other ids were put after it. */
  ghost predicate LiveAt(ttl: real, max: nat, trace: seq<Event>, id: string, entry: VaultEntry, call: Call) {
    && call.events <= |trace|
    && Clocked(trace[..call.events], call.now)
    && |OthersSince(trace[..call.events], id)| < max
    && match Latest(trace[..call.events], id)
       case None => false
       case Some(slot) => slot.entry == entry && !Expired(ttl, call.now, slot)
  }

  /** A streamed response: the text only grows, and only the last call is final. */
  ghost predicate Stream(calls: seq<Call>) {
    && (forall i, j :: 0 <= i < j < |calls| ==> Extends(calls[i].texts, calls[j].texts))
    && (forall i :: 0 <= i < |calls| ==> (calls[i].isFinal <==> i == |calls| - 1))
  }

  /** What `call` finds in the vault, in the state the trace left it in. */
  ghost function EntrySeen(ttl: real, max: nat, trace: seq<Event>, id: string, call: Call): VaultEntry
    requires call.events <= |trace|
  {
    Lookup(ttl, After(ttl, max, trace[..call.events]), Some(id), call.now)
  }

  ghost function ReplyTo(config: Config, ttl: real, max: nat, trace: seq<Event>, id: string, call: Call): Reply
    requires call.events <= |trace| && EntrySeen(ttl, max, trace, id, call).surrogates.Valid()
  {
    ReplyWith(config, EntrySeen(ttl, max, trace, id, call), call.texts, Some(call.isFinal))
  }

  /** Surrogates whose cuts the handler recognises, or a mode in which it does
      not matter: nothing is substituted, or nothing is sent before the end. */
  ghost predicate StreamSafe(config: Config, entry: VaultEntry) {
    || (config.useFaker && config.fakerBuffer)
    || !config.substitute
    || forall s :: s in entry.surrogates.vals ==> TokenWaits(s)
  }

  lemma LiveEntryIsSeen(ttl: real, max: nat, trace: seq<Event>, id: string, entry: VaultEntry, call: Call)
    requires 1 <= max && LiveAt(ttl, max, trace, id, entry, call)
    ensures EntrySeen(ttl, max, trace, id, call) == entry
  {
    PeekAfterAnyRun(ttl, max, trace[..call.events], call.now, id, call.now);
  }

  /** Two calls of one stream: what was sent for the earlier is a prefix of what
      is sent for the later. */
  lemma EarlierIsPrefix(config: Config, entry: VaultEntry, a: seq<string>, b: seq<string>, isFinal: bool)
    requires entry.surrogates.Valid() && StreamSafe(config, entry) && Extends(a, b)
    requires !ReplyWith(config, entry, a, Some(false)).Wait? && !ReplyWith(config, entry, b, Some(isFinal)).Wait?
    ensures Extends(Delivered(ReplyWith(config, entry, a, Some(false)), a),
                    Delivered(ReplyWith(config, entry, b, Some(isFinal)), b))
  {
    if a != [] && config.substitute && !entry.IsEmpty() {
      var d := FlatMapping(entry);
      forall i | 0 <= i < |a|
        ensures Replace(d, a[i]) <= Replace(d, b[i])
      {
        assert !HasPartialSuffix(a[i]);
        SentIsPrefix(d, a[i], b[i]);
      }
    }
  }

  /** Streaming safety over whole runs.  While the entry is live for every call,
      whatever other requests do to the vault in between: successive replies only
      ever extend each other, and the final one is the substitution of the full
      text. */
  lemma StreamIsMonotone(config: Config, ttl: real, max: nat, trace: seq<Event>, id: string, entry: VaultEntry,
                         calls: seq<Call>)
    requires 1 <= max && entry.surrogates.Valid() && StreamSafe(config, entry) && Stream(calls)
    requires forall i :: 0 <= i < |calls| ==> LiveAt(ttl, max, trace, id, entry, calls[i])
    ensures forall i :: 0 <= i < |calls| ==>
              calls[i].events <= |trace| && EntrySeen(ttl, max, trace, id, calls[i]) == entry
    ensures forall i, j :: 0 <= i < j < |calls| ==>
              var x := ReplyTo(config, ttl, max, trace, id, calls[i]);
              var y := ReplyTo(config, ttl, max, trace, id, calls[j]);
              x.Wait? || y.Wait? || Extends(Delivered(x, calls[i].texts), Delivered(y, calls[j].texts))
    ensures calls != [] ==>
              var last := calls[|calls| - 1];
              var y := ReplyTo(config, ttl, max, trace, id, last);
              !y.Wait? && Delivered(y, last.texts) == Restore(config.substitute, entry, last.texts)
  {
    forall i | 0 <= i < |calls|
      ensures calls[i].events <= |trace| && EntrySeen(ttl, max, trace, id, calls[i]) == entry
    {
      LiveEntryIsSeen(ttl, max, trace, id, entry, calls[i]);
    }
    forall i, j | 0 <= i < j < |calls|
      ensures var x := ReplyTo(config, ttl, max, trace, id, calls[i]);
              var y := ReplyTo(config, ttl, max, trace, id, calls[j]);
              x.Wait? || y.Wait? || Extends(Delivered(x, calls[i].texts), Delivered(y, calls[j].texts))
    {
      var x, y := ReplyTo(config, ttl, max, trace, id, calls[i]), ReplyTo(config, ttl, max, trace, id, calls[j]);
      if !x.Wait? && !y.Wait? {
        EarlierIsPrefix(config, entry, calls[i].texts, calls[j].texts, calls[j].isFinal);
      }
    }
  }

  /** Successive replies only ever extend each other. */
  ghost predicate Monotone(config: Config, ttl: real, max: nat, trace: seq<Event>, id: string, calls: seq<Call>) {
    && (forall i :: 0 <= i < |calls| ==>
          calls[i].events <= |trace| && EntrySeen(ttl, max, trace, id, calls[i]).surrogates.Valid())
    && forall i, j :: 0 <= i < j < |calls| ==>
         var x := ReplyTo(config, ttl, max, trace, id, calls[i]);
         var y := ReplyTo(config, ttl, max, trace, id, calls[j]);
         x.Wait? || y.Wait? || Extends(Delivered(x, calls[i].texts), Delivered(y, calls[j].texts))
  }

  /** A stream during which `entry` stays live. */
  ghost predicate LiveStream(ttl: real, max: nat, trace: seq<Event>, id: string, entry: VaultEntry, calls: seq<Call>) {
    Stream(calls) && forall i :: 0 <= i < |calls| ==> LiveAt(ttl, max, trace, id, entry, calls[i])
  }

  /** Every stream is, over whatever vault traffic. */
  ghost predicate StreamsExtend(config: Config, ttl: real, max: nat, entry: VaultEntry) {
    forall trace, id, calls :: LiveStream(ttl, max, trace, id, entry, calls) ==>
                                 Monotone(config, ttl, max, trace, id, calls)
  }

  lemma SafeStreamsExtend(config: Config, ttl: real, max: nat, entry: VaultEntry)
    requires 1 <= max && entry.surrogates.Valid() && StreamSafe(config, entry)
    ensures StreamsExtend(config, ttl, max, entry)
  {
    forall trace, id, calls | LiveStream(ttl, max, trace, id, entry, calls)
      ensures Monotone(config, ttl, max, trace, id, calls)
    {
      StreamIsMonotone(config, ttl, max, trace, id, entry, calls);
    }
  }

  lemma Restored(config: Config, entry: VaultEntry, texts: seq<string>, isFinal: Option<bool>)
    requires entry.surrogates.Valid() && !entry.IsEmpty() && config.substitute && texts != []
    requires isFinal == Some(false) ==> !Defers(config, texts)
    ensures var reply := ReplyWith(config, entry, texts, isFinal);
            !reply.Wait? && Delivered(reply, texts) == ReplaceAll(FlatMapping(entry), texts)
  {}

  /** A text that stops before the closing bracket of a token, and then goes on. */
  lemma CutTokenReplies(config: Config, entry: VaultEntry, s: string)
    requires config.substitute && !(config.useFaker && config.fakerBuffer)
    requires entry.surrogates.Valid() && BeginDifferently(FlatMapping(entry).vals)
    requires forall s :: s in entry.surrogates.vals ==> Bracketed(s)
    requires s in entry.surrogates.vals && !TokenWaits(s)
    ensures var a, b := [s[..|s| - 1]], [s];
            var first, second := ReplyWith(config, entry, a, Some(false)), ReplyWith(config, entry, b, Some(true));
            Extends(a, b) && !first.Wait? && !second.Wait? && !Extends(Delivered(first, a), Delivered(second, b))
  {
    var d := FlatMapping(entry);
    var a, b := [s[..|s| - 1]], [s];
    CutTokenIsSent(d, s);
    CutIsTakenBack(s, d.vals[s]);
    assert !Defers(config, a);
    Restored(config, entry, a, Some(false));
    Restored(config, entry, b, Some(true));
    assert ReplaceAll(d, a)[0] == s[..|s| - 1] && ReplaceAll(d, b)[0] == d.vals[s];
  }

  lemma CutTokenStream(config: Config, ttl: real, max: nat, id: string, entry: VaultEntry, s: string)
    requires 1 <= max && 0.0 <= ttl && id != "" && config.substitute && !(config.useFaker && config.fakerBuffer)
    requires entry.surrogates.Valid() && BeginDifferently(FlatMapping(entry).vals)
    requires forall s :: s in entry.surrogates.vals ==> Bracketed(s)
    requires s in entry.surrogates.vals && !TokenWaits(s)
    ensures !StreamsExtend(config, ttl, max, entry)
  {
    var x, y := Call([s[..|s| - 1]], false, 1, 0.0), Call([s], true, 1, 0.0);
    OnePutLives(ttl, max, id, entry, x);
    OnePutLives(ttl, max, id, entry, y);
    CutTokenReplies(config, entry, s);
    TakenBackInStream(config, ttl, max, [PutEvent(id, entry, 0.0, 0.0)], id, entry, x, y);
  }

  lemma TakenBackInStream(config: Config, ttl: real, max: nat, trace: seq<Event>, id: string, entry: VaultEntry,
                          x: Call, y: Call)
    requires 1 <= max && entry.surrogates.Valid() && Extends(x.texts, y.texts) && !x.isFinal && y.isFinal
    requires LiveAt(ttl, max, trace, id, entry, x) && LiveAt(ttl, max, trace, id, entry, y)
    requires var first, second := ReplyWith(config, entry, x.texts, Some(false)),
                                  ReplyWith(config, entry, y.texts, Some(true));
             !first.Wait? && !second.Wait? && !Extends(Delivered(first, x.texts), Delivered(second, y.texts))
    ensures !StreamsExtend(config, ttl, max, entry)
  {
    LiveEntryIsSeen(ttl, max, trace, id, entry, x);
    LiveEntryIsSeen(ttl, max, trace, id, entry, y);
    NotMonotone(config, ttl, max, trace, id, [x, y], 0, 1);
    PairIsLiveStream(ttl, max, trace, id, entry, x, y);
  }

  lemma PairIsLiveStream(ttl: real, max: nat, trace: seq<Event>, id: string, entry: VaultEntry, x: Call, y: Call)
    requires Extends(x.texts, y.texts) && !x.isFinal && y.isFinal
    requires LiveAt(ttl, max, trace, id, entry, x) && LiveAt(ttl, max, trace, id, entry, y)
    ensures LiveStream(ttl, max, trace, id, entry, [x, y])
  {
    assert [x, y][0] == x && [x, y][1] == y;
  }

  lemma NotMonotone(config: Config, ttl: real, max: nat, trace: seq<Event>, id: string, calls: seq<Call>, i: nat,
                    j: nat)
    requires i < j < |calls| && calls[i].events <= |trace| && calls[j].events <= |trace|
    requires EntrySeen(ttl, max, trace, id, calls[i]).surrogates.Valid()
    requires EntrySeen(ttl, max, trace, id, calls[j]).surrogates.Valid()
    requires var first := ReplyTo(config, ttl, max, trace, id, calls[i]);
             var second := ReplyTo(config, ttl, max, trace, id, calls[j]);
             && !first.Wait? && !second.Wait?
             && !Extends(Delivered(first, calls[i].texts), Delivered(second, calls[j].texts))
    ensures !Monotone(config, ttl, max, trace, id, calls)
  {}

  /** The conditions of `StreamSafe` are exact: an entry with a token that the WAIT
      pattern does not know has a stream in which a reply is taken back. */
  lemma StreamSafeIff(config: Config, ttl: real, max: nat, entry: VaultEntry)
    requires 1 <= max && 0.0 <= ttl && entry.surrogates.Valid() && BeginDifferently(FlatMapping(entry).vals)
    requires forall s :: s in entry.surrogates.vals ==> Bracketed(s)
    ensures StreamsExtend(config, ttl, max, entry) <==> StreamSafe(config, entry)
  {
    if StreamSafe(config, entry) {
      SafeStreamsExtend(config, ttl, max, entry);
    } else {
      var s :| s in entry.surrogates.vals && !TokenWaits(s);
      CutTokenStream(config, ttl, max, "call", entry, s);
    }
  }

  lemma OnePutLives(ttl: real, max: nat, id: string, entry: VaultEntry, call: Call)
    requires 1 <= max && id != "" && !entry.IsEmpty() && call.events == 1 && 0.0 <= call.now <= ttl
    ensures LiveAt(ttl, max, [PutEvent(id, entry, 0.0, 0.0)], id, entry, call)
  {
    var trace := [PutEvent(id, entry, 0.0, 0.0)];
    assert trace[..1] == trace && trace[..0] == [];
    assert Latest(trace, id) == Some(Slot(0.0, entry)) && OthersSince(trace, id) == {};
  }

  // ---- Loss of the entry in the middle of a stream ----

  /** When `call` arrives, nothing unexpired is stored under `id`. */
  ghost predicate GoneAt(ttl: real, trace: seq<Event>, id: string, call: Call) {
    && call.events <= |trace|
    && Clocked(trace[..call.events], call.now)
    && match Latest(trace[..call.events], id)
       case None => true
       case Some(slot) => Expired(ttl, call.now, slot)
  }

  lemma GoneIsNotSeen(ttl: real, max: nat, trace: seq<Event>, id: string, call: Call)
    requires 1 <= max && GoneAt(ttl, trace, id, call)
    ensures EntrySeen(ttl, max, trace, id, call) == NoEntry()
  {
    PeekAfterAnyRun(ttl, max, trace[..call.events], call.now, id, call.now);
  }

  ghost predicate SomethingRestored(entry: VaultEntry, texts: seq<string>) {
    exists s, i :: s in entry.surrogates.vals && 0 <= i < |texts| && Occurs(s, texts[i])
  }

  /** A reply restored from the entry, and a later one without it. */
  lemma LostEntryIff(config: Config, entry: VaultEntry, a: seq<string>, b: seq<string>, isFinal: Option<bool>,
                     later: Option<bool>)
    requires entry.surrogates.Valid() && config.substitute && BeginDifferently(FlatMapping(entry).vals) && Extends(a, b)
    requires !ReplyWith(config, entry, a, isFinal).Wait? && !ReplyWith(config, NoEntry(), b, later).Wait?
    ensures Extends(Delivered(ReplyWith(config, entry, a, isFinal), a),
                    Delivered(ReplyWith(config, NoEntry(), b, later), b))
            <==> !SomethingRestored(entry, a)
  {
    var d := FlatMapping(entry);
    assert Delivered(ReplyWith(config, NoEntry(), b, later), b) == b;
    if entry.IsEmpty() {
      assert d.keys == [];
    } else {
      assert Delivered(ReplyWith(config, entry, a, isFinal), a) == ReplaceAll(d, a);
    }
    forall i | 0 <= i < |a|
      ensures Replace(d, a[i]) <= b[i] <==> forall s :: s in d.vals ==> !Occurs(s, a[i])
    {
      TakenBackIff(d, a[i], b[i]);
    }
  }

  /** Two calls of a stream, the first of which finds the entry and the second
      nothing, be it expired, popped or evicted: the second reply extends the first
      exactly when the first had nothing to restore.  No surrogate may begin like
      its original. */
  lemma LossBreaksStreamIff(config: Config, ttl: real, max: nat, trace: seq<Event>, id: string, entry: VaultEntry,
                            x: Call, y: Call)
    requires config.substitute && entry.surrogates.Valid() && BeginDifferently(FlatMapping(entry).vals)
    requires x.events <= |trace| && y.events <= |trace| && Extends(x.texts, y.texts)
    requires EntrySeen(ttl, max, trace, id, x) == entry && EntrySeen(ttl, max, trace, id, y) == NoEntry()
    ensures var first, second := ReplyTo(config, ttl, max, trace, id, x), ReplyTo(config, ttl, max, trace, id, y);
            !first.Wait? && !second.Wait? ==>
              (Extends(Delivered(first, x.texts), Delivered(second, y.texts)) <==> !SomethingRestored(entry, x.texts))
  {
    var first, second := ReplyTo(config, ttl, max, trace, id, x), ReplyTo(config, ttl, max, trace, id, y);
    if !first.Wait? && !second.Wait? {
      LostEntryIff(config, entry, x.texts, y.texts, Some(x.isFinal), Some(y.isFinal));
    }
  }

  /** Liveness cannot be dropped: what expiry between the two calls, or a pop,
      does to the stream, whatever else happened to the vault. */
  lemma ExpiryBreaksStreamIff(config: Config, ttl: real, max: nat, trace: seq<Event>, id: string, entry: VaultEntry,
                              x: Call, y: Call)
    requires 1 <= max && config.substitute && entry.surrogates.Valid() && BeginDifferently(FlatMapping(entry).vals)
    requires LiveAt(ttl, max, trace, id, entry, x) && GoneAt(ttl, trace, id, y) && Extends(x.texts, y.texts)
    ensures EntrySeen(ttl, max, trace, id, x) == entry && EntrySeen(ttl, max, trace, id, y) == NoEntry()
    ensures var first, second := ReplyTo(config, ttl, max, trace, id, x), ReplyTo(config, ttl, max, trace, id, y);
            !first.Wait? && !second.Wait? ==>
              (Extends(Delivered(first, x.texts), Delivered(second, y.texts)) <==> !SomethingRestored(entry, x.texts))
  {
    LiveEntryIsSeen(ttl, max, trace, id, entry, x);
    GoneIsNotSeen(ttl, max, trace, id, y);
    LossBreaksStreamIff(config, ttl, max, trace, id, entry, x, y);
  }

  /** And it does happen: the entry is stored once and expires between the two
      calls of a stream whose text ends in a surrogate. */
  lemma ExpiryBreaksStream(config: Config, ttl: real, max: nat, id: string, entry: VaultEntry, s: string)
    requires 1 <= max && 0.0 <= ttl && id != "" && config.substitute && !(config.useFaker && config.fakerBuffer)
    requires entry.surrogates.Valid() && BeginDifferently(FlatMapping(entry).vals)
    requires s in entry.surrogates.vals && Bracketed(s)
    ensures var trace := [PutEvent(id, entry, 0.0, 0.0)];
            var x, y := Call([s], false, 1, ttl), Call([s], true, 1, ttl + 1.0);
            && Stream([x, y]) && LiveAt(ttl, max, trace, id, entry, x) && GoneAt(ttl, trace, id, y)
            && EntrySeen(ttl, max, trace, id, x) == entry && EntrySeen(ttl, max, trace, id, y) == NoEntry()
            && var first, second := ReplyTo(config, ttl, max, trace, id, x), ReplyTo(config, ttl, max, trace, id, y);
               !first.Wait? && !second.Wait? && !Extends(Delivered(first, x.texts), Delivered(second, y.texts))
  {
    var trace := [PutEvent(id, entry, 0.0, 0.0)];
    var x, y := Call([s], false, 1, ttl), Call([s], true, 1, ttl + 1.0);
    OnePut(ttl, max, id, entry, x, y);
    ExpiryBreaksStreamIff(config, ttl, max, trace, id, entry, x, y);
    WholeTokenIsSent(s);
    assert s <= s[0..] && Occurs(s, [s][0]);
  }

  lemma WholeTokenIsSent(s: string)
    requires Bracketed(s)
    ensures !HasPartialSuffix(s)
  {
    forall i | 0 <= i < |s|
      ensures !OpenAt(s, i)
    {
      assert 0 < i ==> s[i] != '[';
      assert i == 0 ==> !SurrogateChar(s[|s| - 1]) && s[|s| - 1] != '\n';
    }
  }

  lemma OnePut(ttl: real, max: nat, id: string, entry: VaultEntry, x: Call, y: Call)
    requires 1 <= max && 0.0 <= ttl && id != "" && !entry.IsEmpty()
    requires x.events == 1 && y.events == 1 && x.now == ttl && y.now == ttl + 1.0
    ensures var trace := [PutEvent(id, entry, 0.0, 0.0)];
            LiveAt(ttl, max, trace, id, entry, x) && GoneAt(ttl, trace, id, y)
  {
    var trace := [PutEvent(id, entry, 0.0, 0.0)];
    OnePutLives(ttl, max, id, entry, x);
    assert trace[..1] == trace && trace[..0] == [];
  }
}
