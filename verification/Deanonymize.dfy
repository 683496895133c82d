/** `Pipeline.deanonymize`: putting originals back from a vault entry. */
module Deanonymize {
  import opened MemoryVaults
  import opened OrderedDicts
  import opened Replacer
  import opened Vault
  import opened Wrappers

  /** `{surrogate: vs.original for surrogate, vs in entry.surrogates.items()}` */
  function FlatMapping(entry: VaultEntry): OrderedDict<string, string> {
    OrderedDict(entry.surrogates.keys, map s | s in entry.surrogates.vals :: entry.surrogates.vals[s].original)
  }

  function ReplaceAll(mapping: OrderedDict<string, string>, texts: seq<string>): seq<string>
    requires mapping.Valid()
  {
    seq(|texts|, i requires 0 <= i < |texts| => Replace(mapping, texts[i]))
  }

  /** What is sent out for `texts` once the entry is known.  An absent or
      expired entry is empty and leaves the texts alone. */
  function Restore(substitute: bool, entry: VaultEntry, texts: seq<string>): seq<string>
    requires entry.surrogates.Valid()
  {
    if entry.IsEmpty() || !substitute then texts else ReplaceAll(FlatMapping(entry), texts)
  }

  /** The entry a call looks up; no call id, no entry. */
  function Lookup(ttl: real, store: Store, callId: Option<string>, now: real): VaultEntry {
    if callId.None? then NoEntry() else PeekSpec(ttl, store, callId.value, now)
  }

  /** The comprehension that restores the texts one by one. */
  method ReplaceEach(mapping: OrderedDict<string, string>, texts: seq<string>) returns (outbound: seq<string>)
    requires mapping.Valid()
    ensures outbound == ReplaceAll(mapping, texts)
  {
    outbound := [];
    ghost var all := ReplaceAll(mapping, texts);
    for i := 0 to |texts|
      invariant |outbound| == i && forall j :: 0 <= j < i ==> outbound[j] == all[j]
    {
      outbound := outbound + [Replace(mapping, texts[i])];
    }
  }
}
