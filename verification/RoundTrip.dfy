/** Substituting surrogates for originals and back again.

    `anonymize` replaces originals by surrogates, `deanonymize` replaces the
    surrogates by what the reversed mapping says.  For surrogates of the opaque
    shape `[...]` this module says exactly when that restores the text. */
module RoundTrip {
  import opened OrderedDicts
  import opened Replacer
  import opened Texts

  /** `[`, a body without brackets, `]`. */
  predicate Bracketed(s: string) {
    && 2 <= |s| && s[0] == '[' && s[|s| - 1] == ']'
    && forall i :: 0 < i < |s| - 1 ==> s[i] != '[' && s[i] != ']'
  }

  /** `{v: k for k, v in mapping.items()}` over the first `n` items. */
  function ReverseFirst(d: OrderedDict<string, string>, n: nat): OrderedDict<string, string>
    requires d.Valid() && n <= |d.keys|
  {
    if n == 0 then Empty()
    else ReverseFirst(d, n - 1).Put(d.vals[d.keys[n - 1]], d.keys[n - 1])
  }

  function Reverse(d: OrderedDict<string, string>): OrderedDict<string, string>
    requires d.Valid()
  {
    ReverseFirst(d, |d.keys|)
  }

  ghost predicate DistinctValues(d: OrderedDict<string, string>, n: nat)
    requires d.Valid() && n <= |d.keys|
  {
    forall i, j :: 0 <= i < j < n ==> d.vals[d.keys[i]] != d.vals[d.keys[j]]
  }

  lemma {:induction false} ReverseFirstIs(d: OrderedDict<string, string>, n: nat)
    requires d.Valid() && n <= |d.keys|
    ensures ReverseFirst(d, n).Valid()
    ensures forall i :: 0 <= i < n ==> d.vals[d.keys[i]] in ReverseFirst(d, n).vals
    ensures forall s :: s in ReverseFirst(d, n).vals ==>
              exists i :: 0 <= i < n && ReverseFirst(d, n).vals[s] == d.keys[i] && d.vals[d.keys[i]] == s
  {
    if n == 0 {
    } else {
      ReverseFirstIs(d, n - 1);
      ReverseFirst(d, n - 1).PutValid(d.vals[d.keys[n - 1]], d.keys[n - 1]);
    }
  }

  /** If two originals share a surrogate, the one that comes last has it. */
  lemma {:induction false} LastOneWins(d: OrderedDict<string, string>, n: nat, i: nat)
    requires d.Valid() && i < n <= |d.keys|
    requires forall j :: i < j < n ==> d.vals[d.keys[j]] != d.vals[d.keys[i]]
    ensures var s := d.vals[d.keys[i]];
            s in ReverseFirst(d, n).vals && ReverseFirst(d, n).vals[s] == d.keys[i]
  {
    if i < n - 1 {
      assert d.vals[d.keys[n - 1]] != d.vals[d.keys[i]];
      LastOneWins(d, n - 1, i);
    }
  }

  /** If none do, the surrogates are in the order of the originals. */
  lemma {:induction false} ReverseKeepsOrder(d: OrderedDict<string, string>, n: nat)
    requires d.Valid() && n <= |d.keys| && DistinctValues(d, n)
    ensures |ReverseFirst(d, n).keys| == n
    ensures forall i :: 0 <= i < n ==> ReverseFirst(d, n).keys[i] == d.vals[d.keys[i]]
  {
    if n == 0 {
    } else {
      ReverseKeepsOrder(d, n - 1);
      SeenBefore(d, n - 1);
    }
  }

  lemma SeenBefore(d: OrderedDict<string, string>, n: nat)
    requires d.Valid() && n < |d.keys|
    ensures d.vals[d.keys[n]] in ReverseFirst(d, n).vals <==>
              exists i :: 0 <= i < n && d.vals[d.keys[i]] == d.vals[d.keys[n]]
  {
    ReverseFirstIs(d, n);
  }

  lemma {:induction false} ReverseCount(d: OrderedDict<string, string>, n: nat)
    requires d.Valid() && n <= |d.keys|
    ensures |ReverseFirst(d, n).keys| <= n
    ensures |ReverseFirst(d, n).keys| == n <==> DistinctValues(d, n)
  {
    if n == 0 {
    } else {
      ReverseCount(d, n - 1);
      SeenBefore(d, n - 1);
    }
  }

  lemma DistinctIsInjective(d: OrderedDict<string, string>)
    requires d.Valid()
    ensures DistinctValues(d, |d.keys|) <==> Injective(d.vals)
  {}

  lemma ReverseInverts(d: OrderedDict<string, string>, s: string)
    requires d.Valid()
    ensures s in Reverse(d).vals.Keys <==> s in d.vals.Values
    ensures s in Reverse(d).vals ==> Reverse(d).vals[s] in d.vals && d.vals[Reverse(d).vals[s]] == s
  {
    ReverseFirstIs(d, |d.keys|);
    if k :| k in d.vals && d.vals[k] == s {
      assert k in d.keys;
    }
  }

  /** The reverse mapping has one entry per original exactly when no two
      originals share a surrogate, and then it is the inverse. */
  lemma ReverseKeepsAll(d: OrderedDict<string, string>)
    requires d.Valid()
    ensures Reverse(d).Valid()
    ensures |Reverse(d).keys| == |d.keys| <==> Injective(d.vals)
    ensures Reverse(d).vals.Keys == d.vals.Values
    ensures forall s :: s in Reverse(d).vals ==> Reverse(d).vals[s] in d.vals && d.vals[Reverse(d).vals[s]] == s
  {
    assert Reverse(d).Valid() by { ReverseFirstIs(d, |d.keys|); }
    assert |Reverse(d).keys| == |d.keys| <==> Injective(d.vals) by {
      ReverseCount(d, |d.keys|);
      DistinctIsInjective(d);
    }
    forall s
      ensures s in Reverse(d).vals.Keys <==> s in d.vals.Values
      ensures s in Reverse(d).vals ==> Reverse(d).vals[s] in d.vals && d.vals[Reverse(d).vals[s]] == s
    {
      ReverseInverts(d, s);
    }
  }

  /** The pieces `ps[i..]` start with the characters of `s`, copied one by one. */
  ghost predicate CopiedAt(ps: seq<Piece>, i: nat, s: string) {
    i + |s| <= |ps| && forall j :: 0 <= j < |s| ==> ps[i + j] == Literal(s[j])
  }

  /** Some surrogate stood in the text already, in a stretch no original covers. */
  ghost predicate TokenInGap(tokens: set<string>, ps: seq<Piece>) {
    exists i, s :: 0 <= i && s in tokens && CopiedAt(ps, i, s)
  }

  lemma SameToken(r: string, v: string, text: string)
    requires Bracketed(r) && Bracketed(v) && r <= text && v <= text
    ensures r == v
  {}

  lemma GapTail(tokens: set<string>, ps: seq<Piece>)
    requires ps != [] && (forall s :: s in tokens ==> s != "")
    ensures TokenInGap(tokens, ps) <==> TokenInGap(tokens, ps[1..]) || exists s :: s in tokens && CopiedAt(ps, 0, s)
  {
    if TokenInGap(tokens, ps) {
      var i, s :| 0 <= i && s in tokens && CopiedAt(ps, i, s);
      if 0 < i { assert CopiedAt(ps[1..], i - 1, s); }
    }
    if TokenInGap(tokens, ps[1..]) {
      var i, s :| 0 <= i && s in tokens && CopiedAt(ps[1..], i, s);
      forall j | 0 <= j < |s|
        ensures ps[i + 1 + j] == Literal(s[j])
      {
        assert ps[1..][i + j] == Literal(s[j]);
      }
      assert CopiedAt(ps, i + 1, s);
    }
  }

  lemma {:induction false} CopiedRenders(vals: map<string, string>, ps: seq<Piece>, s: string)
    requires HitsIn(vals.Keys, ps) && CopiedAt(ps, 0, s)
    ensures s <= Render(vals, ps) && s <= Spell(ps)
  {
    if s == "" {
    } else {
      assert ps[0] == Literal(s[0]);
      assert forall j :: 0 <= j < |s[1..]| ==> ps[1..][j] == ps[j + 1];
      CopiedRenders(vals, ps[1..], s[1..]);
      assert s == [s[0]] + s[1..];
    }
  }

  /** A surrogate that the anonymized text starts with, where the scan copied a
      character, was copied as a whole: an inserted one would open a bracket
      inside it. */
  lemma {:induction false} TokenWasCopied(vals: map<string, string>, ps: seq<Piece>, s: string, n: nat)
    requires HitsIn(vals.Keys, ps)
    requires forall k :: k in vals ==> Bracketed(vals[k])
    requires n < |s| && Bracketed(s) && s[n..] <= Render(vals, ps)
    requires n == 0 ==> ps != [] && ps[0].Literal?
    ensures CopiedAt(ps, 0, s[n..])
    decreases |s| - n
  {
    assert s[n..][0] == s[n] && Render(vals, ps)[0] == s[n];
    RenderCons(vals, ps);
    assert ps[0].Literal?;
    assert s[n..][1..] == s[n + 1..];
    assert Render(vals, ps)[1..] == Render(vals, ps[1..]);
    if n + 1 < |s| {
      assert s[n + 1..] <= Render(vals, ps[1..]);
      TokenWasCopied(vals, ps[1..], s, n + 1);
      forall j | 0 <= j < |s[n..]|
        ensures ps[j] == Literal(s[n..][j])
      {
        if 0 < j { assert ps[1..][j - 1] == Literal(s[n + 1..][j - 1]); }
      }
    }
  }

  /** The two mappings of one request, the reversed one as an alternation. */
  ghost predicate Inverse(fwd: map<string, string>, rev: map<string, string>, alts: seq<string>) {
    && (forall k :: k in fwd ==> Bracketed(fwd[k]) && fwd[k] in rev && rev[fwd[k]] == k)
    && (forall s :: s in rev ==> Bracketed(s) && rev[s] in fwd)
    && (forall s :: s in alts <==> s in rev)
  }

  /** Reading surrogates in `text`, written back with their originals. */
  ghost function ReadBack(rev: map<string, string>, alts: seq<string>, text: string): string
    requires forall s :: s in alts <==> s in rev
  {
    ParseHits(alts, text, false);
    Render(rev, Parse(alts, text, false))
  }

  lemma ReadToken(rev: map<string, string>, alts: seq<string>, s: string, rest: string)
    requires forall r :: r in alts <==> r in rev
    requires forall r :: r in rev ==> Bracketed(r)
    requires s in rev
    ensures ReadBack(rev, alts, s + rest) == rev[s] + ReadBack(rev, alts, rest)
  {
    var text := s + rest;
    var m := FirstMatch(alts, text);
    assert s in alts && s <= text && m.Some?;
    SameToken(m.value, s, text);
    assert text[|s|..] == rest;
    var ps := Parse(alts, text, false);
    assert ps == [Hit(s)] + Parse(alts, rest, false);
    ParseHits(alts, text, false);
    RenderCons(rev, ps);
  }

  lemma ReadCopied(rev: map<string, string>, alts: seq<string>, c: char, rest: string)
    requires forall r :: r in alts <==> r in rev
    requires forall r :: r in rev ==> !(r <= [c] + rest)
    ensures ReadBack(rev, alts, [c] + rest) == [c] + ReadBack(rev, alts, rest)
  {}

  lemma {:induction false} RestoresIff(fwd: map<string, string>, rev: map<string, string>, alts: seq<string>,
                                       ps: seq<Piece>, advance: bool)
    requires Inverse(fwd, rev, alts)
    requires HitsIn(fwd.Keys, ps) && WellParsed(fwd.Keys, ps, advance)
    ensures ReadBack(rev, alts, Render(fwd, ps)) == Spell(ps) <==> !TokenInGap(rev.Keys, ps)
  {
    if ps == [] {
      NothingToRestore(rev, alts);
    } else {
      TailParsed(fwd.Keys, ps, advance);
      RestoresIff(fwd, rev, alts, ps[1..], ps[0] == Hit(""));
      RenderCons(fwd, ps);
      RestoresOneMore(fwd, rev, alts, ps, Render(fwd, ps[1..]), advance);
    }
  }

  lemma NothingToRestore(rev: map<string, string>, alts: seq<string>)
    requires forall s :: s in rev ==> Bracketed(s)
    requires forall s :: s in alts <==> s in rev
    ensures ReadBack(rev, alts, "") == "" && !TokenInGap(rev.Keys, [])
  {}

  lemma RestoresOneMore(fwd: map<string, string>, rev: map<string, string>, alts: seq<string>,
                        ps: seq<Piece>, rest: string, advance: bool)
    requires Inverse(fwd, rev, alts)
    requires ps != [] && HitsIn(fwd.Keys, ps) && WellParsed(fwd.Keys, ps, advance)
    requires Render(fwd, ps) == Target(fwd, ps[0]) + rest
    requires ReadBack(rev, alts, rest) == Spell(ps[1..]) <==> !TokenInGap(rev.Keys, ps[1..])
    ensures ReadBack(rev, alts, Render(fwd, ps)) == Spell(ps) <==> !TokenInGap(rev.Keys, ps)
  {
    GapTail(rev.Keys, ps);
    SameFront(Source(ps[0]), ReadBack(rev, alts, rest), Spell(ps[1..]));
    if ps[0].Hit? {
      ReadToken(rev, alts, fwd[ps[0].key], rest);
      HitIsNotCopied(rev.Keys, ps);
    } else {
      RestoreCopied(fwd, rev, alts, ps, rest, advance);
    }
  }

  lemma SameFront(front: string, a: string, b: string)
    ensures front + a == front + b <==> a == b
  {
    assert (front + a)[|front|..] == a && (front + b)[|front|..] == b;
  }

  lemma HitIsNotCopied(tokens: set<string>, ps: seq<Piece>)
    requires ps != [] && ps[0].Hit? && (forall s :: s in tokens ==> s != "")
    ensures forall s :: s in tokens ==> !CopiedAt(ps, 0, s)
  {
    forall s | s in tokens
      ensures !CopiedAt(ps, 0, s)
    {
      assert ps[0 + 0] != Literal(s[0]);
    }
  }

  /** A surrogate that was copied is read as a token, and gives an original that
      was not there. */
  lemma TokenIsMisread(fwd: map<string, string>, rev: map<string, string>, alts: seq<string>, ps: seq<Piece>,
                       out: string, advance: bool, s: string)
    requires Inverse(fwd, rev, alts) && HitsIn(fwd.Keys, ps) && WellParsed(fwd.Keys, ps, advance)
    requires out == Render(fwd, ps) && s in rev && CopiedAt(ps, 0, s)
    ensures ReadBack(rev, alts, out) != Spell(ps)
  {
    CopiedRenders(fwd, ps, s);
    assert out == s + out[|s|..];
    ReadToken(rev, alts, s, out[|s|..]);
    CopiedIsNoOriginal(fwd.Keys, ps, advance, s, rev[s]);
  }

  lemma CopiedIsReadOn(fwd: map<string, string>, rev: map<string, string>, alts: seq<string>, ps: seq<Piece>,
                       rest: string, out: string)
    requires Inverse(fwd, rev, alts) && HitsIn(fwd.Keys, ps) && ps != [] && ps[0].Literal?
    requires out == Render(fwd, ps) == [ps[0].c] + rest && forall s :: s in rev ==> !CopiedAt(ps, 0, s)
    ensures ReadBack(rev, alts, out) == [ps[0].c] + ReadBack(rev, alts, rest)
  {
    forall r | r in rev
      ensures !(r <= out)
    {
      assert r[0..] == r;
      if r <= out { TokenWasCopied(fwd, ps, r, 0); }
    }
    ReadCopied(rev, alts, ps[0].c, rest);
  }

  lemma RestoreCopied(fwd: map<string, string>, rev: map<string, string>, alts: seq<string>,
                      ps: seq<Piece>, rest: string, advance: bool)
    requires Inverse(fwd, rev, alts) && HitsIn(fwd.Keys, ps)
    requires ps != [] && ps[0].Literal? && WellParsed(fwd.Keys, ps, advance)
    requires Render(fwd, ps) == [ps[0].c] + rest
    ensures (exists s :: s in rev && CopiedAt(ps, 0, s)) ==>
              ReadBack(rev, alts, [ps[0].c] + rest) != Spell(ps)
    ensures (forall s :: s in rev ==> !CopiedAt(ps, 0, s)) ==>
              ReadBack(rev, alts, [ps[0].c] + rest) == [ps[0].c] + ReadBack(rev, alts, rest)
  {
    if s :| s in rev && CopiedAt(ps, 0, s) {
      TokenIsMisread(fwd, rev, alts, ps, [ps[0].c] + rest, advance, s);
    } else {
      CopiedIsReadOn(fwd, rev, alts, ps, rest, [ps[0].c] + rest);
    }
  }

  /** Where two characters in a row were copied, the text does not continue with
      any original. */
  lemma CopiedIsNoOriginal(keys: set<string>, ps: seq<Piece>, advance: bool, s: string, o: string)
    requires WellParsed(keys, ps, advance) && CopiedAt(ps, 0, s) && 2 <= |s| && o in keys
    ensures !(o <= Spell(ps))
  {
    assert ps[0..] == ps;
    assert ps[0 + 0] == Literal(s[0]) && ps[0 + 1] == Literal(s[1]);
    assert PieceOk(keys, ps, 0, advance);
    assert PieceOk(keys, ps, 1, advance);
  }

  /** What `deanonymize` makes of the text `anonymize` sent out. */
  function ThereAndBack(fwd: OrderedDict<string, string>, text: string): string
    requires fwd.Valid()
  {
    ReverseKeepsAll(fwd);
    Replace(Reverse(fwd), Replace(fwd, text))
  }

  /** With distinct bracketed surrogates the text comes back unchanged exactly
      when no surrogate stood in it outside the originals that were replaced.
      The originals are arbitrary: nested, overlapping, bracketed, even empty. */
  lemma RoundTripIff(fwd: OrderedDict<string, string>, text: string)
    requires fwd.Valid() && Injective(fwd.vals)
    requires forall k :: k in fwd.vals ==> Bracketed(fwd.vals[k])
    ensures ThereAndBack(fwd, text) == text <==>
              !TokenInGap(fwd.vals.Values, Parse(Alternation(fwd.keys), text, false))
  {
    ReverseKeepsAll(fwd);
    var rev := Reverse(fwd);
    var alts := Alternation(rev.keys);
    var ps := ParseOfDict(fwd, text);
    var back := ParseOfDict(rev, Replace(fwd, text));
    InverseMappings(fwd, rev);
    RestoresIff(fwd.vals, rev.vals, alts, ps, false);
  }

  lemma InverseMappings(fwd: OrderedDict<string, string>, rev: OrderedDict<string, string>)
    requires fwd.Valid() && Injective(fwd.vals) && rev == Reverse(fwd)
    requires forall k :: k in fwd.vals ==> Bracketed(fwd.vals[k])
    ensures Inverse(fwd.vals, rev.vals, Alternation(rev.keys))
  {
    ReverseKeepsAll(fwd);
    forall k | k in fwd.vals
      ensures fwd.vals[k] in rev.vals && rev.vals[fwd.vals[k]] == k
    {
      assert fwd.vals[k] in rev.vals.Keys;
    }
  }

  /** The usual case: the input mentions no surrogate at all. */
  lemma RoundTrip(fwd: OrderedDict<string, string>, text: string)
    requires fwd.Valid() && Injective(fwd.vals)
    requires forall k :: k in fwd.vals ==> Bracketed(fwd.vals[k])
    requires forall k :: k in fwd.vals ==> !Occurs(fwd.vals[k], text)
    ensures ThereAndBack(fwd, text) == text
  {
    RoundTripIff(fwd, text);
    var ps := ParseOfDict(fwd, text);
    forall i, s | 0 <= i && s in fwd.vals.Values
      ensures !CopiedAt(ps, i, s)
    {
      if CopiedAt(ps, i, s) { CopiedOccurs(fwd.vals, ps, i, s); }
    }
  }

  lemma CopiedOccurs(vals: map<string, string>, ps: seq<Piece>, i: nat, s: string)
    requires HitsIn(vals.Keys, ps) && CopiedAt(ps, i, s)
    ensures Occurs(s, Spell(ps))
  {
    assert ps == ps[..i] + ps[i..];
    SpellConcat(ps[..i], ps[i..]);
    forall j | 0 <= j < |s|
      ensures ps[i..][0 + j] == Literal(s[j])
    {
      assert ps[i + j] == Literal(s[j]);
    }
    CopiedRenders(vals, ps[i..], s);
    assert s <= Spell(ps)[|Spell(ps[..i])|..];
  }

  // ---- Surrogates of any shape ----

  /** The pieces of the outgoing text as they were put there. */
  function Mirrored(vals: map<string, string>, ps: seq<Piece>): seq<Piece>
    requires HitsIn(vals.Keys, ps)
  {
    if ps == [] then []
    else [match ps[0] case Literal(c) => Literal(c) case Hit(k) => Hit(vals[k])] + Mirrored(vals, ps[1..])
  }

  lemma {:induction false} MirrorRestores(fwd: map<string, string>, rev: map<string, string>, ps: seq<Piece>)
    requires HitsIn(fwd.Keys, ps)
    requires forall k :: k in fwd ==> fwd[k] in rev && rev[fwd[k]] == k
    ensures HitsIn(rev.Keys, Mirrored(fwd, ps))
    ensures Render(rev, Mirrored(fwd, ps)) == Spell(ps)
  {
    if ps == [] {
    } else {
      assert ps[0] in ps;
      MirrorRestores(fwd, rev, ps[1..]);
      RenderCons(rev, Mirrored(fwd, ps));
    }
  }

  /** Distinct surrogates of any shape, such as Faker's, are undone whenever the
      scan of the outgoing text lands exactly on the inserted ones. */
  lemma AnyShapeRoundTrip(fwd: OrderedDict<string, string>, text: string, ps: seq<Piece>)
    requires fwd.Valid() && Injective(fwd.vals) && LeftmostLongest(fwd.vals.Keys, text, ps) && HitsIn(fwd.vals.Keys, ps)
    requires LeftmostLongest(fwd.vals.Values, Replace(fwd, text), Mirrored(fwd.vals, ps))
    ensures ThereAndBack(fwd, text) == text
  {
    ReverseKeepsAll(fwd);
    forall k | k in fwd.vals
      ensures fwd.vals[k] in Reverse(fwd).vals && Reverse(fwd).vals[fwd.vals[k]] == k
    {
      assert fwd.vals[k] in fwd.vals.Values;
      assert fwd.vals[k] in Reverse(fwd).vals.Keys;
    }
    MirrorRestores(fwd.vals, Reverse(fwd).vals, ps);
    ReplaceMeetsSpec(Reverse(fwd), Replace(fwd, text), Mirrored(fwd.vals, ps));
  }
}
