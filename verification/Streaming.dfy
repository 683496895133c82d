/** Deanonymizing a reply that arrives in chunks.

    Every streamed call sees the text accumulated so far and must answer with
    something the next answer extends.  The handler defers (WAIT) when the text
    trails off inside what may be a surrogate.  This module says when that is
    enough. */
module Streaming {
  import opened OrderedDicts
  import opened Replacer
  import opened RoundTrip
  import opened Texts
  import opened Tokens

  /** `\[[A-Z0-9_]*$` matches from position `i`: an opening bracket, then only
      surrogate characters.  `$` also matches before one final newline. */
  predicate OpenAt(text: string, i: nat)
    requires i < |text|
  {
    && text[i] == '['
    && forall j :: i < j < |text| ==> SurrogateChar(text[j]) || (j == |text| - 1 && text[j] == '\n')
  }

  /** `_has_partial_surrogate_suffix` */
  predicate HasPartialSuffix(text: string) {
    exists i :: 0 <= i < |text| && OpenAt(text, i)
  }

  /** The text stops inside a token that the pattern looks for. */
  ghost predicate EndsInToken(text: string) {
    exists i, k :: 0 <= i < |text| && TokenWaits(k) && text[i..] < k
  }

  lemma OpenBeginsToken(text: string, i: nat) returns (k: string)
    requires i < |text| && OpenAt(text, i)
    ensures TokenWaits(k) && text[i..] < k
  {
    k := text[i..] + "]";
    forall j | 0 < j < |k| - 1
      ensures k[j] == text[i + j]
    {}
  }

  /** The handler waits exactly when what arrived could be the beginning of such a
      token: whatever follows, nothing else is held back. */
  lemma WaitsIff(text: string)
    ensures HasPartialSuffix(text) <==> EndsInToken(text)
  {
    if HasPartialSuffix(text) {
      var i :| 0 <= i < |text| && OpenAt(text, i);
      var k := OpenBeginsToken(text, i);
    }
    if EndsInToken(text) {
      var i, k :| 0 <= i < |text| && TokenWaits(k) && text[i..] < k;
      CutTokenIsOpen(text, i, k);
    }
  }

  lemma CutTokenIsOpen(text: string, i: nat, k: string)
    requires i < |text| && TokenWaits(k) && text[i..] < k
    ensures OpenAt(text, i)
  {
    assert forall j :: i <= j < |text| ==> text[j] == text[i..][j - i] == k[j - i];
  }

  /** A token that begins inside `a` ends inside `a`. */
  ghost predicate NoStraddle(alts: seq<string>, a: string, b: string) {
    forall i, k :: 0 <= i < |a| && k in alts && k <= (a + b)[i..] ==> i + |k| <= |a|
  }

  lemma WaitingAvoidsStraddle(alts: seq<string>, a: string, b: string)
    requires forall k :: k in alts ==> TokenWaits(k)
    requires !HasPartialSuffix(a)
    ensures NoStraddle(alts, a, b)
  {
    forall i, k | 0 <= i < |a| && k in alts && k <= (a + b)[i..]
      ensures i + |k| <= |a|
    {
      assert forall j :: 0 <= j < |k| && i + j < |a| ==> k[j] == (a + b)[i..][j] == a[i + j];
      assert !OpenAt(a, i);
      if |a| < i + |k| {
        forall j | i < j < |a|
          ensures SurrogateChar(a[j]) || (j == |a| - 1 && a[j] == '\n')
        {
          assert a[i + (j - i)] == k[j - i];
        }
      }
    }
  }

  lemma {:induction false} FirstMatchInChunk(alts: seq<string>, a: string, b: string)
    requires forall k :: k in alts && k <= a + b ==> |k| <= |a|
    ensures FirstMatch(alts, a + b) == FirstMatch(alts, a)
  {
    if alts == [] {
    } else {
      assert alts[0] in alts;
      assert alts[0] <= a + b <==> alts[0] <= a by {
        if |alts[0]| <= |a| { assert (a + b)[..|alts[0]|] == a[..|alts[0]|]; }
      }
      FirstMatchInChunk(alts[1..], a, b);
    }
  }

  lemma NoStraddleTail(alts: seq<string>, a: string, b: string, n: nat)
    requires NoStraddle(alts, a, b) && n <= |a|
    ensures NoStraddle(alts, a[n..], b)
    ensures (a + b)[n..] == a[n..] + b
  {
    assert (a + b)[n..] == a[n..] + b;
    forall i, k | 0 <= i < |a[n..]| && k in alts && k <= (a[n..] + b)[i..]
      ensures i + |k| <= |a[n..]|
    {
      assert (a[n..] + b)[i..] == (a + b)[n + i..];
    }
  }

  lemma NoneAtEnd(alts: seq<string>)
    requires "" !in alts
    ensures Parse(alts, "", false) == []
  {}

  function HeadPiece(alts: seq<string>, text: string): Piece
    requires text != ""
  {
    var m := FirstMatch(alts, text);
    if m.Some? then Hit(m.value) else Literal(text[0])
  }

  /** One step of a scan for non-empty keys. */
  lemma ScanStep(alts: seq<string>, text: string)
    requires "" !in alts && text != ""
    ensures 0 < |Source(HeadPiece(alts, text))| <= |text|
    ensures Parse(alts, text, false)
         == [HeadPiece(alts, text)] + Parse(alts, text[|Source(HeadPiece(alts, text))|..], false)
  {}

  lemma SameHeadPiece(alts: seq<string>, a: string, b: string)
    requires NoStraddle(alts, a, b) && a != ""
    ensures HeadPiece(alts, a + b) == HeadPiece(alts, a)
  {
    assert (a + b)[0..] == a + b;
    FirstMatchInChunk(alts, a, b);
  }

  /** Scanning two chunks one after the other is scanning them together. */
  lemma {:induction false} ParseChunks(alts: seq<string>, a: string, b: string)
    requires "" !in alts && NoStraddle(alts, a, b)
    ensures Parse(alts, a + b, false) == Parse(alts, a, false) + Parse(alts, b, false)
    decreases |a|
  {
    if a == "" {
      assert a + b == b;
      NoneAtEnd(alts);
    } else {
      ScanStep(alts, a);
      ScanStep(alts, a + b);
      SameHeadPiece(alts, a, b);
      var n := |Source(HeadPiece(alts, a))|;
      NoStraddleTail(alts, a, b, n);
      ParseChunks(alts, a[n..], b);
      Regroup(HeadPiece(alts, a), Parse(alts, a[n..], false), Parse(alts, b, false));
    }
  }

  lemma Regroup(p: Piece, x: seq<Piece>, y: seq<Piece>)
    ensures [p] + (x + y) == ([p] + x) + y
  {}

  /** The chunk law: where the handler does not wait, what follows cannot change
      what has been substituted already. */
  lemma ChunkHomomorphism(d: OrderedDict<string, string>, a: string, b: string)
    requires d.Valid() && forall k :: k in d.vals ==> TokenWaits(k)
    requires !HasPartialSuffix(a)
    ensures Replace(d, a + b) == Replace(d, a) + Replace(d, b)
  {
    var alts := Alternation(d.keys);
    forall k | k in alts
      ensures TokenWaits(k)
    {
      assert k in d.keys;
    }
    var ps := ParseOfDict(d, a);
    var qs := ParseOfDict(d, b);
    var both := ParseOfDict(d, a + b);
    WaitingAvoidsStraddle(alts, a, b);
    ParseChunks(alts, a, b);
    RenderConcat(d.vals, ps, qs);
  }

  ghost predicate ChunkSafe(d: OrderedDict<string, string>)
    requires d.Valid()
  {
    forall a, b :: !HasPartialSuffix(a) ==> Replace(d, a + b) == Replace(d, a) + Replace(d, b)
  }

  lemma {:induction false} NothingMatches(d: OrderedDict<string, string>, alts: seq<string>, text: string)
    requires d.Valid() && forall k :: k in alts ==> k in d.vals
    requires forall i, k :: 0 <= i <= |text| && k in alts ==> !(k <= text[i..])
    ensures HitsIn(d.vals.Keys, Parse(alts, text, false))
    ensures Render(d.vals, Parse(alts, text, false)) == text
  {
    ParseHits(alts, text, false);
    var m := FirstMatch(alts, text);
    assert text[0..] == text;
    if text == "" {
    } else {
      forall i, k | 0 <= i <= |text[1..]| && k in alts
        ensures !(k <= text[1..][i..])
      {
        assert text[1..][i..] == text[i + 1..];
      }
      NothingMatches(d, alts, text[1..]);
      RenderCons(d.vals, Parse(alts, text, false));
      assert Parse(alts, text, false)[1..] == Parse(alts, text[1..], false);
    }
  }

  lemma BringsBrackets(k: string, text: string, i: nat)
    requires Bracketed(k) && i <= |text| && k <= text[i..]
    ensures '[' in text && ']' in text
  {}

  /** Text without a closing bracket, or without an opening one, holds no token. */
  lemma NoTokenNoChange(d: OrderedDict<string, string>, text: string)
    requires d.Valid() && forall k :: k in d.vals ==> Bracketed(k)
    requires '[' !in text || ']' !in text
    ensures Replace(d, text) == text
  {
    var alts := Alternation(d.keys);
    forall i, k | 0 <= i <= |text| && k in alts
      ensures !(k <= text[i..])
    {
      assert k in d.keys;
      if k <= text[i..] { BringsBrackets(k, text, i); }
    }
    var ps := ParseOfDict(d, text);
    NothingMatches(d, alts, text);
  }

  lemma TokenAlone(d: OrderedDict<string, string>, k: string)
    requires d.Valid() && (forall k :: k in d.vals ==> Bracketed(k))
    requires k in d.vals
    ensures Replace(d, k) == d.vals[k]
  {
    var ps := [Hit(k)];
    assert ps[0..] == ps && ps[1..] == [];
    assert Longest(d.vals.Keys, k, k);
    assert PieceOk(d.vals.Keys, ps, 0, false);
    ReplaceMeetsSpec(d, k, ps);
  }

  lemma ChunkLawFails(d: OrderedDict<string, string>, k: string)
    requires d.Valid() && forall k :: k in d.vals ==> Bracketed(k) && d.vals[k] != k
    requires k in d.vals && !TokenWaits(k)
    ensures !ChunkSafe(d)
  {
    var a := k[..|k| - 1];
    assert a + "]" == k;
    CutTokenIsSent(d, k);
    NoTokenNoChange(d, "]");
    NotHomomorphic(d, a, "]", k);
  }

  lemma NotHomomorphic(d: OrderedDict<string, string>, a: string, b: string, both: string)
    requires d.Valid() && both == a + b && !HasPartialSuffix(a)
    requires Replace(d, both) != Replace(d, a) + Replace(d, b)
    ensures !ChunkSafe(d)
  {}

  /** For bracketed tokens that stand for something else, the chunk law holds
      exactly when every one of them is built from the characters the WAIT
      pattern knows. */
  lemma ChunkSafeIff(d: OrderedDict<string, string>)
    requires d.Valid() && forall k :: k in d.vals ==> Bracketed(k) && d.vals[k] != k
    ensures ChunkSafe(d) <==> forall k :: k in d.vals ==> TokenWaits(k)
  {
    if forall k :: k in d.vals ==> TokenWaits(k) {
      forall a, b | !HasPartialSuffix(a)
        ensures Replace(d, a + b) == Replace(d, a) + Replace(d, b)
      {
        ChunkHomomorphism(d, a, b);
      }
    } else {
      var k :| k in d.vals && !TokenWaits(k);
      ChunkLawFails(d, k);
    }
  }

  /** A bracketed token with a foreign character, cut before its last one,
      escapes the WAIT pattern. */
  lemma CutTokenIsNotSeen(k: string)
    requires Bracketed(k) && !TokenWaits(k)
    ensures !HasPartialSuffix(k[..|k| - 1])
  {}

  /** It is sent as it stands, and replaced when it is complete. */
  lemma CutTokenIsSent(d: OrderedDict<string, string>, k: string)
    requires d.Valid() && (forall k :: k in d.vals ==> Bracketed(k))
    requires k in d.vals && !TokenWaits(k)
    ensures !HasPartialSuffix(k[..|k| - 1])
    ensures Replace(d, k[..|k| - 1]) == k[..|k| - 1] && Replace(d, k) == d.vals[k]
  {
    CutTokenIsNotSeen(k);
    assert ']' !in k[..|k| - 1];
    NoTokenNoChange(d, k[..|k| - 1]);
    TokenAlone(d, k);
  }

  /** What was sent is a prefix of everything that can be sent later. */
  lemma SentIsPrefix(d: OrderedDict<string, string>, sofar: string, full: string)
    requires d.Valid() && forall k :: k in d.vals ==> TokenWaits(k)
    requires !HasPartialSuffix(sofar) && sofar <= full
    ensures Replace(d, sofar) <= Replace(d, full)
  {
    assert full == sofar + full[|sofar|..];
    ChunkHomomorphism(d, sofar, full[|sofar|..]);
  }

  /** No key begins like what replaces it. */
  ghost predicate BeginDifferently(vals: map<string, string>) {
    forall k :: k in vals ==> k != "" && vals[k] != "" && vals[k][0] != k[0]
  }

  ghost predicate SentSafe(d: OrderedDict<string, string>)
    requires d.Valid()
  {
    forall a, full :: !HasPartialSuffix(a) && a <= full ==> Replace(d, a) <= Replace(d, full)
  }

  /** What the client sees of the chunk law: where the handler does not wait,
      nothing sent is ever taken back exactly when the WAIT pattern knows every
      token. */
  lemma SentSafeIff(d: OrderedDict<string, string>)
    requires d.Valid() && BeginDifferently(d.vals) && forall k :: k in d.vals ==> Bracketed(k)
    ensures SentSafe(d) <==> forall k :: k in d.vals ==> TokenWaits(k)
  {
    if forall k :: k in d.vals ==> TokenWaits(k) {
      forall a, full | !HasPartialSuffix(a) && a <= full
        ensures Replace(d, a) <= Replace(d, full)
      {
        SentIsPrefix(d, a, full);
      }
    } else {
      var k :| k in d.vals && !TokenWaits(k);
      CutTokenIsSent(d, k);
      CutIsTakenBack(k, d.vals[k]);
    }
  }

  lemma CutIsTakenBack(k: string, v: string)
    requires Bracketed(k) && v != "" && v[0] != k[0]
    ensures k[..|k| - 1] <= k && !(k[..|k| - 1] <= v)
  {
    assert k[..|k| - 1][0] == k[0];
  }

  // ---- When a replacement is taken back ----

  ghost predicate OnlyLiterals(ps: seq<Piece>) {
    forall i :: 0 <= i < |ps| ==> ps[i].Literal?
  }

  /** The first replacement is where the result leaves the text. */
  lemma {:induction false} StaysPrefixIff(vals: map<string, string>, ps: seq<Piece>, full: string)
    requires HitsIn(vals.Keys, ps) && BeginDifferently(vals) && Spell(ps) <= full
    ensures Render(vals, ps) <= full <==> OnlyLiterals(ps)
  {
    if ps == [] {
    } else {
      var rest := ps[1..];
      RenderCons(vals, ps);
      assert ps[0] in ps;
      if ps[0].Literal? {
        assert full[0] == ps[0].c && Spell(rest) <= full[1..];
        StaysPrefixIff(vals, rest, full[1..]);
        assert Render(vals, ps) == [ps[0].c] + Render(vals, rest);
        assert Render(vals, ps) <= full <==> Render(vals, rest) <= full[1..] by {
          PrefixOfTail(ps[0].c, Render(vals, rest), full);
        }
        assert forall i :: 0 <= i < |rest| ==> rest[i] == ps[i + 1];
        assert OnlyLiterals(ps) <==> OnlyLiterals(rest);
      } else {
        assert full[0] == ps[0].key[0] && Render(vals, ps)[0] == vals[ps[0].key][0];
      }
    }
  }

  lemma PrefixOfTail(c: char, tail: string, full: string)
    requires full != "" && full[0] == c
    ensures [c] + tail <= full <==> tail <= full[1..]
  {
    assert full == [c] + full[1..];
    if tail <= full[1..] { assert full[1..] == tail + full[1..][|tail|..]; }
    if [c] + tail <= full { assert full[1..][..|tail|] == ([c] + tail)[1..]; }
  }

  /** Nothing is replaced exactly when no key occurs. */
  lemma OnlyLiteralsIff(keys: set<string>, text: string, ps: seq<Piece>)
    requires LeftmostLongest(keys, text, ps) && "" !in keys
    ensures OnlyLiterals(ps) <==> forall k :: k in keys ==> !Occurs(k, text)
  {
    if OnlyLiterals(ps) {
      assert ps[0..|ps|] == ps;
      forall k, at | k in keys && 0 <= at <= |text|
        ensures !(k <= text[at..])
      {
        GapsAreClean(keys, text, ps, 0, |ps|, k, at);
      }
    } else {
      var i :| 0 <= i < |ps| && ps[i].Hit?;
      HitOccurs(keys, text, ps, i);
    }
  }

  lemma HitOccurs(keys: set<string>, text: string, ps: seq<Piece>, i: nat)
    requires LeftmostLongest(keys, text, ps) && i < |ps| && ps[i].Hit?
    ensures ps[i].key in keys && Occurs(ps[i].key, text)
  {
    assert PieceOk(keys, ps, i, false);
    assert ps == ps[..i] + ps[i..];
    SpellConcat(ps[..i], ps[i..]);
    assert text[|Spell(ps[..i])|..] == Spell(ps[i..]);
  }

  /** If the text sent out later is no longer restored, what was restored before
      is taken back exactly when there was something to restore. */
  lemma TakenBackIff(d: OrderedDict<string, string>, sofar: string, full: string)
    requires d.Valid() && BeginDifferently(d.vals) && sofar <= full
    ensures Replace(d, sofar) <= full <==> forall k :: k in d.vals ==> !Occurs(k, sofar)
  {
    var ps := ParseOfDict(d, sofar);
    StaysPrefixIff(d.vals, ps, full);
    OnlyLiteralsIff(d.vals.Keys, sofar, ps);
  }
}
