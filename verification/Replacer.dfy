/** The single-pass substitution of `_build_replacer`.

    The alternation pattern is the list of keys, longest first.  A scan over
    the text is recorded as a sequence of pieces: a `Hit` where an alternative
    matched, a `Literal` where none did and one character was copied. */
module Replacer {
  import opened OrderedDicts
  import opened Sorting
  import opened Wrappers

  datatype Piece = Literal(c: char) | Hit(key: string)

  /** `sorted(keys, key=len, reverse=True)`; Python keeps ties in dict order. */
  function Alternation(keys: seq<string>): seq<string> {
    Sort((a: string, b: string) => |a| >= |b|, keys)
  }

  /** The alternative the regex engine takes at the head of `text`: the first
      in list order that matches there. */
  function FirstMatch(alts: seq<string>, text: string): (r: Option<string>)
    ensures r.None? <==> forall a :: a in alts ==> !(a <= text)
    ensures r.Some? ==> r.value in alts && r.value <= text
  {
    if alts == [] then None
    else if alts[0] <= text then
      assert alts[0] in alts;
      Some(alts[0])
    else
      assert forall a :: a in alts <==> a == alts[0] || a in alts[1..];
      FirstMatch(alts[1..], text)
  }

  /** `pattern.sub`, as the pieces it sees.  An empty alternative (an empty key)
      matches wherever no other one does: once before every copied character
      and once at the end.  `advance` is the engine's rule that the match after
      an empty one must not be empty as well. */
  function Parse(alts: seq<string>, text: string, advance: bool): seq<Piece>
    decreases |text|, !advance
  {
    var m := FirstMatch(alts, text);
    if m.Some? && m.value != "" then
      [Hit(m.value)] + Parse(alts, text[|m.value|..], false)
    else if m.Some? && !advance then
      [Hit("")] + Parse(alts, text, true)
    else if text == "" then
      []
    else
      [Literal(text[0])] + Parse(alts, text[1..], false)
  }

  function Source(p: Piece): string {
    match p case Literal(c) => [c] case Hit(k) => k
  }

  /** The text the pieces were read from. */
  function Spell(ps: seq<Piece>): string {
    if ps == [] then "" else Source(ps[0]) + Spell(ps[1..])
  }

  ghost function KeySet(alts: seq<string>): set<string> { set a | a in alts }

  ghost predicate HitsIn(keys: set<string>, ps: seq<Piece>) {
    forall p :: p in ps && p.Hit? ==> p.key in keys
  }

  function Target(vals: map<string, string>, p: Piece): string
    requires p.Hit? ==> p.key in vals
  {
    match p case Literal(c) => [c] case Hit(k) => vals[k]
  }

  /** The text the substitution writes for the pieces. */
  function Render(vals: map<string, string>, ps: seq<Piece>): string
    requires HitsIn(vals.Keys, ps)
  {
    if ps == [] then "" else Target(vals, ps[0]) + Render(vals, ps[1..])
  }

  /** The closure `_build_replacer(mapping)` returns, applied to `text`. */
  function Replace(mapping: OrderedDict<string, string>, text: string): string
    requires mapping.Valid()
  {
    if mapping.keys == [] then text
    else
      var alts := Alternation(mapping.keys);
      ParseHits(alts, text, false);
      Render(mapping.vals, Parse(alts, text, false))
  }

  // ---- What a parse must be, without saying how it is found ----

  /** `k` matches at the head of `text` and no key that matches is longer. */
  ghost predicate Longest(keys: set<string>, text: string, k: string) {
    && k in keys && k <= text
    && forall o :: o in keys && o <= text ==> |o| <= |k|
  }

  /** Was the match before piece `i` the empty one? */
  predicate AfterEmpty(ps: seq<Piece>, i: nat, advance: bool)
    requires i <= |ps|
  {
    if i == 0 then advance else ps[i - 1] == Hit("")
  }

  ghost predicate PieceOk(keys: set<string>, ps: seq<Piece>, i: nat, advance: bool)
    requires i < |ps|
  {
    match ps[i]
    case Hit(k) =>
      && Longest(keys, Spell(ps[i..]), k)
      && (k == "" ==> !AfterEmpty(ps, i, advance))
    case Literal(_) =>
      && (forall k :: k in keys && k <= Spell(ps[i..]) ==> k == "")
      && ("" in keys ==> AfterEmpty(ps, i, advance))
  }

  ghost predicate WellParsed(keys: set<string>, ps: seq<Piece>, advance: bool) {
    && (forall i :: 0 <= i < |ps| ==> PieceOk(keys, ps, i, advance))
    && ("" in keys ==> AfterEmpty(ps, |ps|, advance))
  }

  /** `ps` reads `text` left to right, taking the longest key wherever one
      matches and copying a character only where none does. */
  ghost predicate LeftmostLongest(keys: set<string>, text: string, ps: seq<Piece>) {
    Spell(ps) == text && WellParsed(keys, ps, false)
  }

  // ---- Basic facts ----

  lemma {:induction false} ParseHits(alts: seq<string>, text: string, advance: bool)
    ensures HitsIn(KeySet(alts), Parse(alts, text, advance))
    decreases |text|, !advance
  {
    var m := FirstMatch(alts, text);
    if m.Some? && m.value != "" {
      ParseHits(alts, text[|m.value|..], false);
    } else if m.Some? && !advance {
      ParseHits(alts, text, true);
    } else if text != "" {
      ParseHits(alts, text[1..], false);
    }
  }

  lemma {:induction false} SpellConcat(a: seq<Piece>, b: seq<Piece>)
    ensures Spell(a + b) == Spell(a) + Spell(b)
  {
    if a == [] {
      assert a + b == b;
    } else {
      assert (a + b)[1..] == a[1..] + b;
      SpellConcat(a[1..], b);
    }
  }

  lemma {:induction false} RenderConcat(vals: map<string, string>, a: seq<Piece>, b: seq<Piece>)
    requires HitsIn(vals.Keys, a) && HitsIn(vals.Keys, b)
    ensures HitsIn(vals.Keys, a + b)
    ensures Render(vals, a + b) == Render(vals, a) + Render(vals, b)
  {
    if a == [] {
      assert a + b == b;
    } else {
      assert (a + b)[1..] == a[1..] + b;
      RenderConcat(vals, a[1..], b);
    }
  }

  lemma RenderCons(vals: map<string, string>, ps: seq<Piece>)
    requires HitsIn(vals.Keys, ps) && ps != []
    ensures HitsIn(vals.Keys, ps[1..])
    ensures Render(vals, ps) == Target(vals, ps[0]) + Render(vals, ps[1..])
  {}

  lemma AlternationOrdered(keys: seq<string>)
    ensures Ordered((a: string, b: string) => |a| >= |b|, Alternation(keys))
    ensures KeySet(Alternation(keys)) == KeySet(keys)
  {
    SortOrdered((a: string, b: string) => |a| >= |b|, keys);
  }

  /** Longest first in the list means the first match is the longest. */
  lemma {:induction false} FirstIsLongest(alts: seq<string>, text: string)
    requires Ordered((a: string, b: string) => |a| >= |b|, alts)
    requires FirstMatch(alts, text).Some?
    ensures Longest(KeySet(alts), text, FirstMatch(alts, text).value)
  {
    if !(alts[0] <= text) {
      FirstIsLongest(alts[1..], text);
      assert forall a :: a in alts ==> a == alts[0] || a in alts[1..];
    }
  }

  /** What holds of a parse holds of its tail, and back. */
  lemma TailParsed(keys: set<string>, ps: seq<Piece>, advance: bool)
    requires ps != []
    ensures WellParsed(keys, ps, advance) <==>
            PieceOk(keys, ps, 0, advance) && WellParsed(keys, ps[1..], ps[0] == Hit(""))
  {
    var tail, next := ps[1..], ps[0] == Hit("");
    forall i | 0 <= i < |tail|
      ensures PieceOk(keys, tail, i, next) <==> PieceOk(keys, ps, i + 1, advance)
    {
      assert tail[i..] == ps[i + 1..];
      assert AfterEmpty(tail, i, next) == AfterEmpty(ps, i + 1, advance);
    }
    assert AfterEmpty(tail, |tail|, next) == AfterEmpty(ps, |ps|, advance);
    if PieceOk(keys, ps, 0, advance) && WellParsed(keys, tail, next) {
      forall i | 0 <= i < |ps|
        ensures PieceOk(keys, ps, i, advance)
      {
        if 0 < i { assert PieceOk(keys, tail, i - 1, next); }
      }
    } else if WellParsed(keys, ps, advance) {
      forall i | 0 <= i < |tail|
        ensures PieceOk(keys, tail, i, next)
      {
        assert PieceOk(keys, ps, i + 1, advance);
      }
    }
  }

  /** The scan is a leftmost-longest parse. */
  lemma {:induction false} ParseIsLeftmostLongest(alts: seq<string>, text: string, advance: bool)
    requires Ordered((a: string, b: string) => |a| >= |b|, alts)
    ensures Spell(Parse(alts, text, advance)) == text
    ensures WellParsed(KeySet(alts), Parse(alts, text, advance), advance)
    decreases |text|, !advance
  {
    var m := FirstMatch(alts, text);
    if m.Some? { FirstIsLongest(alts, text); }
    if m.Some? && m.value != "" {
      var rest := text[|m.value|..];
      ParseIsLeftmostLongest(alts, rest, false);
      ParsedStep(KeySet(alts), Hit(m.value), Parse(alts, rest, false), text, rest, advance);
    } else if m.Some? && !advance {
      ParseIsLeftmostLongest(alts, text, true);
      ParsedStep(KeySet(alts), Hit(""), Parse(alts, text, true), text, text, advance);
    } else if text != "" {
      ParseIsLeftmostLongest(alts, text[1..], false);
      ParsedStep(KeySet(alts), Literal(text[0]), Parse(alts, text[1..], false), text, text[1..], advance);
    }
  }

  /** One step of the scan in front of a parse of what is left. */
  lemma ParsedStep(keys: set<string>, p: Piece, rest: seq<Piece>, text: string, left: string, advance: bool)
    requires WellParsed(keys, rest, p == Hit("")) && Spell(rest) == left
    requires match p
             case Hit(k) => Longest(keys, text, k) && left == text[|k|..] && (k == "" ==> !advance)
             case Literal(c) =>
               && text != "" && c == text[0] && left == text[1..]
               && (forall k :: k in keys && k <= text ==> k == "")
               && ("" in keys ==> advance)
    ensures Spell([p] + rest) == text && WellParsed(keys, [p] + rest, advance)
  {
    var ps := [p] + rest;
    assert ps[1..] == rest && ps[0..] == ps;
    TailParsed(keys, ps, advance);
  }

  /** There is only one such parse. */
  lemma {:induction false} ParsesAgree(keys: set<string>, ps: seq<Piece>, qs: seq<Piece>, advance: bool)
    requires WellParsed(keys, ps, advance) && WellParsed(keys, qs, advance)
    requires Spell(ps) == Spell(qs)
    ensures ps == qs
  {
    if ps != [] && qs != [] {
      TailParsed(keys, ps, advance);
      TailParsed(keys, qs, advance);
      SameHead(keys, ps, qs, advance);
      SpellTail(ps, qs);
      ParsesAgree(keys, ps[1..], qs[1..], ps[0] == Hit(""));
    } else if ps != [] {
      LastPiece(keys, ps, advance);
    } else if qs != [] {
      LastPiece(keys, qs, advance);
    }
  }

  /** Nothing left to read and something left to write: that is one empty match. */
  lemma LastPiece(keys: set<string>, ps: seq<Piece>, advance: bool)
    requires ps != [] && WellParsed(keys, ps, advance) && Spell(ps) == ""
    ensures "" in keys && !advance
  {
    assert ps[0..] == ps;
    assert PieceOk(keys, ps, 0, advance);
  }

  lemma SpellTail(ps: seq<Piece>, qs: seq<Piece>)
    requires ps != [] && qs != [] && ps[0] == qs[0] && Spell(ps) == Spell(qs)
    ensures Spell(ps[1..]) == Spell(qs[1..])
  {
    var n := |Source(ps[0])|;
    assert Spell(ps[1..]) == Spell(ps)[n..] && Spell(qs[1..]) == Spell(qs)[n..];
  }

  lemma SameHead(keys: set<string>, ps: seq<Piece>, qs: seq<Piece>, advance: bool)
    requires ps != [] && qs != [] && Spell(ps) == Spell(qs)
    requires PieceOk(keys, ps, 0, advance) && PieceOk(keys, qs, 0, advance)
    ensures ps[0] == qs[0]
  {
    assert ps[0..] == ps && qs[0..] == qs;
    var text := Spell(ps);
    match (ps[0], qs[0]) {
      case (Hit(k), Hit(o)) => assert |k| == |o| && k == text[..|k|] && o == text[..|o|];
      case (Literal(c), Literal(d)) => assert text[0] == c && text[0] == d;
      case (Hit(k), Literal(_)) =>
      case (Literal(_), Hit(k)) =>
    }
  }

  lemma UniqueParse(keys: set<string>, text: string, ps: seq<Piece>, qs: seq<Piece>)
    requires LeftmostLongest(keys, text, ps) && LeftmostLongest(keys, text, qs)
    ensures ps == qs
  {
    ParsesAgree(keys, ps, qs, false);
  }

  lemma ParseOfDict(mapping: OrderedDict<string, string>, text: string) returns (ps: seq<Piece>)
    requires mapping.Valid()
    ensures LeftmostLongest(mapping.vals.Keys, text, ps) && HitsIn(mapping.vals.Keys, ps)
    ensures Replace(mapping, text) == Render(mapping.vals, ps)
    ensures ps == Parse(Alternation(mapping.keys), text, false)
  {
    var alts := Alternation(mapping.keys);
    AlternationOrdered(mapping.keys);
    assert KeySet(alts) == mapping.vals.Keys;
    ps := Parse(alts, text, false);
    ParseHits(alts, text, false);
    ParseIsLeftmostLongest(alts, text, false);
    if mapping.keys == [] { NoKeysNoChange(mapping.vals, text); }
  }

  lemma {:induction false} NoKeysNoChange(vals: map<string, string>, text: string)
    ensures HitsIn({}, Parse([], text, false)) && Render(vals, Parse([], text, false)) == text
  {
    ParseHits([], text, false);
    if text == "" {
    } else {
      NoKeysNoChange(vals, text[1..]);
    }
  }

  // ---- The main statements ----

  /** The result is what the one leftmost-longest parse of the text renders to.
      Values take no part in the parse, so inserted text is never scanned. */
  lemma ReplaceMeetsSpec(mapping: OrderedDict<string, string>, text: string, ps: seq<Piece>)
    requires mapping.Valid()
    requires LeftmostLongest(mapping.vals.Keys, text, ps)
    ensures HitsIn(mapping.vals.Keys, ps)
    ensures Replace(mapping, text) == Render(mapping.vals, ps)
  {
    var qs := ParseOfDict(mapping, text);
    UniqueParse(mapping.vals.Keys, text, ps, qs);
  }

  /** Neither the order of the dict nor the order among equally long keys
      matters: the map alone decides the result. */
  lemma ReplaceIgnoresOrder(a: OrderedDict<string, string>, b: OrderedDict<string, string>, text: string)
    requires a.Valid() && b.Valid() && a.vals == b.vals
    ensures Replace(a, text) == Replace(b, text)
  {
    var ps := ParseOfDict(a, text);
    ReplaceMeetsSpec(b, text, ps);
  }

  /** Between two hits no key is left behind, not even inside the gap. */
  lemma GapsAreClean(keys: set<string>, text: string, ps: seq<Piece>, i: nat, j: nat, key: string, at: nat)
    requires LeftmostLongest(keys, text, ps)
    requires i <= j <= |ps| && forall n :: i <= n < j ==> ps[n].Literal?
    requires key in keys && key != ""
    requires at <= |Spell(ps[i..j])|
    ensures !(key <= Spell(ps[i..j])[at..])
  {
    LiteralsSpell(ps[i..j]);
    var n := i + at;
    if n < j {
      assert PieceOk(keys, ps, n, false);
      assert ps[i..j] == ps[i..n] + ps[n..j] && ps[n..] == ps[n..j] + ps[j..];
      SpellConcat(ps[i..n], ps[n..j]);
      LiteralsSpell(ps[i..n]);
      SpellConcat(ps[n..j], ps[j..]);
      assert Spell(ps[i..j])[at..] == Spell(ps[n..j]);
      assert Spell(ps[n..j]) <= Spell(ps[n..]);
    }
  }

  lemma {:induction false} LiteralsSpell(ps: seq<Piece>)
    requires forall n :: 0 <= n < |ps| ==> ps[n].Literal?
    ensures |Spell(ps)| == |ps|
    ensures forall n :: 0 <= n < |ps| ==> Spell(ps)[n] == ps[n].c
  {
    if ps == [] {
    } else {
      LiteralsSpell(ps[1..]);
    }
  }
}
