/** The two opaque token shapes a surrogate can have: the digest token
    `[TYPE_1A2B3C4D]` and the collision fallback `[TYPE_0123456789abcdef]`. */
module Tokens {
  import opened Matches
  import opened RoundTrip
  import opened Texts

  /** Cut anywhere inside, this token is what the WAIT pattern looks for. */
  predicate TokenWaits(k: string) {
    && Bracketed(k)
    && forall j :: 0 < j < |k| - 1 ==> SurrogateChar(k[j]) || (j == |k| - 2 && k[j] == '\n')
  }

  const UPPER_HEX := "0123456789ABCDEF"
  const LOWER_HEX := "0123456789abcdef"

  /** A 4-byte and an 8-byte digest, read as numbers. */
  type Digest32 = n: nat | n < 0x1_0000_0000
  type Digest64 = n: nat | n < 0x1_0000_0000_0000_0000

  function Pow16(n: nat): nat {
    if n == 0 then 1 else 16 * Pow16(n - 1)
  }

  /** The last `width` hexadecimal digits of `n`. */
  function Hex(n: nat, width: nat, digits: string): (r: string)
    requires |digits| == 16
    ensures |r| == width
    ensures forall i :: 0 <= i < width ==> r[i] in digits
  {
    if width == 0 then "" else Hex(n / 16, width - 1, digits) + [digits[n % 16]]
  }

  /** `f"[{prefix}_{digest}]"` with `hexdigest().upper()` of 4 bytes. */
  function DigestToken(prefix: string, digest: Digest32): string {
    "[" + prefix + "_" + Hex(digest, 8, UPPER_HEX) + "]"
  }

  /** `f"[{entity_type}_{seed:016x}]"` */
  function FallbackToken(entityType: string, seed: Digest64): string {
    "[" + entityType + "_" + Hex(seed, 16, LOWER_HEX) + "]"
  }

  lemma {:induction false} HexInjective(a: nat, b: nat, width: nat, digits: string)
    requires |digits| == 16 && forall i, j :: 0 <= i < j < 16 ==> digits[i] != digits[j]
    requires a < Pow16(width) && b < Pow16(width)
    requires Hex(a, width, digits) == Hex(b, width, digits)
    ensures a == b
  {
    if width == 0 {
    } else {
      var x, y := Hex(a / 16, width - 1, digits), Hex(b / 16, width - 1, digits);
      assert (x + [digits[a % 16]])[width - 1] == (y + [digits[b % 16]])[width - 1];
      assert x == (x + [digits[a % 16]])[..width - 1] == (y + [digits[b % 16]])[..width - 1] == y;
      HexInjective(a / 16, b / 16, width - 1, digits);
    }
  }

  /** The number that a string of digits denotes. */
  function Read(s: string, digits: string): nat {
    if s == "" then 0 else 16 * Read(s[..|s| - 1], digits) + DigitAt(s[|s| - 1], digits)
  }

  function DigitAt(c: char, digits: string): nat {
    if digits == "" || digits[0] == c then 0 else 1 + DigitAt(c, digits[1..])
  }

  lemma {:induction false} DigitAtIs(digits: string, d: nat)
    requires d < |digits| && forall i, j :: 0 <= i < j < |digits| ==> digits[i] != digits[j]
    ensures DigitAt(digits[d], digits) == d
  {
    if d == 0 {
    } else {
      DigitAtIs(digits[1..], d - 1);
    }
  }

  /** Reading the digits gives the number back. */
  lemma {:induction false} HexReadsBack(n: nat, width: nat, digits: string)
    requires |digits| == 16 && (forall i, j :: 0 <= i < j < 16 ==> digits[i] != digits[j]) && n < Pow16(width)
    ensures Read(Hex(n, width, digits), digits) == n
  {
    if width == 0 {
    } else {
      HexReadsBack(n / 16, width - 1, digits);
      DigitAtIs(digits, n % 16);
      var h := Hex(n / 16, width - 1, digits);
      assert (h + [digits[n % 16]])[..width - 1] == h;
    }
  }

  lemma UpperHexIsSurrogate(c: char)
    requires c in UPPER_HEX
    ensures SurrogateChar(c)
  {}

  lemma LowerHexIs(c: char)
    requires c in LOWER_HEX
    ensures c != '[' && c != ']' && c != '_' && c != '\n'
    ensures SurrogateChar(c) <==> '0' <= c <= '9'
  {}

  /** A digest token has the bracketed shape and, cut anywhere, makes the
      streaming handler wait. */
  lemma DigestTokenWaits(prefix: string, digest: Digest32)
    requires TokenPrefix(prefix)
    ensures TokenWaits(DigestToken(prefix, digest))
  {
    var s, h := DigestToken(prefix, digest), Hex(digest, 8, UPPER_HEX);
    forall i | 0 < i < |s| - 1
      ensures SurrogateChar(s[i])
    {
      if |prefix| + 1 < i {
        assert s[i] == h[i - |prefix| - 2];
        UpperHexIsSurrogate(s[i]);
      }
    }
  }

  lemma FallbackChar(entityType: string, seed: Digest64, i: nat)
    requires TokenPrefix(entityType) && 0 < i < |entityType| + 18
    ensures var c := FallbackToken(entityType, seed)[i];
            && c != '[' && c != ']' && c != '\n'
            && (i < |entityType| + 2 ==> SurrogateChar(c))
            && (|entityType| + 2 <= i ==>
                  c == Hex(seed, 16, LOWER_HEX)[i - |entityType| - 2] && (SurrogateChar(c) <==> '0' <= c <= '9'))
  {}

  lemma FallbackBracketed(entityType: string, seed: Digest64)
    requires TokenPrefix(entityType)
    ensures Bracketed(FallbackToken(entityType, seed))
  {}

  /** A fallback token has the bracketed shape, but makes the handler wait only
      when its sixteen digits happen to contain no letter. */
  lemma FallbackTokenWaitsIff(entityType: string, seed: Digest64)
    requires TokenPrefix(entityType)
    ensures Bracketed(FallbackToken(entityType, seed))
    ensures TokenWaits(FallbackToken(entityType, seed)) <==>
              forall i :: 0 <= i < 16 ==> '0' <= Hex(seed, 16, LOWER_HEX)[i] <= '9'
  {
    var s, h, n := FallbackToken(entityType, seed), Hex(seed, 16, LOWER_HEX), |entityType| + 2;
    FallbackBracketed(entityType, seed);
    if TokenWaits(s) {
      forall i | 0 <= i < 16
        ensures '0' <= h[i] <= '9'
      {
        FallbackChar(entityType, seed, n + i);
      }
    }
    if forall i :: 0 <= i < 16 ==> '0' <= h[i] <= '9' {
      forall j | 0 < j < |s| - 1
        ensures SurrogateChar(s[j])
      {
        FallbackChar(entityType, seed, j);
      }
    }
  }

  /** The tenth character from the end tells the two shapes apart. */
  lemma ShapesDiffer(prefix: string, digest: Digest32, entityType: string, seed: Digest64)
    ensures DigestToken(prefix, digest) != FallbackToken(entityType, seed)
  {
    var s, t := DigestToken(prefix, digest), FallbackToken(entityType, seed);
    var h := Hex(seed, 16, LOWER_HEX);
    assert s[|s| - 10] == '_';
    assert t[|t| - 10] == h[7];
    LowerHexIs(h[7]);
  }

  /** A digest token tells its type, and its last eight digits the digest. */
  lemma DigestParts(prefix: string, d: Digest32)
    ensures var s := DigestToken(prefix, d);
            && |s| == |prefix| + 11 && s[0] == '[' && s[1..1 + |prefix|] == prefix && s[|s| - 10] == '_'
            && Read(s[|s| - 9..|s| - 1], UPPER_HEX) == d && s[|s| - 1] == ']'
  {
    DigestShape(prefix, d, Hex(d, 8, UPPER_HEX));
    DigestReadsBack(d);
  }

  lemma DigestShape(prefix: string, d: Digest32, h: string)
    requires h == Hex(d, 8, UPPER_HEX)
    ensures var s := DigestToken(prefix, d);
            && |s| == |prefix| + 11 && s[0] == '[' && s[1..1 + |prefix|] == prefix && s[|s| - 10] == '_'
            && s[|s| - 9..|s| - 1] == h && s[|s| - 1] == ']'
  {}

  lemma DigestReadsBack(d: Digest32)
    ensures Read(Hex(d, 8, UPPER_HEX), UPPER_HEX) == d
  {
    assert Pow16(4) == 0x1_0000;
    assert Pow16(8) == 0x1_0000_0000;
    HexReadsBack(d, 8, UPPER_HEX);
  }

  lemma FallbackParts(e: string, a: Digest64)
    ensures var s := FallbackToken(e, a);
            |s| == |e| + 19 && e == s[1..1 + |e|] && Hex(a, 16, LOWER_HEX) == s[|e| + 2..|e| + 18]
  {}

  /** Two fallback tokens agree only for the same type and the same 64-bit seed. */
  lemma FallbackInjective(e: string, a: Digest64, f: string, b: Digest64)
    requires FallbackToken(e, a) == FallbackToken(f, b)
    ensures e == f && a == b
  {
    FallbackParts(e, a);
    FallbackParts(f, b);
    Pow16Of16();
    HexInjective(a, b, 16, LOWER_HEX);
  }

  lemma Pow16Of16()
    ensures Pow16(16) == 0x1_0000_0000_0000_0000
  {
    assert Pow16(4) == 0x1_0000;
    assert Pow16(8) == 0x1_0000_0000;
    assert Pow16(12) == 0x1_0000_0000_0000;
  }
}
