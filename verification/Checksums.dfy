/** The two checksum validators of the regex detector, and the mistakes they
    catch at every length. */
module Checksums {
  import opened Wrappers

  type Digit = n: nat | n < 10

  /** What `isdigit` and `int` say of a character: a decimal digit of some script;
      a figure, such as a superscript, that `isdigit` admits and `int` refuses; or
      neither. */
  datatype Kind = Decimal(value: Digit) | Figure | Neither

  /** The interpreter's character tables. */
  datatype Unicode = Unicode(kind: char -> Kind, upper: char -> string)

  datatype ValueError = ValueError

  predicate IsDigit(u: Unicode, c: char) { u.kind(c).Decimal? }

  function DigitValue(u: Unicode, c: char): Digit
    requires IsDigit(u, c)
  {
    u.kind(c).value
  }

  ghost predicate AllDigits(ds: seq<nat>) {
    forall i :: 0 <= i < |ds| ==> ds[i] < 10
  }

  // ---- Luhn ----

  /** The digits among the characters. */
  function Digits(u: Unicode, s: string): (ds: seq<nat>)
    ensures AllDigits(ds)
  {
    if s == "" then []
    else
      var before, c := Digits(u, s[..|s| - 1]), s[|s| - 1];
      if IsDigit(u, c) then before + [DigitValue(u, c)] else before
  }

  /** A digit as it stands, or the cross sum of its double. */
  function Contribution(d: nat, doubled: bool): nat {
    if doubled then 2 * d / 10 + 2 * d % 10 else d
  }

  /** The sum as ISO/IEC 7812-1, annex B, takes it: from the right, alternating,
      the last digit doubled or not as `doubled` says. */
  function FromRight(ds: seq<nat>, doubled: bool): nat {
    if ds == [] then 0 else FromRight(ds[..|ds| - 1], !doubled) + Contribution(ds[|ds| - 1], doubled)
  }

  predicate LuhnAccepts(ds: seq<nat>) {
    |ds| >= 2 && FromRight(ds, false) % 10 == 0
  }

  lemma Parity(n: nat, i: nat)
    requires i < n
    ensures ((n - i) % 2 == 1) == !((n - i - 1) % 2 == 1)
    ensures (i % 2 == n % 2) == ((n - i - 1) % 2 == 1)
  {}

  lemma FromRightNext(ds: seq<nat>, i: nat)
    requires i < |ds|
    ensures FromRight(ds[..i + 1], (|ds| - i - 1) % 2 == 1)
            == FromRight(ds[..i], (|ds| - i) % 2 == 1) + Contribution(ds[i], i % 2 == |ds| % 2)
  {
    assert ds[..i + 1][..i] == ds[..i];
    Parity(|ds|, i);
  }

  /** A character on which `int` raises. */
  predicate HasFigure(u: Unicode, s: string) {
    exists i :: 0 <= i < |s| && u.kind(s[i]) == Figure
  }

  /** `_luhn`, which works from the left. */
  method Luhn(u: Unicode, s: string) returns (r: Result<bool, ValueError>)
    ensures r == if HasFigure(u, s) then Err(ValueError) else Ok(LuhnAccepts(Digits(u, s)))
  {
    if HasFigure(u, s) { return Err(ValueError); }
    var digits := Digits(u, s);
    if |digits| < 2 { return Ok(false); }
    var checksum := 0;
    var parity := |digits| % 2;
    for i := 0 to |digits|
      invariant checksum == FromRight(digits[..i], (|digits| - i) % 2 == 1)
    {
      var d := digits[i];
      if i % 2 == parity {
        d := d * 2;
        if d > 9 { d := d - 9; }
      }
      checksum := checksum + d;
      ContributionIs(digits[i], i % 2 == parity);
      FromRightNext(digits, i);
    }
    assert digits[..|digits|] == digits;
    return Ok(checksum % 10 == 0);
  }

  lemma ContributionIs(d: nat, doubled: bool)
    requires d < 10
    ensures Contribution(d, doubled) == if !doubled then d else if d < 5 then 2 * d else 2 * d - 9
    ensures Contribution(d, doubled) < 10
  {}

  lemma {:induction false} FromRightSplit(l: seq<nat>, r: seq<nat>, doubled: bool)
    ensures FromRight(l + r, doubled) == FromRight(l, doubled != (|r| % 2 == 1)) + FromRight(r, doubled)
  {
    if r == [] {
      assert l + r == l;
    } else {
      assert (l + r)[..|l + r| - 1] == l + r[..|r| - 1];
      FromRightSplit(l, r[..|r| - 1], !doubled);
    }
  }

  lemma FromRightAround(l: seq<nat>, a: nat, r: seq<nat>)
    ensures var odd := |r| % 2 == 1;
            FromRight(l + [a] + r, false) == FromRight(l, !odd) + Contribution(a, odd) + FromRight(r, false)
  {
    FromRightSplit(l + [a], r, false);
    assert (l + [a])[..|l|] == l;
  }

  lemma FromRightAroundTwo(l: seq<nat>, a: nat, b: nat, r: seq<nat>)
    ensures var odd := |r| % 2 == 1;
            FromRight(l + [a, b] + r, false)
            == FromRight(l, odd) + Contribution(a, !odd) + Contribution(b, odd) + FromRight(r, false)
  {
    FromRightAround(l + [a], b, r);
    assert l + [a] + [b] == l + [a, b];
    assert (l + [a])[..|l|] == l;
  }

  lemma TensApart(p: int, x: int, y: int)
    requires p % 10 == 0
    ensures (p - x + y) % 10 == 0 <==> (y - x) % 10 == 0
  {}

  lemma SwapSums(a: nat, b: nat, odd: bool)
    requires a < 10 && b < 10
    ensures (Contribution(b, !odd) + Contribution(a, odd) - Contribution(a, !odd) - Contribution(b, odd)) % 10 == 0
            <==> a == b || (a == 0 && b == 9) || (a == 9 && b == 0)
  {
    ContributionIs(a, true);
    ContributionIs(b, true);
  }

  lemma NotBothTens(p: nat, q: nat, x: nat, y: nat)
    requires x < 10 && y < 10 && x != y && q - p == y - x && p % 10 == 0
    ensures q % 10 != 0
  {}

  /** Every single mistyped digit is caught. */
  lemma LuhnCatchesChange(l: seq<nat>, a: nat, a': nat, r: seq<nat>)
    requires a < 10 && a' < 10 && a != a' && LuhnAccepts(l + [a] + r)
    ensures !LuhnAccepts(l + [a'] + r)
  {
    FromRightAround(l, a, r);
    FromRightAround(l, a', r);
    var odd := |r| % 2 == 1;
    ContributionIs(a, odd);
    ContributionIs(a', odd);
    NotBothTens(FromRight(l + [a] + r, false), FromRight(l + [a'] + r, false),
                Contribution(a, odd), Contribution(a', odd));
  }

  /** Every exchange of neighbouring unequal digits is caught but 09 for 90. */
  lemma LuhnCatchesSwapIff(l: seq<nat>, a: nat, b: nat, r: seq<nat>)
    requires a < 10 && b < 10 && LuhnAccepts(l + [a, b] + r)
    ensures LuhnAccepts(l + [b, a] + r) <==> a == b || (a == 0 && b == 9) || (a == 9 && b == 0)
  {
    FromRightAroundTwo(l, a, b, r);
    FromRightAroundTwo(l, b, a, r);
    var odd := |r| % 2 == 1;
    SwapSums(a, b, odd);
    TensApart(FromRight(l + [a, b] + r, false), Contribution(a, !odd) + Contribution(b, odd),
              Contribution(b, !odd) + Contribution(a, odd));
  }

  /** Exactly one check digit completes a number. */
  lemma LuhnCheckDigit(ds: seq<nat>, d: nat)
    requires ds != [] && d < 10
    ensures LuhnAccepts(ds + [d]) <==> d == (10 - FromRight(ds, true) % 10) % 10
    ensures !LuhnAccepts([]) && !LuhnAccepts([d])
  {}

  lemma {:induction false} DigitsSplit(u: Unicode, l: string, r: string)
    ensures Digits(u, l + r) == Digits(u, l) + Digits(u, r)
  {
    if r == "" {
      assert l + r == l;
    } else {
      assert (l + r)[..|l + r| - 1] == l + r[..|r| - 1];
      DigitsSplit(u, l, r[..|r| - 1]);
    }
  }

  lemma {:induction false} NoDigits(u: Unicode, s: string)
    requires forall i :: 0 <= i < |s| ==> !IsDigit(u, s[i])
    ensures Digits(u, s) == []
  {
    if s == "" {
    } else {
      NoDigits(u, s[..|s| - 1]);
    }
  }

  /** Every decimal digit of the text counts once, with its value and in its place,
      and nothing else does. */
  lemma DigitsAround(u: Unicode, left: string, c: char, right: string)
    ensures Digits(u, left + [c] + right)
         == Digits(u, left) + (match u.kind(c) case Decimal(v) => [v] case _ => []) + Digits(u, right)
  {
    DigitsSplit(u, left + [c], right);
    assert (left + [c])[..|left|] == left;
  }

  function Ones(n: nat): (ds: seq<nat>)
    ensures |ds| == n
  {
    seq(n, _ => 1)
  }

  lemma {:induction false} FromRightOnes(n: nat, doubled: bool)
    ensures 2 * FromRight(Ones(n), doubled) == if n % 2 == 0 then 3 * n else if doubled then 3 * n + 1 else 3 * n - 1
  {
    if n == 0 {
    } else {
      assert Ones(n)[..n - 1] == Ones(n - 1);
      FromRightOnes(n - 1, !doubled);
    }
  }

  /** The card number 4111 1111 1111 1111 of the project's own tests is accepted,
      and with its last digit changed it is not. */
  lemma LuhnSample()
    ensures LuhnAccepts([4] + Ones(15))
    ensures !LuhnAccepts([4] + Ones(14) + [2])
  {
    FromRightOnes(15, false);
    FromRightAround([], 4, Ones(15));
    assert [] + [4] + Ones(15) == [4] + Ones(15) == ([4] + Ones(14)) + [1] + [];
    LuhnCatchesChange([4] + Ones(14), 1, 2, []);
    assert [4] + Ones(14) + [2] == ([4] + Ones(14)) + [2] + [];
  }

  /** The same on the text itself, whatever separators it has. */
  lemma LuhnCatchesMistype(u: Unicode, left: string, c: char, c': char, right: string)
    requires IsDigit(u, c) && IsDigit(u, c') && DigitValue(u, c) != DigitValue(u, c')
    requires LuhnAccepts(Digits(u, left + [c] + right))
    ensures !LuhnAccepts(Digits(u, left + [c'] + right))
  {
    forall x | IsDigit(u, x)
      ensures Digits(u, left + [x] + right) == Digits(u, left) + [DigitValue(u, x)] + Digits(u, right)
    {
      DigitsSplit(u, left + [x], right);
      assert (left + [x])[..|left|] == left;
    }
    LuhnCatchesChange(Digits(u, left), DigitValue(u, c), DigitValue(u, c'), Digits(u, right));
  }

  /** Separators may be put anywhere and change nothing. */
  lemma LuhnIgnoresSeparators(u: Unicode, left: string, gap: string, right: string)
    requires forall i :: 0 <= i < |gap| ==> !IsDigit(u, gap[i])
    ensures Digits(u, left + gap + right) == Digits(u, left + right)
  {
    DigitsSplit(u, left + gap, right);
    DigitsSplit(u, left, gap);
    NoDigits(u, gap);
    DigitsSplit(u, left, right);
  }

  // ---- IBAN ----

  predicate IsLetter(c: char) { 'A' <= c <= 'Z' }

  /** The code asks for a digit first. */
  predicate AllowedChar(u: Unicode, c: char) { IsDigit(u, c) || (u.kind(c).Neither? && IsLetter(c)) }

  predicate Allowed(u: Unicode, s: string) {
    forall i :: 0 <= i < |s| ==> AllowedChar(u, s[i])
  }

  /** `s.replace(" ", "").upper()` */
  function Compact(u: Unicode, s: string): string {
    if s == "" then ""
    else
      var before, c := Compact(u, s[..|s| - 1]), s[|s| - 1];
      if c == ' ' then before else before + u.upper(c)
  }

  lemma {:induction false} CompactSplit(u: Unicode, l: string, r: string)
    ensures Compact(u, l + r) == Compact(u, l) + Compact(u, r)
  {
    if r == "" {
      assert l + r == l;
    } else {
      assert (l + r)[..|l + r| - 1] == l + r[..|r| - 1];
      CompactSplit(u, l, r[..|r| - 1]);
    }
  }

  /** Spaces are left out; every other character is put in upper case, in its place. */
  lemma CompactAround(u: Unicode, l: string, c: char, r: string)
    ensures Compact(u, l + [c] + r) == Compact(u, l) + (if c == ' ' then "" else u.upper(c)) + Compact(u, r)
  {
    CompactSplit(u, l + [c], r);
    assert (l + [c])[..|l|] == l;
  }

  /** So grouping and case do not matter to the check. */
  lemma IbanIgnoresLayout(u: Unicode, l: string, c: char, c': char, r: string)
    requires c != ' ' && c' != ' ' && u.upper(c) == u.upper(c')
    ensures Compact(u, l + " " + r) == Compact(u, l + r)
    ensures Compact(u, l + [c] + r) == Compact(u, l + [c'] + r)
  {
    CompactAround(u, l, ' ', r);
    CompactSplit(u, l, r);
    CompactAround(u, l, c, r);
    CompactAround(u, l, c', r);
  }

  /** A digit's value; 10 to 35 for a letter. */
  function CharValue(u: Unicode, c: char): (v: nat)
    requires AllowedChar(u, c)
    ensures if IsDigit(u, c) then v < 10 else 10 <= v < 36
  {
    if IsDigit(u, c) then DigitValue(u, c) else c as int - 'A' as int + 10
  }

  /** Digits keep their value; A counts 10, and every letter one more than the letter
      before it. */
  lemma ValuesCountUp(u: Unicode, c: char)
    requires AllowedChar(u, c)
    ensures u.kind(c).Decimal? ==> CharValue(u, c) == u.kind(c).value
    ensures !u.kind(c).Decimal? && c == 'A' ==> CharValue(u, c) == 10
    ensures !u.kind(c).Decimal? && c != 'A' && AllowedChar(u, (c as int - 1) as char)
            && !u.kind((c as int - 1) as char).Decimal? ==>
              CharValue(u, c) == CharValue(u, (c as int - 1) as char) + 1
  {}

  function CharDigits(u: Unicode, c: char): seq<nat>
    requires AllowedChar(u, c)
  {
    if IsDigit(u, c) then [CharValue(u, c)] else [CharValue(u, c) / 10, CharValue(u, c) % 10]
  }

  function Expand(u: Unicode, s: string): seq<nat>
    requires Allowed(u, s)
  {
    if s == "" then [] else Expand(u, s[..|s| - 1]) + CharDigits(u, s[|s| - 1])
  }

  /** The number a digit string denotes. */
  function Number(ds: seq<nat>): nat {
    if ds == [] then 0 else 10 * Number(ds[..|ds| - 1]) + ds[|ds| - 1]
  }

  function Rearranged(iban: string): string
    requires |iban| >= 4
  {
    iban[4..] + iban[..4]
  }

  predicate Checks(u: Unicode, rearranged: string) {
    Allowed(u, rearranged) && Number(Expand(u, rearranged)) % 97 == 1
  }

  predicate IbanAccepts(u: Unicode, iban: string) {
    |iban| >= 5 && Checks(u, Rearranged(iban))
  }

  lemma ExpandNext(u: Unicode, s: string, i: nat)
    requires i < |s|
    ensures Allowed(u, s[..i + 1]) <==> Allowed(u, s[..i]) && AllowedChar(u, s[i])
    ensures !AllowedChar(u, s[i]) ==> !Allowed(u, s)
    ensures Allowed(u, s[..i + 1]) ==> Expand(u, s[..i + 1]) == Expand(u, s[..i]) + CharDigits(u, s[i])
  {
    assert s[..i + 1][..i] == s[..i] && s[..i + 1][i] == s[i];
    assert forall j :: 0 <= j < i ==> s[..i + 1][j] == s[..i][j];
  }

  /** Plain digits and capitals are what they are in ASCII. */
  ghost predicate Ascii(u: Unicode) {
    && (forall c: char :: '0' <= c <= '9' ==> u.kind(c).Decimal? && u.kind(c).value == c as int - '0' as int)
    && (forall c: char :: 'A' <= c <= 'Z' ==> u.kind(c).Neither?)
  }

  lemma {:induction false} ExpandDigits(u: Unicode, s: string)
    requires Ascii(u) && forall i :: 0 <= i < |s| ==> '0' <= s[i] <= '9'
    ensures Allowed(u, s) && |Expand(u, s)| == |s|
    ensures forall i :: 0 <= i < |s| ==> Expand(u, s)[i] == s[i] as int - '0' as int
  {
    if s == "" {
    } else {
      ExpandDigits(u, s[..|s| - 1]);
    }
  }

  lemma ExpandSample(u: Unicode, account: string, a: seq<nat>)
    requires Ascii(u) && account == "370400440532013000"
    requires a == [3, 7, 0, 4, 0, 0] + [4, 4, 0, 5, 3, 2] + [0, 1, 3, 0, 0, 0]
    ensures Allowed(u, account) && Expand(u, account) == a
  {
    ExpandDigits(u, account);
  }

  lemma ExpandCountry(u: Unicode, d: seq<nat>)
    requires Ascii(u) && d == [1, 3, 1, 4, 8, 9]
    ensures Allowed(u, "DE" + "89") && Expand(u, "DE" + "89") == d
  {
    ExpandDigits(u, "89");
    ExpandTwo(u, 'D', 'E');
    assert ['D', 'E'] == "DE";
    ExpandSplit(u, "DE", "89");
  }

  /** An account number that the project's own tests use. */
  lemma IbanSample(u: Unicode)
    requires Ascii(u)
    ensures IbanAccepts(u, "DE89370400440532013000")
  {
    var account := "370400440532013000";
    var a, b, c, d := [3, 7, 0, 4, 0, 0], [4, 4, 0, 5, 3, 2], [0, 1, 3, 0, 0, 0], [1, 3, 1, 4, 8, 9];
    ExpandSample(u, account, a + b + c);
    ExpandCountry(u, d);
    ExpandSplit(u, account, "DE" + "89");
    SampleNumber(a, b, c, d);
    SampleIsRearranged(account);
  }

  lemma SampleIsRearranged(account: string)
    requires account == "370400440532013000"
    ensures Rearranged("DE89370400440532013000") == account + ("DE" + "89")
  {}

  lemma NumberSix(ds: seq<nat>, six: seq<nat>)
    requires |six| == 6
    ensures Number(ds + six)
         == 1000000 * Number(ds)
          + 100000 * six[0] + 10000 * six[1] + 1000 * six[2] + 100 * six[3] + 10 * six[4] + six[5]
  {
    NumberThree(ds, six[0], six[1], six[2]);
    NumberThree(ds + six[..3], six[3], six[4], six[5]);
    assert six[..3] == [six[0], six[1], six[2]];
    assert ds + six == ds + six[..3] + [six[3], six[4], six[5]];
  }

  lemma NumberThree(ds: seq<nat>, a: nat, b: nat, c: nat)
    ensures Number(ds + [a, b, c]) == 1000 * Number(ds) + 100 * a + 10 * b + c
  {
    NumberSnoc(ds, a);
    NumberSnoc(ds + [a], b);
    NumberSnoc(ds + [a] + [b], c);
    assert ds + [a, b, c] == ds + [a] + [b] + [c];
  }

  lemma SampleNumber(a: seq<nat>, b: seq<nat>, c: seq<nat>, d: seq<nat>)
    requires a == [3, 7, 0, 4, 0, 0] && b == [4, 4, 0, 5, 3, 2] && c == [0, 1, 3, 0, 0, 0] && d == [1, 3, 1, 4, 8, 9]
    ensures Number(a + b + c + d) % 97 == 1
  {
    assert [] + a == a;
    NumberSix([], a);
    assert Number(a) == 370400;
    NumberSix(a, b);
    assert Number(a + b) == 370400440532;
    NumberSix(a + b, c);
    assert Number(a + b + c) == 370400440532013000;
    NumberSix(a + b + c, d);
  }

  /** What `int` takes of this many digits; some interpreters have a limit. */
  predicate WithinLimit(maxDigits: Option<nat>, n: nat) {
    maxDigits.Some? ==> n <= maxDigits.value
  }

  /** `_iban_mod97`.  `int` refuses a figure and a number beyond the limit; the
      code takes either for a mismatch. */
  method IbanMod97(u: Unicode, s: string, maxDigits: Option<nat>) returns (ok: bool)
    ensures ok <==> IbanAccepts(u, Compact(u, s)) && WithinLimit(maxDigits, |Expand(u, Rearranged(Compact(u, s)))|)
  {
    var iban := Compact(u, s);
    if |iban| < 5 { return false; }
    var rearranged := iban[4..] + iban[..4];
    var numericChars: seq<nat> := [];
    var refused := false;
    for i := 0 to |rearranged|
      invariant refused <==> !Allowed(u, rearranged[..i])
      invariant !refused ==> numericChars == Expand(u, rearranged[..i])
    {
      var c := rearranged[i];
      ExpandNext(u, rearranged, i);
      if u.kind(c).Decimal? {
        numericChars := numericChars + [u.kind(c).value];
      } else if u.kind(c).Figure? {
        refused := true;
      } else if 'A' <= c <= 'Z' {
        var n := c as int - 'A' as int + 10;
        numericChars := numericChars + [n / 10, n % 10];
      } else {
        return false;
      }
    }
    assert rearranged[..|rearranged|] == rearranged;
    if refused || !WithinLimit(maxDigits, |numericChars|) { return false; }
    return Number(numericChars) % 97 == 1;
  }

  lemma NumberSnoc(ds: seq<nat>, d: nat)
    ensures Number(ds + [d]) == 10 * Number(ds) + d
  {}

  lemma NumberChar(u: Unicode, ds: seq<nat>, c: char)
    requires AllowedChar(u, c)
    ensures Number(ds + CharDigits(u, c)) == (if IsDigit(u, c) then 10 else 100) * Number(ds) + CharValue(u, c)
  {
    if IsDigit(u, c) {
      NumberSnoc(ds, CharValue(u, c));
    } else {
      NumberSnoc(ds, CharValue(u, c) / 10);
      NumberSnoc(ds + [CharValue(u, c) / 10], CharValue(u, c) % 10);
      assert ds + [CharValue(u, c) / 10] + [CharValue(u, c) % 10] == ds + CharDigits(u, c);
    }
  }

  lemma {:induction false} ExpandSplit(u: Unicode, l: string, r: string)
    requires Allowed(u, l) && Allowed(u, r)
    ensures Allowed(u, l + r) && Expand(u, l + r) == Expand(u, l) + Expand(u, r)
  {
    if r == "" {
      assert l + r == l;
    } else {
      assert (l + r)[..|l + r| - 1] == l + r[..|r| - 1];
      ExpandSplit(u, l, r[..|r| - 1]);
    }
  }

  lemma ExpandOne(u: Unicode, c: char)
    requires AllowedChar(u, c)
    ensures Allowed(u, [c]) && Expand(u, [c]) == CharDigits(u, c)
  {}

  lemma ExpandTwo(u: Unicode, a: char, b: char)
    requires AllowedChar(u, a) && AllowedChar(u, b)
    ensures Allowed(u, [a, b]) && Expand(u, [a, b]) == CharDigits(u, a) + CharDigits(u, b)
  {
    ExpandOne(u, a);
    ExpandOne(u, b);
    ExpandSplit(u, [a], [b]);
    assert [a] + [b] == [a, b];
  }

  /** A common beginning adds the same to both. */
  lemma {:induction false} CancelLeft(l: seq<nat>, m: seq<nat>, m': seq<nat>)
    requires |m| == |m'|
    ensures Number(l + m) - Number(l + m') == Number(m) - Number(m')
  {
    if m == [] {
      assert m == m';
    } else {
      var k := |m| - 1;
      assert (l + m)[..|l| + k] == l + m[..k] && (l + m')[..|l| + k] == l + m'[..k];
      CancelLeft(l, m[..k], m'[..k]);
    }
  }

  /** Ten has an inverse modulo 97, so a common ending hides no difference. */
  lemma {:induction false} CancelRight(m: seq<nat>, m': seq<nat>, r: seq<nat>)
    ensures Number(m + r) % 97 == Number(m' + r) % 97 <==> Number(m) % 97 == Number(m') % 97
  {
    if r == [] {
      assert m + r == m && m' + r == m';
    } else {
      var k := |r| - 1;
      assert (m + r)[..|m| + k] == m + r[..k] && (m' + r)[..|m'| + k] == m' + r[..k];
      CancelRight(m, m', r[..k]);
      TenCancels(Number(m + r[..k]), Number(m' + r[..k]), r[k]);
    }
  }

  lemma CongruentIff(x: int, y: int)
    ensures x % 97 == y % 97 <==> (x - y) % 97 == 0
  {}

  lemma TenCancels(x: nat, y: nat, d: nat)
    ensures (10 * x + d) % 97 == (10 * y + d) % 97 <==> x % 97 == y % 97
  {
    CongruentIff(10 * x + d, 10 * y + d);
    CongruentIff(x, y);
    TenInverse(x - y);
  }

  lemma TenInverse(n: int)
    ensures 10 * n % 97 == 0 <==> n % 97 == 0
  {}

  lemma Cancel(l: seq<nat>, m: seq<nat>, m': seq<nat>, r: seq<nat>)
    requires |m| == |m'|
    ensures Number(l + m + r) % 97 == Number(l + m' + r) % 97 <==> Number(m) % 97 == Number(m') % 97
  {
    CancelRight(l + m, l + m', r);
    CancelLeft(l, m, m');
    CongruentIff(Number(l + m), Number(l + m'));
    CongruentIff(Number(m), Number(m'));
  }

  /** Changing one digit of the rearranged number is caught. */
  lemma NumberCatchesChange(l: seq<nat>, a: nat, a': nat, r: seq<nat>)
    requires a < 10 && a' < 10 && a != a' && Number(l + [a] + r) % 97 == 1
    ensures Number(l + [a'] + r) % 97 != 1
  {
    Cancel(l, [a], [a'], r);
    NumberSnoc([], a);
    NumberSnoc([], a');
    assert [] + [a] == [a] && [] + [a'] == [a'];
  }

  /** Swapping two neighbouring unequal digits of it is caught too. */
  lemma NumberCatchesSwap(l: seq<nat>, a: nat, b: nat, r: seq<nat>)
    requires a < 10 && b < 10 && a != b && Number(l + [a, b] + r) % 97 == 1
    ensures Number(l + [b, a] + r) % 97 != 1
  {
    Cancel(l, [a, b], [b, a], r);
    NumberTwo(a, b);
    NumberTwo(b, a);
  }

  lemma NumberTwo(a: nat, b: nat)
    ensures Number([a, b]) == 10 * a + b
  {
    NumberSnoc([a], b);
    NumberSnoc([], a);
    assert [a] + [b] == [a, b] && [] + [a] == [a];
  }

  // ---- Characters of the account number ----

  lemma NumberOneChar(u: Unicode, c: char)
    requires AllowedChar(u, c)
    ensures Number(CharDigits(u, c)) == CharValue(u, c)
  {
    NumberChar(u, [], c);
    assert [] + CharDigits(u, c) == CharDigits(u, c);
  }

  lemma ExpandAround(u: Unicode, l: string, m: string, r: string)
    requires Allowed(u, l) && Allowed(u, m) && Allowed(u, r)
    ensures Allowed(u, l + m + r) && Expand(u, l + m + r) == Expand(u, l) + Expand(u, m) + Expand(u, r)
  {
    ExpandSplit(u, l + m, r);
    ExpandSplit(u, l, m);
  }

  /** Replacing a part goes unnoticed exactly when its number stays the same. */
  lemma CheckOfPart(u: Unicode, l: string, m: string, m': string, r: string)
    requires Allowed(u, l) && Allowed(u, m) && Allowed(u, m') && Allowed(u, r) && |Expand(u, m)| == |Expand(u, m')|
    requires Checks(u, l + m + r)
    ensures Checks(u, l + m' + r) <==> Number(Expand(u, m)) % 97 == Number(Expand(u, m')) % 97
  {
    ExpandAround(u, l, m, r);
    ExpandAround(u, l, m', r);
    Cancel(Expand(u, l), Expand(u, m), Expand(u, m'), Expand(u, r));
  }

  lemma SmallResidue(v: nat)
    requires v < 97
    ensures v % 97 == v
  {}

  lemma NumbersDiffer(u: Unicode, c: char, c': char)
    requires AllowedChar(u, c) && AllowedChar(u, c')
    requires CharValue(u, c) != CharValue(u, c') && IsDigit(u, c) == IsDigit(u, c')
    ensures Allowed(u, [c]) && Allowed(u, [c']) && |Expand(u, [c])| == |Expand(u, [c'])|
    ensures Number(Expand(u, [c])) % 97 != Number(Expand(u, [c'])) % 97
  {
    ExpandOne(u, c);
    ExpandOne(u, c');
    NumberOneChar(u, c);
    NumberOneChar(u, c');
    SmallResidue(CharValue(u, c));
    SmallResidue(CharValue(u, c'));
  }

  /** In the rearranged string a letter for a letter or a digit for a digit is
      always caught. */
  lemma CheckCatchesMistype(u: Unicode, l: string, c: char, c': char, r: string)
    requires Allowed(u, l) && Allowed(u, r) && AllowedChar(u, c) && AllowedChar(u, c')
    requires CharValue(u, c) != CharValue(u, c') && IsDigit(u, c) == IsDigit(u, c') && Checks(u, l + [c] + r)
    ensures !Checks(u, l + [c'] + r)
  {
    NumbersDiffer(u, c, c');
    CheckOfPart(u, l, [c], [c'], r);
  }

  /** A digit and a letter that denote the same number in either order: 1 and B,
      2 and M, 3 and X. */
  predicate Interchangeable(u: Unicode, a: char, b: char)
    requires AllowedChar(u, a) && AllowedChar(u, b)
  {
    var x, y := CharValue(u, a), CharValue(u, b);
    (x, y) in {(1, 11), (2, 22), (3, 33)} || (y, x) in {(1, 11), (2, 22), (3, 33)}
  }

  lemma TwoChars(u: Unicode, a: char, b: char)
    requires AllowedChar(u, a) && AllowedChar(u, b)
    ensures Number(CharDigits(u, a) + CharDigits(u, b))
            == (if IsDigit(u, b) then 10 else 100) * CharValue(u, a) + CharValue(u, b)
  {
    NumberChar(u, CharDigits(u, a), b);
    NumberOneChar(u, a);
  }

  lemma NineInverse(n: int)
    requires -97 < n < 97
    ensures 9 * n % 97 == 0 <==> n == 0
  {}

  lemma SwapOfDigits(x: nat, y: nat)
    requires x < 10 && y < 10
    ensures (10 * x + y) % 97 == (10 * y + x) % 97 <==> x == y
  {}

  lemma SwapOfLetters(x: nat, y: nat)
    requires x < 36 && y < 36
    ensures (100 * x + y) % 97 == (100 * y + x) % 97 <==> x == y
  {
    CongruentIff(100 * x + y, 100 * y + x);
    CongruentIff(99 * (x - y), 2 * (x - y));
  }

  lemma SwapOfMixedKind(d: nat, v: nat)
    requires d < 10 <= v < 36
    ensures (100 * d + v) % 97 == (10 * v + d) % 97 <==> v == 11 * d
  {
    CongruentIff(100 * d + v, 10 * v + d);
    var q := (100 * d + v - (10 * v + d)) / 97;
    assert 100 * d + v - (10 * v + d) == 9 * (11 * d - v);
    NineInverse(11 * d - v);
  }

  lemma SameNumberIff(u: Unicode, a: char, b: char)
    requires AllowedChar(u, a) && AllowedChar(u, b)
    ensures Number(CharDigits(u, a) + CharDigits(u, b)) % 97 == Number(CharDigits(u, b) + CharDigits(u, a)) % 97
            <==> CharValue(u, a) == CharValue(u, b) || Interchangeable(u, a, b)
  {
    TwoChars(u, a, b);
    TwoChars(u, b, a);
    var x, y := CharValue(u, a), CharValue(u, b);
    assert Interchangeable(u, a, b) <==> (x < 10 <= y && y == 11 * x) || (y < 10 <= x && x == 11 * y);
    if IsDigit(u, a) {
      if IsDigit(u, b) { SwapOfDigits(x, y); } else { SwapOfMixedKind(x, y); }
    } else {
      if IsDigit(u, b) { SwapOfMixedKind(y, x); } else { SwapOfLetters(x, y); }
    }
  }

  /** Swapping neighbours is caught unless they are equal or interchangeable. */
  lemma CheckCatchesSwapIff(u: Unicode, l: string, a: char, b: char, r: string)
    requires Allowed(u, l) && Allowed(u, r) && AllowedChar(u, a) && AllowedChar(u, b) && Checks(u, l + [a, b] + r)
    ensures Checks(u, l + [b, a] + r) <==> CharValue(u, a) == CharValue(u, b) || Interchangeable(u, a, b)
  {
    ExpandTwo(u, a, b);
    ExpandTwo(u, b, a);
    CheckOfPart(u, l, [a, b], [b, a], r);
    SameNumberIff(u, a, b);
  }

  /** Where position `i` of the account number goes. */
  function Moved(iban: string, i: nat): nat
    requires 4 <= |iban| && i < |iban|
  {
    if i < 4 then |iban| - 4 + i else i - 4
  }

  lemma RearrangedAround(iban: string, i: nat, k: nat, part: string)
    requires 4 <= |iban| && |part| == k >= 1 && i + k <= |iban| && (i + k <= 4 || 4 <= i)
    ensures var j := Moved(iban, i);
            Rearranged(iban[..i] + part + iban[i + k..]) == Rearranged(iban)[..j] + part + Rearranged(iban)[j + k..]
  {
    var next, j := iban[..i] + part + iban[i + k..], Moved(iban, i);
    if i < 4 {
      assert next[4..] == iban[4..] && next[..4] == iban[..i] + part + iban[i + k..4];
      assert Rearranged(iban)[..j] == iban[4..] + iban[..i] && Rearranged(iban)[j + k..] == iban[i + k..4];
    } else {
      assert next[4..] == iban[4..i] + part + iban[i + k..] && next[..4] == iban[..4];
      assert Rearranged(iban)[..j] == iban[4..i] && Rearranged(iban)[j + k..] == iban[i + k..] + iban[..4];
    }
  }

  lemma MovedOne(iban: string, i: nat)
    requires 4 <= |iban| && i < |iban|
    ensures var t, j := Rearranged(iban), Moved(iban, i);
            j < |t| && t[j] == iban[i] && t == t[..j] + [t[j]] + t[j + 1..]
  {}

  lemma MovedPair(iban: string, i: nat)
    requires 4 <= |iban| && i + 1 < |iban| && i != 3
    ensures var t, j := Rearranged(iban), Moved(iban, i);
            j + 1 < |t| && t[j] == iban[i] && t[j + 1] == iban[i + 1] && t == t[..j] + [t[j], t[j + 1]] + t[j + 2..]
  {}

  /** One wrong character of the same kind, anywhere in the account number. */
  lemma IbanCatchesMistype(u: Unicode, iban: string, i: nat, c: char)
    requires i < |iban| && IbanAccepts(u, iban)
    requires AllowedChar(u, iban[i]) && AllowedChar(u, c)
    requires CharValue(u, c) != CharValue(u, iban[i]) && IsDigit(u, c) == IsDigit(u, iban[i])
    ensures !IbanAccepts(u, iban[..i] + [c] + iban[i + 1..])
  {
    var t := Rearranged(iban);
    var j := Moved(iban, i);
    RearrangedAround(iban, i, 1, [c]);
    MovedOne(iban, i);
    CheckCatchesMistype(u, t[..j], t[j], c, t[j + 1..]);
  }

  /** Two neighbours exchanged, except the last check digit with the first
      character after it, which end up far apart. */
  lemma IbanCatchesSwapIff(u: Unicode, iban: string, i: nat)
    requires i + 1 < |iban| && i != 3 && IbanAccepts(u, iban)
    requires AllowedChar(u, iban[i]) && AllowedChar(u, iban[i + 1])
    ensures IbanAccepts(u, iban[..i] + [iban[i + 1], iban[i]] + iban[i + 2..])
            <==> CharValue(u, iban[i]) == CharValue(u, iban[i + 1]) || Interchangeable(u, iban[i], iban[i + 1])
  {
    var t := Rearranged(iban);
    var j := Moved(iban, i);
    RearrangedAround(iban, i, 2, [iban[i + 1], iban[i]]);
    MovedPair(iban, i);
    CheckCatchesSwapIff(u, t[..j], t[j], t[j + 1], t[j + 2..]);
  }

  // ---- The two characters that part ways ----

  function Tens(n: nat): nat {
    if n == 0 then 1 else 10 * Tens(n - 1)
  }

  /** Powers of ten modulo 97. */
  function Residue(n: nat): nat { Tens(n) % 97 }

  lemma {:induction false} TensAdd(m: nat, n: nat, sum: nat)
    requires sum == m + n
    ensures Tens(sum) == Tens(m) * Tens(n)
  {
    if n == 0 {
    } else {
      TensAdd(m, n - 1, sum - 1);
      assert Tens(m) * (10 * Tens(n - 1)) == 10 * (Tens(m) * Tens(n - 1));
    }
  }

  lemma Multiple(x: int, y: int)
    requires y % 97 == 0
    ensures x * y % 97 == 0
  {
    var q := y / 97;
    assert x * y == 97 * (x * q);
  }

  /** Factors may be reduced before they are multiplied. */
  lemma ReduceFactor(x: nat, y: nat, r: nat)
    requires y % 97 == r % 97
    ensures x * y % 97 == x * r % 97
  {
    CongruentIff(y, r);
    Multiple(x, y - r);
    assert x * (y - r) == x * y - x * r;
    CongruentIff(x * y, x * r);
  }

  lemma ReduceFactors(x: nat, y: nat, r: nat, q: nat, product: nat, rest: nat)
    requires x % 97 == r % 97 && y % 97 == q % 97 && product == x * y && rest == r * q % 97
    ensures product % 97 == rest
  {
    ReduceFactor(x, y, q);
    ReduceFactor(q, x, r);
    assert x * q == q * x && q * r == r * q;
  }

  lemma RemainderStays(x: nat, r: nat)
    requires r == x % 97
    ensures x % 97 == r % 97
  {}

  lemma ResidueAdd(m: nat, n: nat, sum: nat, r: nat, q: nat, product: nat)
    requires sum == m + n && Residue(m) == r && Residue(n) == q && product == r * q % 97
    ensures Residue(sum) == product
  {
    TensAdd(m, n, sum);
    RemainderStays(Tens(m), r);
    RemainderStays(Tens(n), q);
    ReduceFactors(Tens(m), Tens(n), r, q, Tens(sum), product);
  }

  lemma ResidueOfFour(n: nat)
    requires n == 4
    ensures Residue(n) == 9
  {
    var one, two := n - 3, n - 2;
    assert Tens(one) == 10 && Tens(two) == 100;
    ResidueAdd(two, two, n, 3, 3, 9);
  }

  lemma ResidueOf16(n: nat)
    requires n == 16
    ensures Residue(n) == 62
  {
    var four, eight := n - 12, n - 8;
    ResidueOfFour(four);
    ResidueAdd(four, four, eight, 9, 9, 81);
    ResidueAdd(eight, eight, n, 81, 81, 62);
  }

  lemma ResidueOf32(n: nat)
    requires n == 32
    ensures Residue(n) == 61
  {
    var half := n - 16;
    ResidueOf16(half);
    ResidueAdd(half, half, n, 62, 62, 61);
  }

  lemma ResidueOf48(n: nat)
    requires n == 48
    ensures Residue(n) == 96
  {
    var third, rest := n - 32, n - 16;
    ResidueOf16(third);
    ResidueOf32(rest);
    ResidueAdd(third, rest, n, 62, 61, 96);
  }

  lemma ResidueOf96(n: nat)
    requires n == 96
    ensures Residue(n) == 1
  {
    var half := n - 48;
    ResidueOf48(half);
    ResidueAdd(half, half, n, 96, 96, 1);
  }

  lemma Quotient(n: nat, r: nat)
    requires 0 < r
    ensures n - n % r == r * (n / r) >= 0
  {}

  lemma OneLess(r: nat, k: nat)
    requires 0 < k
    ensures r * k - r == r * (k - 1) >= 0
  {}

  lemma {:induction false} ResidueOfMultiple(r: nat, k: nat, product: nat)
    requires Residue(r) == 1 && product == r * k
    ensures Residue(product) == 1
  {
    if k == 0 {
    } else {
      OneLess(r, k);
      ResidueOfMultiple(r, k - 1, product - r);
      ResidueAdd(product - r, r, product, 1, 1, 1);
    }
  }

  lemma ResidueOfRemainder(r: nat, n: nat, rest: nat)
    requires 0 < r && Residue(r) == 1 && rest == n % r
    ensures Residue(n) == Residue(rest)
  {
    Quotient(n, r);
    var product := n - rest;
    ResidueOfMultiple(r, n / r, product);
    ResidueAdd(product, rest, n, 1, Residue(rest), Residue(rest));
  }

  lemma DivisorOfHalfOrThird(r: nat)
    requires 0 < r < 96 && 96 % r == 0
    ensures 48 % r == 0 || 32 % r == 0
  {}

  /** Ten has order 96 modulo 97: no smaller power is one. */
  lemma {:induction false} NotBefore(r: nat, n32: nat, n48: nat, n96: nat)
    requires 0 < r < 96 && n32 == 32 && n48 == 48 && n96 == 96
    ensures Residue(r) != 1
  {
    if Residue(r) == 1 {
      ResidueOf96(n96);
      ResidueOf48(n48);
      ResidueOf32(n32);
      var rest := n96 % r;
      if rest != 0 {
        ResidueOfRemainder(r, n96, rest);
        NotBefore(rest, n32, n48, n96);
      } else {
        DivisorOfHalfOrThird(r);
        ResidueOfRemainder(r, n48, n48 % r);
        ResidueOfRemainder(r, n32, n32 % r);
      }
    }
  }

  lemma OneIff(n: nat, n96: nat)
    requires n96 == 96
    ensures Residue(n) == 1 <==> n % 96 == 0
  {
    var rest, n32, n48 := n % 96, 32, 48;
    ResidueOf96(n96);
    ResidueOfRemainder(n96, n, rest);
    if rest != 0 { NotBefore(rest, n32, n48, n96); }
  }

  /** The number with `n` zeros after it. */
  function Shifted(x: nat, n: nat): nat {
    if n == 0 then x else 10 * Shifted(x, n - 1)
  }

  lemma {:induction false} ShiftedIs(x: nat, n: nat)
    ensures Shifted(x, n) == x * Tens(n)
  {
    if n == 0 {
    } else {
      ShiftedIs(x, n - 1);
      assert 10 * (x * Tens(n - 1)) == x * (10 * Tens(n - 1));
    }
  }

  lemma {:induction false} ShiftedSum(x: nat, y: nat, n: nat)
    ensures Shifted(x + y, n) == Shifted(x, n) + Shifted(y, n)
  {
    if n == 0 {
    } else {
      ShiftedSum(x, y, n - 1);
    }
  }

  lemma {:induction false} ShiftedTwice(x: nat, m: nat, n: nat, sum: nat)
    requires sum == m + n
    ensures Shifted(Shifted(x, m), n) == Shifted(x, sum)
  {
    if n == 0 {
    } else {
      ShiftedTwice(x, m, n - 1, sum - 1);
    }
  }

  lemma {:induction false} NumberConcat(x: seq<nat>, y: seq<nat>)
    ensures Number(x + y) == Shifted(Number(x), |y|) + Number(y)
  {
    if y == [] {
      assert x + y == x;
    } else {
      var k := |y| - 1;
      assert (x + y)[..|x| + k] == x + y[..k];
      NumberConcat(x, y[..k]);
    }
  }

  /** 97 is a prime. */
  lemma {:induction false} PrimeDivides(x: nat, y: int)
    requires 0 < x < 36 && x * y % 97 == 0
    ensures y % 97 == 0
  {
    if x == 1 {
    } else {
      var q, r := 97 / x, 97 % x;
      NotADivisor(x);
      assert 97 == q * x + r;
      assert r * y == 97 * y - q * (x * y);
      var m := x * y / 97;
      assert x * y == 97 * m;
      assert q * (x * y) == 97 * (q * m);
      assert r * y == 97 * (y - q * m);
      PrimeDivides(r, y);
    }
  }

  lemma NotADivisor(x: nat)
    requires 1 < x < 36
    ensures 97 % x != 0
  {}

  lemma NumberOfEnds(x: seq<nat>, mid: seq<nat>, y: seq<nat>, n: nat)
    requires n == |mid| + |y|
    ensures Number(x + mid + y) == Shifted(Number(x), n) + Shifted(Number(mid), |y|) + Number(y)
  {
    NumberConcat(x + mid, y);
    NumberConcat(x, mid);
    ShiftedSum(Shifted(Number(x), |mid|), Number(mid), |y|);
    ShiftedTwice(Number(x), |mid|, |y|, n);
  }

  lemma ShiftedDifference(a: nat, b: nat, n: nat, t: nat)
    requires t == Tens(n)
    ensures Shifted(a, n) + b - (Shifted(b, n) + a) == (a - b) * (t - 1)
  {
    ShiftedIs(a, n);
    ShiftedIs(b, n);
  }

  lemma EndsDifference(a: nat, b: nat, n: nat, p: nat, q: nat)
    requires a < 36 && b < 36 && p + Shifted(b, n) + a == q + Shifted(a, n) + b
    ensures p % 97 == q % 97 <==> a == b || Residue(n) == 1
  {
    var t: int, d := Tens(n), p - q;
    ShiftedDifference(a, b, n, t);
    ProductIff(a, b, t - 1, d);
    CongruentIff(t, 1);
    CongruentIff(p, q);
  }

  /** Exchanging the ends of a number goes unnoticed exactly when they are equal or
      a multiple of 96 digits apart. */
  lemma EndsIff(x: seq<nat>, mid: seq<nat>, y: seq<nat>, n: nat)
    requires |x| == |y| && Number(x) < 36 && Number(y) < 36 && n == |mid| + |y|
    ensures Number(x + mid + y) % 97 == Number(y + mid + x) % 97 <==> Number(x) == Number(y) || n % 96 == 0
  {
    NumberOfEnds(x, mid, y, n);
    NumberOfEnds(y, mid, x, n);
    EndsDifference(Number(x), Number(y), n, Number(x + mid + y), Number(y + mid + x));
    OneIff(n, 96);
  }

  lemma Negated(x: int, y: int)
    requires x * y % 97 == 0
    ensures (0 - x) * y % 97 == 0
  {
    var q := x * y / 97;
    assert (0 - x) * y == 97 * (0 - q);
  }

  lemma ProductIff(a: nat, b: nat, y: int, product: int)
    requires a < 36 && b < 36 && product == (a - b) * y
    ensures product % 97 == 0 <==> a == b || y % 97 == 0
  {
    if y % 97 == 0 { Multiple(a - b, y); }
    if product % 97 == 0 && a != b {
      if a > b {
        PrimeDivides(a - b, y);
      } else {
        Negated(a - b, y);
        PrimeDivides(b - a, y);
      }
    }
  }

  lemma RearrangedEnds(iban: string, next: string)
    requires 5 <= |iban| == |next| && next[..3] == iban[..3] && next[5..] == iban[5..]
    ensures Rearranged(next) == [next[4]] + (iban[5..] + iban[..3]) + [next[3]]
  {
    assert next[4..] == [next[4]] + next[5..] && next[..4] == next[..3] + [next[3]];
  }

  /** The last check digit exchanged with the first character after it, if that is
      a digit: caught unless they are equal or a multiple of 96 digits apart in the
      rearranged number, which takes an account number far beyond the standard's 34
      characters. */
  lemma IbanCatchesDistantSwapIff(u: Unicode, iban: string)
    requires IbanAccepts(u, iban) && IsDigit(u, iban[3]) && IsDigit(u, iban[4])
    requires Allowed(u, iban[5..]) && Allowed(u, iban[..3])
    ensures IbanAccepts(u, iban[..3] + [iban[4], iban[3]] + iban[5..])
            <==> DigitValue(u, iban[3]) == DigitValue(u, iban[4])
                 || (|Expand(u, iban[5..] + iban[..3])| + 1) % 96 == 0
  {
    var a, b, mid := iban[4], iban[3], iban[5..] + iban[..3];
    RearrangedEnds(iban, iban);
    RearrangedEnds(iban, iban[..3] + [a, b] + iban[5..]);
    ExpandSplit(u, iban[5..], iban[..3]);
    ExpandOne(u, a);
    ExpandOne(u, b);
    ExpandAround(u, [a], mid, [b]);
    ExpandAround(u, [b], mid, [a]);
    NumberOneChar(u, a);
    NumberOneChar(u, b);
    EndsIff(CharDigits(u, a), Expand(u, mid), CharDigits(u, b), |Expand(u, mid)| + 1);
  }

  // ---- The check pair ----

  /** The digits 0 to 9 are what they seem. */
  ghost predicate KnowsDigits(u: Unicode) {
    forall d: Digit :: u.kind(('0' as int + d) as char) == Decimal(d)
  }

  function TwoDigits(n: nat): (s: string)
    requires n < 100
    ensures |s| == 2
  {
    [('0' as int + n / 10) as char, ('0' as int + n % 10) as char]
  }

  /** The pair ISO 7064 (MOD 97-10) assigns. */
  function CheckPair(u: Unicode, country: string, bban: string): (n: nat)
    requires Allowed(u, country) && Allowed(u, bban)
    ensures 2 <= n <= 98
  {
    98 - 100 * Number(Expand(u, bban) + Expand(u, country)) % 97
  }

  lemma PairIsAllowed(u: Unicode, n: nat)
    requires KnowsDigits(u) && n < 100
    ensures Allowed(u, TwoDigits(n))
    ensures CharValue(u, TwoDigits(n)[0]) == n / 10 && CharValue(u, TwoDigits(n)[1]) == n % 10
  {
    var tens: Digit, ones: Digit := n / 10, n % 10;
    assert u.kind(('0' as int + tens) as char) == Decimal(tens) && u.kind(('0' as int + ones) as char) == Decimal(ones);
  }

  lemma NumberOfPair(u: Unicode, ds: seq<nat>, n: nat)
    requires KnowsDigits(u) && n < 100
    ensures Allowed(u, TwoDigits(n)) && Number(ds + Expand(u, TwoDigits(n))) == 100 * Number(ds) + n
  {
    var s := TwoDigits(n);
    PairIsAllowed(u, n);
    ExpandTwo(u, s[0], s[1]);
    assert s == [s[0], s[1]];
    NumberChar(u, ds, s[0]);
    NumberChar(u, ds + CharDigits(u, s[0]), s[1]);
    assert ds + CharDigits(u, s[0]) + CharDigits(u, s[1]) == ds + Expand(u, s);
  }

  lemma RearrangedIs(country: string, pair: string, bban: string)
    requires |country| == 2 && |pair| == 2
    ensures Rearranged(country + pair + bban) == bban + country + pair
  {}

  lemma OnlyOnePair(x: nat, n: nat, total: nat)
    requires 2 <= n <= 98 && total == 100 * x + n
    ensures total % 97 == 1 <==> n == 98 - 100 * x % 97
  {}

  lemma PairNumber(u: Unicode, body: string, n: nat)
    requires KnowsDigits(u) && Allowed(u, body) && n < 100
    ensures Allowed(u, body + TwoDigits(n))
    ensures Number(Expand(u, body + TwoDigits(n))) == 100 * Number(Expand(u, body)) + n
  {
    PairIsAllowed(u, n);
    ExpandSplit(u, body, TwoDigits(n));
    NumberOfPair(u, Expand(u, body), n);
  }

  /** For every country and account string exactly one pair from 02 to 98 is
      accepted. */
  lemma ExactlyOneCheckPair(u: Unicode, country: string, bban: string, n: nat)
    requires KnowsDigits(u) && |country| == 2 && bban != "" && Allowed(u, country) && Allowed(u, bban) && 2 <= n <= 98
    ensures IbanAccepts(u, country + TwoDigits(n) + bban) <==> n == CheckPair(u, country, bban)
  {
    RearrangedIs(country, TwoDigits(n), bban);
    ExpandSplit(u, bban, country);
    var body := bban + country;
    PairNumber(u, body, n);
    OnlyOnePair(Number(Expand(u, body)), n, Number(Expand(u, body + TwoDigits(n))));
  }
}
