/** A detected substring and the normalisation its constructor applies. */
module Matches {
  import opened Texts

  const ENTITY_TYPES: set<string> := {
    "PERSON", "ORGANIZATION", "EMAIL_ADDRESS", "IPV4_ADDRESS", "IPV6_ADDRESS", "IPV4_CIDR", "IPV6_CIDR",
    "HOSTNAME", "DOMAIN", "USERNAME", "CREDENTIAL", "TOKEN", "HASH", "UUID", "AWS_ACCESS_KEY", "JWT", "PHONE",
    "MAC_ADDRESS", "URL", "PATH", "IDENTIFIER", "ADDRESS", "CREDIT_CARD", "DATE_OF_BIRTH", "IBAN",
    "NATIONAL_ID", "OTHER"
  }

  /** Types whose trailing punctuation may belong to the value. */
  const DO_NOT_TRIM_TYPES: set<string> := {"CREDENTIAL", "TOKEN", "PATH", "IDENTIFIER", "OTHER"}

  datatype Match = Match(text: string, entityType: string)

  predicate Punctuation(c: char) {
    c in {'.', ',', ';', '!', '?'}
  }

  /** `text.rstrip(".,;!?")` */
  function RStrip(text: string): (r: string)
    ensures r <= text
    ensures r != "" ==> !Punctuation(r[|r| - 1])
    ensures r == text || Punctuation(text[|text| - 1])
    ensures forall i :: |r| <= i < |text| ==> Punctuation(text[i])
  {
    if text != "" && Punctuation(text[|text| - 1]) then RStrip(text[..|text| - 1]) else text
  }

  /** `Match(text=..., entity_type=...)` with its `__post_init__`. */
  function MakeMatch(text: string, entityType: string): Match {
    var etype := if entityType in ENTITY_TYPES then entityType else "OTHER";
    Match(if etype in DO_NOT_TRIM_TYPES then text else RStrip(text), etype)
  }

  /** What building a match from any input guarantees about it. */
  ghost predicate Normal(m: Match) {
    && m.entityType in ENTITY_TYPES
    && (m.entityType !in DO_NOT_TRIM_TYPES && m.text != "" ==> !Punctuation(m.text[|m.text| - 1]))
  }

  /** Exactly the normal matches are left alone, so rebuilding a match from a
      vault entry gives the match the detector produced. */
  lemma RebuildsIff(m: Match)
    ensures Normal(MakeMatch(m.text, m.entityType))
    ensures MakeMatch(m.text, m.entityType) == m <==> Normal(m)
  {}

  /** A type that is not canonical becomes OTHER; of the text no more is taken away
      than trailing punctuation, and all of that unless it may belong to the value. */
  lemma MatchIs(text: string, entityType: string)
    ensures var m := MakeMatch(text, entityType);
            && (entityType in ENTITY_TYPES ==> m.entityType == entityType)
            && (entityType !in ENTITY_TYPES ==> m.entityType == "OTHER")
            && m.text <= text && (forall i :: |m.text| <= i < |text| ==> Punctuation(text[i]))
            && if m.entityType in DO_NOT_TRIM_TYPES then m.text == text
               else m.text != "" ==> !Punctuation(m.text[|m.text| - 1])
  {}

  ghost predicate TokenPrefix(s: string) {
    s != "" && forall i :: 0 <= i < |s| ==> SurrogateChar(s[i])
  }

  lemma ShortTypes(etype: string)
    requires etype in ENTITY_TYPES && |etype| <= 6
    ensures TokenPrefix(etype)
  {}

  lemma MiddleTypes(etype: string)
    requires etype in ENTITY_TYPES && 6 < |etype| <= 10
    ensures TokenPrefix(etype)
  {}

  lemma LongTypes(etype: string)
    requires etype in ENTITY_TYPES && 10 < |etype|
    ensures TokenPrefix(etype)
  {}

  /** Every canonical type is spelled in the characters the WAIT pattern knows. */
  lemma TypesAreTokenPrefixes(etype: string)
    requires etype in ENTITY_TYPES
    ensures TokenPrefix(etype)
  {
    if |etype| <= 6 {
      ShortTypes(etype);
    } else if |etype| <= 10 {
      MiddleTypes(etype);
    } else {
      LongTypes(etype);
    }
  }
}
