/**
 The `Match` query parameter: how a free-text query is matched against the
 ontology. Its wire form is the variant name in lower case
 (`#[serde(rename_all = "lowercase")]`), and `#[default]` marks `Exact`.
 */
module MatchMode {
  import opened Wrappers

  datatype Match = Exact | Prefix | Suffix | Contains

  /** `Match::default()`. */
  function Default(): Match {
    Exact
  }

  /** The variant's identifier as written in the enum declaration. */
  function VariantIdent(m: Match): string {
    match m
    case Exact => "Exact"
    case Prefix => "Prefix"
    case Suffix => "Suffix"
    case Contains => "Contains"
  }

  /** `char::to_ascii_lowercase`. */
  function AsciiLower(c: char): char {
    if 'A' <= c <= 'Z' then (c as int + 32) as char else c
  }

  /** `str::to_ascii_lowercase`, the rename rule serde applies to variant names. */
  function AsciiLowercase(s: string): (r: string)
    ensures |r| == |s|
    ensures forall k :: 0 <= k < |s| ==> r[k] == AsciiLower(s[k])
  {
    if |s| == 0 then "" else [AsciiLower(s[0])] + AsciiLowercase(s[1..])
  }

  /** The serialized name of a variant. */
  function ToName(m: Match): (name: string)
    ensures |name| > 0
    ensures forall k :: 0 <= k < |name| ==> 'a' <= name[k] <= 'z'
  {
    match m
    case Exact => "exact"
    case Prefix => "prefix"
    case Suffix => "suffix"
    case Contains => "contains"
  }

  /** Deserializing a name: only the exact lower-case names are accepted. */
  function FromName(name: string): Option<Match> {
    if name == "exact" then Some(Exact)
    else if name == "prefix" then Some(Prefix)
    else if name == "suffix" then Some(Suffix)
    else if name == "contains" then Some(Contains)
    else None
  }

  /** The default mode is `Exact`, serialized as `"exact"`. */
  lemma DefaultIsExact()
    ensures Default() == Exact && ToName(Default()) == "exact"
  {
  }

  /** The serialized name is the lower-cased variant identifier. */
  lemma ToNameIsLowercasedIdent(m: Match)
    ensures ToName(m) == AsciiLowercase(VariantIdent(m))
  {
    var n, l := ToName(m), AsciiLowercase(VariantIdent(m));
    assert |n| == |l|;
    forall k | 0 <= k < |n| ensures n[k] == l[k] {
    }
  }

  /** Parsing a serialized name gives the variant back. */
  lemma FromNameToName(m: Match)
    ensures FromName(ToName(m)) == Some(m)
  {
  }

  /** Parsing accepts a string only if it is the name of the variant it returns. */
  lemma ToNameFromName(name: string)
    ensures FromName(name).Some? ==> ToName(FromName(name).value) == name
  {
  }

  /** Distinct variants have distinct names. */
  lemma ToNameInjective(m1: Match, m2: Match)
    ensures ToName(m1) == ToName(m2) ==> m1 == m2
  {
    FromNameToName(m1);
    FromNameToName(m2);
  }

  /** The variant identifiers themselves are not accepted: names are case-sensitive. */
  lemma VariantIdentRejected(m: Match)
    ensures FromName(VariantIdent(m)) == None
  {
    assert VariantIdent(m)[0] != ToName(m)[0];
  }
}
