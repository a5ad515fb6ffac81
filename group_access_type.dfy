/** Who may join a group instance, decoded from the `groupAccessType(...)`
    modifier of a location string (src/zaphkiel/group_access_type.rs). */
module GroupAccessTypes {
  import opened Wrappers
  import opened Text

  /** `Other` is only the `Default`; no decoder produces it. */
  datatype GroupAccessType = Public | Plus | Members | Other

  /** The `match` of `From<String> for GroupAccessType` on an already lower-cased text. */
  function Decode(v: string): (r: Fatal<GroupAccessType>)
    ensures r.Done? <==> v in {"public", "plus", "members"}
    ensures r.Done? ==> r.value != Other
    ensures r == Done(Public) <==> v == "public"
    ensures r == Done(Plus) <==> v == "plus"
    ensures r == Done(Members) <==> v == "members"
    ensures r.Panic? ==> r.message == "Unknown group access type: " + v
  {
    if v == "public" then Done(Public)
    else if v == "plus" then Done(Plus)
    else if v == "members" then Done(Members)
    else Panic("Unknown group access type: " + v)
  }

  /** `From<String> for GroupAccessType`: lower-case, then match; anything else panics. */
  function FromString(value: string): (r: Fatal<GroupAccessType>)
    ensures r.Done? <==> ToLower(value) in {"public", "plus", "members"}
    ensures r.Done? ==> r.value != Other
    ensures r == Done(Public) <==> ToLower(value) == "public"
    ensures r == Done(Plus) <==> ToLower(value) == "plus"
    ensures r == Done(Members) <==> ToLower(value) == "members"
    ensures r.Panic? ==> r.message == "Unknown group access type: " + ToLower(value)
  {
    Decode(ToLower(value))
  }

  /** `From<&str> for GroupAccessType`: lower-cases, then `From<String>`
      lower-cases again; the result is the same as `From<String>`'s. */
  function FromStrRef(value: string): (r: Fatal<GroupAccessType>)
    ensures r == FromString(value)
  {
    ToLowerIdempotent(value);
    FromString(ToLower(value))
  }

  /** Decoding does not depend on the case of the letters. */
  lemma CaseInsensitive(value: string)
    ensures FromString(ToUpper(value)) == FromString(value)
    ensures FromString(ToLower(value)) == FromString(value)
  {
    ToLowerOfUpper(value);
    ToLowerIdempotent(value);
  }

  /** The variant's own name, as `#[derive(Debug)]` spells it. */
  function DebugName(g: GroupAccessType): string
  {
    match g
    case Public => "Public"
    case Plus => "Plus"
    case Members => "Members"
    case Other => "Other"
  }

  /** Every access type but `Other` decodes back from its own name; `Other` does not decode. */
  lemma DebugNameRoundTrip(g: GroupAccessType)
    ensures FromString(DebugName(g)) == if g == Other then Panic("Unknown group access type: other") else Done(g)
  {
    if g in {Public, Plus} {
      DebugNameRoundTripFirst(g);
    } else {
      DebugNameRoundTripSecond(g);
    }
  }

  lemma DebugNameRoundTripFirst(g: GroupAccessType)
    requires g in {Public, Plus}
    ensures FromString(DebugName(g)) == Done(g)
  {
    match g
    case Public => assert ToLower("Public") == "public";
    case Plus => assert ToLower("Plus") == "plus";
  }

  lemma DebugNameRoundTripSecond(g: GroupAccessType)
    requires g in {Members, Other}
    ensures FromString(DebugName(g)) == if g == Other then Panic("Unknown group access type: other") else Done(g)
  {
    match g
    case Members => assert ToLower("Members") == "members";
    case Other => assert ToLower("Other") == "other";
  }
}
