/** The server regions a world instance can be hosted in, decoded from the
    `region(...)` modifier of a location string (src/zaphkiel/world_regions.rs). */
module WorldRegions {
  import opened Wrappers
  import opened Text

  /** `Other` is only the `Default`; no decoder produces it. */
  datatype Regions = Other | USWest | US | USEast | Europe | Japan

  /** The lower-case spellings accepted for each region. */
  function Aliases(r: Regions): set<string>
  {
    match r
    case USWest => {"uswest", "usw", "us w", "us_w", "uw"}
    case US => {"us"}
    case USEast => {"useast", "use", "us e", "us_e", "ue"}
    case Europe => {"europe", "eu"}
    case Japan => {"japan", "jp"}
    case Other => {}
  }

  /** Every accepted spelling. */
  function AllAliases(): set<string>
  {
    Aliases(USWest) + Aliases(US) + Aliases(USEast) + Aliases(Europe) + Aliases(Japan)
  }

  /** The `match` of `From<String> for Regions` on an already lower-cased text. */
  function Decode(v: string): (r: Fatal<Regions>)
    ensures r.Done? <==> v in AllAliases()
    ensures r.Done? ==> r.value != Other && v in Aliases(r.value)
    ensures r.Panic? ==> r.message == "Unknown region: " + v
  {
    if v in {"uswest", "usw", "us w", "us_w", "uw"} then Done(USWest)
    else if v == "us" then Done(US)
    else if v in {"useast", "use", "us e", "us_e", "ue"} then Done(USEast)
    else if v in {"europe", "eu"} then Done(Europe)
    else if v in {"japan", "jp"} then Done(Japan)
    else Panic("Unknown region: " + v)
  }

  /** `From<String> for Regions`: lower-case, then match the alias lists; any
      other text panics. */
  function FromString(value: string): (r: Fatal<Regions>)
    ensures r.Done? <==> ToLower(value) in AllAliases()
    ensures r.Done? ==> r.value != Other && ToLower(value) in Aliases(r.value)
    ensures r.Panic? ==> r.message == "Unknown region: " + ToLower(value)
  {
    Decode(ToLower(value))
  }

  /** `From<&str> for Regions`: lower-cases and hands over to `From<String>`,
      which lower-cases again; the result is the same as `From<String>`'s. */
  function FromStrRef(value: string): (r: Fatal<Regions>)
    ensures r == FromString(value)
  {
    ToLowerIdempotent(value);
    FromString(ToLower(value))
  }

  /** `FromStr for Regions`: wraps `From<&str>` in `Ok`; it never returns `Err`
      (its error type is `std::string::ParseError`, which has no values). */
  function FromStr(s: string): (r: Fatal<Result<Regions, ()>>)
    ensures !(r.Done? && r.value.Err?)
    ensures r.Done? <==> FromString(s).Done?
    ensures r.Done? ==> r.value.value == FromString(s).value
  {
    match FromStrRef(s)
    case Done(region) => Done(Ok(region))
    case Panic(m) => Panic(m)
  }

  /** The alias lists do not overlap, so an accepted spelling names exactly one region. */
  lemma AliasesDisjoint(a: Regions, b: Regions, v: string)
    requires v in Aliases(a) && v in Aliases(b)
    ensures a == b
  {
  }

  /** Decoding does not depend on the case of the letters. */
  lemma CaseInsensitive(value: string)
    ensures FromString(ToUpper(value)) == FromString(value)
    ensures FromString(ToLower(value)) == FromString(value)
  {
    ToLowerOfUpper(value);
    ToLowerIdempotent(value);
  }

  /** The variant's own name, as `#[derive(Debug)]` spells it. */
  function DebugName(r: Regions): string
  {
    match r
    case Other => "Other"
    case USWest => "USWest"
    case US => "US"
    case USEast => "USEast"
    case Europe => "Europe"
    case Japan => "Japan"
  }

  /** Every region but `Other` decodes back from its own name; `Other` does not decode. */
  lemma DebugNameRoundTrip(r: Regions)
    ensures FromString(DebugName(r)) == if r == Other then Panic("Unknown region: other") else Done(r)
  {
    match r
    case Other => OtherNameRoundTrip();
    case USWest => USWestNameRoundTrip();
    case US => USNameRoundTrip();
    case USEast => USEastNameRoundTrip();
    case Europe => EuropeNameRoundTrip();
    case Japan => JapanNameRoundTrip();
  }

  lemma OtherNameRoundTrip()
    ensures FromString("Other") == Panic("Unknown region: other")
  {
    assert ToLower("Other") == "other";
  }

  lemma USWestNameRoundTrip()
    ensures FromString("USWest") == Done(USWest)
  {
    assert ToLower("USWest") == "uswest";
  }

  lemma USNameRoundTrip()
    ensures FromString("US") == Done(US)
  {
    assert ToLower("US") == "us";
  }

  lemma USEastNameRoundTrip()
    ensures FromString("USEast") == Done(USEast)
  {
    assert ToLower("USEast") == "useast";
  }

  lemma EuropeNameRoundTrip()
    ensures FromString("Europe") == Done(Europe)
  {
    assert ToLower("Europe") == "europe";
  }

  lemma JapanNameRoundTrip()
    ensures FromString("Japan") == Done(Japan)
  {
    assert ToLower("Japan") == "japan";
  }
}
