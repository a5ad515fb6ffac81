/** The kind of a presence-log row, decoded from its `type` column
    (src/zaphkiel/join_leave_event.rs). */
module JoinLeaveEvents {
  import opened Wrappers
  import opened Text

  /** `Other` is only the `Default`; no decoder produces it. */
  datatype JoinLeaveEvent = Join | Leave | Other

  /** The lower-case spellings accepted for each kind. */
  function Aliases(e: JoinLeaveEvent): set<string>
  {
    match e
    case Join => {"join", "joins", "joined", "onplayerjoined"}
    case Leave => {"leave", "leaves", "left", "onplayerleft"}
    case Other => {}
  }

  /** The `match` of `From<String> for JoinLeaveEvent` on an already lower-cased text. */
  function Decode(v: string): (r: Fatal<JoinLeaveEvent>)
    ensures r.Done? <==> v in Aliases(Join) + Aliases(Leave)
    ensures r.Done? ==> r.value != Other && v in Aliases(r.value)
    ensures r.Panic? ==> r.message == "Unknown join/leave event: " + v
  {
    if v in {"join", "joins", "joined", "onplayerjoined"} then Done(Join)
    else if v in {"leave", "leaves", "left", "onplayerleft"} then Done(Leave)
    else Panic("Unknown join/leave event: " + v)
  }

  /** `From<String> for JoinLeaveEvent`: lower-case, then match; anything else panics. */
  function FromString(value: string): (r: Fatal<JoinLeaveEvent>)
    ensures r.Done? <==> ToLower(value) in Aliases(Join) + Aliases(Leave)
    ensures r.Done? ==> r.value != Other && ToLower(value) in Aliases(r.value)
    ensures r.Panic? ==> r.message == "Unknown join/leave event: " + ToLower(value)
  {
    Decode(ToLower(value))
  }

  /** `From<&str> for JoinLeaveEvent`: lower-cases, then `From<String>` lower-cases
      again; the result is the same as `From<String>`'s. */
  function FromStrRef(value: string): (r: Fatal<JoinLeaveEvent>)
    ensures r == FromString(value)
  {
    ToLowerIdempotent(value);
    FromString(ToLower(value))
  }

  /** `FromStr for JoinLeaveEvent`: `Ok(From<&str>)`; it never returns `Err`. */
  function FromStr(s: string): (r: Fatal<Result<JoinLeaveEvent, ()>>)
    ensures !(r.Done? && r.value.Err?)
    ensures r.Done? <==> FromString(s).Done?
    ensures r.Done? ==> r.value.value == FromString(s).value
  {
    match FromStrRef(s)
    case Done(e) => Done(Ok(e))
    case Panic(m) => Panic(m)
  }

  /** Decoding does not depend on the case of the letters. */
  lemma CaseInsensitive(value: string)
    ensures FromString(ToUpper(value)) == FromString(value)
    ensures FromString(ToLower(value)) == FromString(value)
  {
    ToLowerOfUpper(value);
    ToLowerIdempotent(value);
  }

  /** The variant's own name, as `#[derive(Debug)]` spells it. */
  function DebugName(e: JoinLeaveEvent): string
  {
    match e
    case Join => "Join"
    case Leave => "Leave"
    case Other => "Other"
  }

  /** `Join` and `Leave` decode back from their own names; `Other` does not decode. */
  lemma DebugNameRoundTrip(e: JoinLeaveEvent)
    ensures FromString(DebugName(e)) == if e == Other then Panic("Unknown join/leave event: other") else Done(e)
  {
    match e
    case Join => JoinNameRoundTrip();
    case Leave => LeaveNameRoundTrip();
    case Other => OtherNameRoundTrip();
  }

  lemma JoinNameRoundTrip()
    ensures FromString("Join") == Done(Join)
  {
    assert ToLower("Join") == "join";
  }

  lemma LeaveNameRoundTrip()
    ensures FromString("Leave") == Done(Leave)
  {
    assert ToLower("Leave") == "leave";
  }

  lemma OtherNameRoundTrip()
    ensures FromString("Other") == Panic("Unknown join/leave event: other")
  {
    assert ToLower("Other") == "other";
  }
}
