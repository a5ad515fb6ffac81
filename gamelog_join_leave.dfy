/** One row of the `gamelog_join_leave` table, as read from the store and as
    converted for use (src/zaphkiel/gamelog_join_leave.rs). */
module GamelogJoinLeaves {
  import opened Wrappers
  import JoinLeaveEvents
  import WorldInstances

  /** Rust's `i64` and `i32`. */
  type I64 = x: int | -0x8000_0000_0000_0000 <= x < 0x8000_0000_0000_0000
  type I32 = x: int | -0x8000_0000 <= x < 0x8000_0000

  /** `GamelogJoinLeaveRow`: the raw columns. */
  datatype GamelogJoinLeaveRow = GamelogJoinLeaveRow(
    id: I64,
    createdAt: string,
    eventType: string,
    displayName: string,
    location: string,
    userId: string,
    time: I32)

  /** `GamelogJoinLeave`: the decoded record. The timestamp is kept as its text. */
  datatype GamelogJoinLeave = GamelogJoinLeave(
    id: I64,
    createdAt: string,
    event: JoinLeaveEvents.JoinLeaveEvent,
    displayName: string,
    location: Option<WorldInstances.WorldInstance>,
    userId: Option<string>,
    time: Option<nat>)

  /** `From<GamelogJoinLeaveRow> for GamelogJoinLeave`. The event type must
      decode (an unknown one panics), a location that fails to parse becomes
      `None` (but one whose parse panics takes the conversion down with it), an
      empty user id becomes `None`, and a time that is not positive becomes `None`. */
  function FromRow(row: GamelogJoinLeaveRow): (r: Fatal<GamelogJoinLeave>)
    ensures r.Done? <==>
      JoinLeaveEvents.FromString(row.eventType).Done? && WorldInstances.Parse(row.location).Done?
    ensures r.Done? ==>
      && r.value.id == row.id
      && r.value.createdAt == row.createdAt
      && r.value.displayName == row.displayName
      && r.value.event == JoinLeaveEvents.FromString(row.eventType).value
      && r.value.event != JoinLeaveEvents.Other
    ensures r.Done? ==>
      && (r.value.location.None? <==> WorldInstances.Parse(row.location).value.Err?)
      && (r.value.location.Some? ==> WorldInstances.Parse(row.location) == Done(Ok(r.value.location.value)))
    ensures r.Done? ==>
      && (r.value.userId.None? <==> row.userId == "")
      && (r.value.userId.Some? ==> r.value.userId.value == row.userId)
    ensures r.Done? ==>
      && (r.value.time.None? <==> row.time <= 0)
      && (r.value.time.Some? ==> r.value.time.value == row.time)
  {
    match JoinLeaveEvents.FromStr(row.eventType)
    case Panic(m) => Panic(m)
    case Done(event) =>
      match WorldInstances.Parse(row.location)
      case Panic(m) => Panic(m)
      case Done(parsed) =>
        Done(GamelogJoinLeave(
          row.id,
          row.createdAt,
          event.value,
          row.displayName,
          if parsed.Ok? then Some(parsed.value) else None,
          if row.userId == "" then None else Some(row.userId),
          if row.time <= 0 then None else Some(row.time)))
  }

  /** A row with an empty location column converts with no location. */
  lemma EmptyLocationIsNone(row: GamelogJoinLeaveRow)
    requires row.location == ""
    requires JoinLeaveEvents.FromString(row.eventType).Done?
    ensures FromRow(row).Done? && FromRow(row).value.location.None?
  {
    WorldInstances.ParseErrorClasses(row.location);
  }
}
