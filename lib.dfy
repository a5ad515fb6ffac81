/** The library functions of src/lib.rs: the read-through display-name
    cache, the locations a user was seen at, and the count of how many of
    those locations each other user shared. The database is abstract: each
    query is an input that returns the rows the store would return. */
module Insights {
  import opened Wrappers
  import opened Counting
  import IsKat
  import WorldInstances
  import GamelogJoinLeaves

  type Row = GamelogJoinLeaves.GamelogJoinLeaveRow
  type Location = WorldInstances.WorldInstance

  /** The store as seen by the display-name lookups. `latestRow` answers
      `where user_id like ? order by created_at desc limit 1` for each bound
      text (no key: no row); `queries` counts the lookups issued. */
  class Store {
    const latestRow: map<string, Row>
    var queries: nat

    constructor (latestRow: map<string, Row>)
      ensures this.latestRow == latestRow && queries == 0
    {
      this.latestRow := latestRow;
      queries := 0;
    }

    /** `fetch_one(..).unwrap()`: the newest row for the text, or a panic
        when there is none. */
    method FetchLatest(userId: string) returns (r: Fatal<Row>)
      modifies this
      ensures queries == old(queries) + 1
      ensures userId in latestRow ==> r == Done(latestRow[userId])
      ensures userId !in latestRow ==> r.Panic?
    {
      queries := queries + 1;
      if userId in latestRow {
        r := Done(latestRow[userId]);
      } else {
        r := Panic("called `Result::unwrap()` on an `Err` value: RowNotFound");
      }
    }
  }

  /** The shared `HashMap<K, Arc<str>>` of display names (behind its lock). */
  class NameCache<K(==)> {
    var entries: map<K, string>

    constructor ()
      ensures entries == map[]
    {
      entries := map[];
    }
  }

  /** `get_display_name_for`: a hit answers from the cache without a query;
      a miss asks the store for the user's newest row, caches its display
      name under the id (touching no other entry) and returns it. */
  method GetDisplayNameFor(userId: IsKat.Id, store: Store, cache: NameCache<IsKat.Id>)
    returns (r: Fatal<IsKat.Name>)
    modifies store, cache
    ensures userId in old(cache.entries) ==>
      && r == Done(IsKat.Name(old(cache.entries)[userId]))
      && cache.entries == old(cache.entries)
      && store.queries == old(store.queries)
    ensures userId !in old(cache.entries) ==> store.queries == old(store.queries) + 1
    ensures userId !in old(cache.entries) && IsKat.IdToString(userId) in store.latestRow ==>
      && r == Done(IsKat.Name(store.latestRow[IsKat.IdToString(userId)].displayName))
      && cache.entries == old(cache.entries)[userId := r.value.value]
    ensures userId !in old(cache.entries) && IsKat.IdToString(userId) !in store.latestRow ==>
      r.Panic? && cache.entries == old(cache.entries)
  {
    if userId in cache.entries {
      return Done(IsKat.NameFrom(cache.entries[userId]));
    }
    var row := store.FetchLatest(IsKat.IdToString(userId));
    if row.Panic? {
      return Panic(row.message);
    }
    var name := row.value.displayName;
    cache.entries := cache.entries[userId := name];
    r := Done(IsKat.NameFrom(name));
  }

  /** Asking twice for the same id gives the same name and queries the store
      at most once; the second call is a cache hit. */
  method LookupTwice(userId: IsKat.Id, store: Store, cache: NameCache<IsKat.Id>)
    returns (first: Fatal<IsKat.Name>, second: Fatal<IsKat.Name>)
    modifies store, cache
    ensures first.Done? ==> second == first
    ensures first.Done? ==> store.queries <= old(store.queries) + 1
    ensures userId in old(cache.entries) ==> store.queries == old(store.queries)
  {
    first := GetDisplayNameFor(userId, store, cache);
    if first.Panic? {
      return first, first;
    }
    second := GetDisplayNameFor(userId, store, cache);
  }

  /** `get_locations_for`: the parsed locations of the user's rows. Rows
      whose location does not parse add nothing; a row whose conversion
      panics takes the whole call down. */
  function GetLocationsFor(rows: seq<Row>): Fatal<set<Location>>
  {
    if rows == [] then Done({})
    else
      match GamelogJoinLeaves.FromRow(rows[0])
      case Panic(m) => Panic(m)
      case Done(record) =>
        match GetLocationsFor(rows[1..])
        case Panic(m) => Panic(m)
        case Done(rest) => Done(if record.location.Some? then {record.location.value} + rest else rest)
  }

  /** `get_locations_for` finishes exactly when every row converts. */
  lemma {:induction false} GetLocationsForDone(rows: seq<Row>)
    ensures GetLocationsFor(rows).Done? <==> forall i :: 0 <= i < |rows| ==> GamelogJoinLeaves.FromRow(rows[i]).Done?
  {
    if rows != [] {
      var tail := rows[1..];
      GetLocationsForDone(tail);
      assert forall i :: 0 < i < |rows| ==> rows[i] == tail[i - 1];
    }
  }

  /** When it finishes, it holds exactly the locations that parse. */
  lemma {:induction false} GetLocationsForMembers(rows: seq<Row>, w: Location)
    requires GetLocationsFor(rows).Done?
    ensures w in GetLocationsFor(rows).value <==>
      exists i :: 0 <= i < |rows| && WorldInstances.Parse(rows[i].location) == Done(Ok(w))
  {
    if rows != [] {
      var tail := rows[1..];
      GetLocationsForMembers(tail, w);
      if exists i :: 0 <= i < |rows| && WorldInstances.Parse(rows[i].location) == Done(Ok(w)) {
        var i :| 0 <= i < |rows| && WorldInstances.Parse(rows[i].location) == Done(Ok(w));
        if i > 0 {
          assert tail[i - 1] == rows[i];
        }
      }
      if exists i :: 0 <= i < |tail| && WorldInstances.Parse(tail[i].location) == Done(Ok(w)) {
        var i :| 0 <= i < |tail| && WorldInstances.Parse(tail[i].location) == Done(Ok(w));
        assert rows[i + 1] == tail[i];
      }
    }
  }

  /** The `LIKE` pattern bound for a location: its prefix followed by `%`. */
  function LocationPattern(l: Location): string
  {
    WorldInstances.GetPrefix(l) + "%"
  }

  /** One row of a task: convert it and unwrap its user id. */
  function RowOccupant(row: Row): (r: Fatal<IsKat.Id>)
    ensures r.Done? <==> GamelogJoinLeaves.FromRow(row).Done? && row.userId != ""
    ensures r.Done? ==> r.value == IsKat.Id(row.userId)
  {
    match GamelogJoinLeaves.FromRow(row)
    case Panic(m) => Panic(m)
    case Done(record) =>
      if record.userId.None? then Panic("called `Option::unwrap()` on a `None` value")
      else Done(IsKat.IdFrom(record.userId.value))
  }

  /** The body of one spawned task of `get_others_for`: the occupant of every
      row, less the sentinel id when its marker exists. The first panic ends
      the task. */
  function OccupantSet(rows: seq<Row>, katExists: bool): Fatal<set<IsKat.Id>>
  {
    if rows == [] then Done({})
    else
      match RowOccupant(rows[0])
      case Panic(m) => Panic(m)
      case Done(id) =>
        match OccupantSet(rows[1..], katExists)
        case Panic(m) => Panic(m)
        case Done(rest) => Done(if katExists && IsKat.IdIsKat(id) then rest else {id} + rest)
  }

  /** A task finishes exactly when every row converts and has a user id. */
  lemma {:induction false} OccupantSetDone(rows: seq<Row>, katExists: bool)
    ensures OccupantSet(rows, katExists).Done? <==> forall i :: 0 <= i < |rows| ==> RowOccupant(rows[i]).Done?
  {
    if rows != [] {
      var tail := rows[1..];
      OccupantSetDone(tail, katExists);
      assert forall i :: 0 < i < |rows| ==> rows[i] == tail[i - 1];
      assert (forall i :: 0 <= i < |rows| ==> RowOccupant(rows[i]).Done?) <==>
        RowOccupant(rows[0]).Done? && forall i :: 0 <= i < |tail| ==> RowOccupant(tail[i]).Done?;
    }
  }

  /** A finished task holds the user ids of its rows, less the sentinel when
      its marker exists. */
  lemma {:induction false} OccupantSetMembers(rows: seq<Row>, katExists: bool, x: IsKat.Id)
    requires OccupantSet(rows, katExists).Done?
    ensures x in OccupantSet(rows, katExists).value <==>
      (exists i :: 0 <= i < |rows| && rows[i].userId == x.value) && !(katExists && IsKat.IdIsKat(x))
  {
    if rows != [] {
      var rest := OccupantSet(rows[1..], katExists);
      assert rest.Done?;
      OccupantSetMembers(rows[1..], katExists, x);
      var id := RowOccupant(rows[0]).value;
      assert id == IsKat.Id(rows[0].userId);
      if exists i :: 0 <= i < |rows| && rows[i].userId == x.value {
        var i :| 0 <= i < |rows| && rows[i].userId == x.value;
        if i > 0 {
          assert rows[1..][i - 1].userId == x.value;
        }
      }
      if exists i :: 0 <= i < |rows[1..]| && rows[1..][i].userId == x.value {
        var i :| 0 <= i < |rows[1..]| && rows[1..][i].userId == x.value;
        assert rows[i + 1].userId == x.value;
      }
    }
  }

  /** With the marker present, no task ever reports the sentinel. */
  lemma OccupantSetDropsSentinel(rows: seq<Row>)
    ensures OccupantSet(rows, true).Done? ==> IsKat.KatId !in OccupantSet(rows, true).value
  {
    if OccupantSet(rows, true).Done? {
      OccupantSetMembers(rows, true, IsKat.KatId);
    }
  }

  /** The spawned task for one location: `query(pattern, user)` stands for
      the rows whose location is `LIKE` the pattern and whose user id is set
      and differs from the user's. */
  function Task(query: (string, string) -> seq<Row>, userId: IsKat.Id, katExists: bool): Location -> Fatal<set<IsKat.Id>>
  {
    l => OccupantSet(query(LocationPattern(l), IsKat.IdToString(userId)), katExists)
  }

  /** `get_others_for`: for every other user, the number of the given
      locations at which they were seen. A task that panics is swallowed by
      the `JoinSet` and counts for nobody; with the sentinel marker present
      the sentinel is never counted. Tasks complete in any order. */
  method GetOthersFor(userId: IsKat.Id, query: (string, string) -> seq<Row>, locations: set<Location>, katExists: bool)
    returns (everyoneElse: map<IsKat.Id, nat>)
    ensures forall x :: CountOf(everyoneElse, x) == |Contributors(Task(query, userId, katExists), locations, x)|
    ensures forall x :: x in everyoneElse <==> exists l :: l in locations && Contributes(Task(query, userId, katExists), l, x)
    ensures forall x :: x in everyoneElse ==> 1 <= everyoneElse[x] <= |locations|
    ensures katExists ==> IsKat.KatId !in everyoneElse
  {
    var counted := CountAcrossPlaces(locations, Task(query, userId, katExists), false);
    everyoneElse := counted.value;
    if katExists && IsKat.KatId in everyoneElse {
      var l :| l in locations && Contributes(Task(query, userId, katExists), l, IsKat.KatId);
      OccupantSetDropsSentinel(query(LocationPattern(l), IsKat.IdToString(userId)));
      assert false;
    }
  }

  /** Locations are told apart by every field, modifiers included, while the
      query only looks at the prefix: when two locations share a prefix, both
      are queried, and whoever was at one is counted twice. */
  lemma SamePrefixCountedTwice(query: (string, string) -> seq<Row>, userId: IsKat.Id, katExists: bool,
                               locations: set<Location>, l1: Location, l2: Location, x: IsKat.Id)
    requires l1 in locations && l2 in locations && l1 != l2
    requires WorldInstances.GetPrefix(l1) == WorldInstances.GetPrefix(l2)
    requires Contributes(Task(query, userId, katExists), l1, x)
    ensures |Contributors(Task(query, userId, katExists), locations, x)| >= 2
  {
    var c := Contributors(Task(query, userId, katExists), locations, x);
    assert LocationPattern(l1) == LocationPattern(l2);
    ContributorsMember(Task(query, userId, katExists), locations, l1, x);
    ContributorsMember(Task(query, userId, katExists), locations, l2, x);
    assert {l1, l2} <= c;
    SubsetCardinality({l1, l2}, c);
  }
}
