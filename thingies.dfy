/** The older, blocking versions of the library functions
    (src/zaphkiel/thingies.rs). They key everything by plain strings, have
    no sentinel filter, and run the per-location queries one after the
    other, so a panic in any of them is not swallowed. Their
    `get_locations_for` is the same pipeline as `Insights.GetLocationsFor`. */
module Thingies {
  import opened Wrappers
  import opened Counting
  import Insights
  import IsKat

  /** `get_display_name_for` over string ids: a hit answers from the cache
      without a query; a miss asks the store, caches the name under the id and
      returns it. */
  method GetDisplayNameFor(userId: string, store: Insights.Store, cache: Insights.NameCache<string>)
    returns (r: Fatal<string>)
    modifies store, cache
    ensures userId in old(cache.entries) ==>
      && r == Done(old(cache.entries)[userId])
      && cache.entries == old(cache.entries)
      && store.queries == old(store.queries)
    ensures userId !in old(cache.entries) ==> store.queries == old(store.queries) + 1
    ensures userId !in old(cache.entries) && userId in store.latestRow ==>
      && r == Done(store.latestRow[userId].displayName)
      && cache.entries == old(cache.entries)[userId := r.value]
    ensures userId !in old(cache.entries) && userId !in store.latestRow ==>
      r.Panic? && cache.entries == old(cache.entries)
  {
    if userId in cache.entries {
      return Done(cache.entries[userId]);
    }
    var row := store.FetchLatest(userId);
    if row.Panic? {
      return Panic(row.message);
    }
    var name := row.value.displayName;
    cache.entries := cache.entries[userId := name];
    r := Done(name);
  }

  /** The per-location closure: the user ids of the rows, unfiltered. */
  function UserIdSet(rows: seq<Insights.Row>): Fatal<set<string>>
  {
    match Insights.OccupantSet(rows, false)
    case Panic(m) => Panic(m)
    case Done(ids) => Done(set id | id in ids :: IsKat.IdToString(id))
  }

  /** Every user id of a finished closure's rows is in its set, and nothing
      else: no id is filtered out. */
  lemma UserIdSetMembers(rows: seq<Insights.Row>, x: string)
    requires UserIdSet(rows).Done?
    ensures x in UserIdSet(rows).value <==> exists i :: 0 <= i < |rows| && rows[i].userId == x
  {
    Insights.OccupantSetMembers(rows, false, IsKat.Id(x));
    if x in UserIdSet(rows).value {
      var id :| id in Insights.OccupantSet(rows, false).value && IsKat.IdToString(id) == x;
      Insights.OccupantSetMembers(rows, false, id);
    }
  }

  /** The closure mapped over the locations: query the location's pattern
      for the other users' rows and collect their user ids. */
  function Task(query: (string, string) -> seq<Insights.Row>, userId: string)
    : Insights.Location -> Fatal<set<string>>
  {
    l => UserIdSet(query(Insights.LocationPattern(l), userId))
  }

  /** `get_others_for`: for every user, the number of locations at which they
      were seen. Unlike the version in src/lib.rs, one closure that panics
      makes the whole call panic. */
  method GetOthersFor(userId: string, query: (string, string) -> seq<Insights.Row>, locations: set<Insights.Location>)
    returns (r: Fatal<map<string, nat>>)
    ensures r.Done? <==> forall l :: l in locations ==> Task(query, userId)(l).Done?
    ensures r.Done? ==> forall x :: CountOf(r.value, x) == |Contributors(Task(query, userId), locations, x)|
    ensures r.Done? ==> forall x :: x in r.value <==> exists l :: l in locations && Contributes(Task(query, userId), l, x)
    ensures r.Done? ==> forall x :: x in r.value ==> 1 <= r.value[x] <= |locations|
  {
    r := CountAcrossPlaces(locations, Task(query, userId), true);
  }

  /** Every user seen at a location whose closure finished is counted; no
      one is left out. */
  lemma EveryOccupantCounted(query: (string, string) -> seq<Insights.Row>, userId: string,
                             l: Insights.Location, i: nat)
    requires Task(query, userId)(l).Done?
    requires i < |query(Insights.LocationPattern(l), userId)|
    ensures Contributes(Task(query, userId), l, query(Insights.LocationPattern(l), userId)[i].userId)
  {
    UserIdSetMembers(query(Insights.LocationPattern(l), userId), query(Insights.LocationPattern(l), userId)[i].userId);
  }
}
