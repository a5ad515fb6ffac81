# vrcx-insights, modelled in Dafny

vrcx-insights reads a VRChat presence log (rows of "who joined or left which
world instance, when") and builds a co-occurrence graph around one user. It
records who was seen with whom, and at how many distinct locations.

This project models the in-memory core of that program and proves properties
of it:

- **Parsing.** The location parser (`WorldInstance::from_str`, `get_prefix`)
  and its error classes. The three string-to-enum decoders: regions,
  join/leave events and group access types.
- **Rows.** The conversion of a raw log row into a record.
- **Library functions.** The read-through display-name cache
  (`get_display_name_for`). The parsed locations of a user
  (`get_locations_for`). The count of how many of those locations each other
  user shared (`get_others_for`). The model covers the library's version in
  `src/lib.rs` and the older blocking version in `src/zaphkiel/thingies.rs`.
- **Graph post-processing** in `src/main.rs`:
  - the sentinel filter;
  - per-node normalisation into `Metadata`;
  - the name-ordered, count-sorted view and its set view;
  - the in-place build of the undirected adjacency;
  - the sort of that adjacency by degree.
- **Value types.** The sentinel test and the `Id`/`Name` wrappers.
  `Metadata`'s equality, order and serialised form. The shared
  `ArcStrMap`/`ArcStrSet`. The `Vertex` counter bag.

## How the source is represented

- **One module per source file.** `Wrappers` holds `Option`, `Result` and
  `Fatal`. `Text` holds the string calls the source makes: `split`, `find`
  and ASCII `to_lowercase`.
- **Panics.** A `panic!`, an `unwrap` on a failure, or an unknown key is a
  `Fatal` outcome, `Panic(message)`. It is not a precondition. There are two
  exceptions, where the source itself demands something of its callers:
  - `Name::is_kat` needs the sentinel display name to be set;
  - `Metadata::cmp` needs two values of the same node.
- **The database is abstract.** Each query is an input:
  - `Insights.Store` answers the "latest row for a user" query and counts the
    queries it issues;
  - a function `(pattern, user) -> rows` answers the per-location query.
- **Iteration order is left open.** Where the source iterates a `HashSet` or
  `HashMap`, or takes `JoinSet` results as they complete, the loop picks the
  next element with `:|`.
- **Code that changes state is imperative:**
  - the `~`-segment loop of `from_str`;
  - the counting loops of `get_others_for`;
  - the cache writes;
  - `ArcStrMap` (a class over a shared cell with a strong count);
  - `Vertex::add`;
  - the adjacency build;
  - the degree sort, an in-place sort of an `array`.

  Each such method is proved against a function or a stated property. The
  iterator pipelines are functions.
- **Number formats.** `u32` counts are `nat`. The `f64` statistics are
  integer hundredths, rounded half away from zero with `(2a + b) / (2b)`.

## Behaviour worth knowing

- **Node order of the sorted graph.** The sorted graph is a `BTreeMap`
  (src/main.rs:203), so its nodes come out in name order. Only the edges of
  each node are sorted by count.
- **Distinct locations.** Locations are told apart by the whole
  `WorldInstance`, modifiers included (src/zaphkiel/world_instance.rs:6,
  src/lib.rs:108). The per-location query only uses the prefix. So two
  variants of one instance are queried separately, and whoever was there is
  counted twice (`Insights.SamePrefixCountedTwice`).
- **Failed per-location tasks.** `src/lib.rs` keeps only the `Ok` results
  of its `JoinSet` (src/lib.rs:155), so a per-location task that panicked
  counts for nobody and does not end the run. The blocking version in
  `thingies.rs` unwraps every query, so there a panic ends the run.
- **Unparseable locations.** A location that fails to parse becomes `None`
  in a converted row; it is not an error. Only an unknown modifier key, an
  unknown region or an unknown access type panics.
- **No zero-total guard.** The normalisation divides by the node total
  without checking it. The total is never zero, because every count is at
  least 1 and the filter drops edgeless nodes
  (`CoOccurrenceGraph.FilteredIsNormalisable`).
- **Percentile can round to 100.00.** The `+1` added to `max` keeps the
  unrounded percentile below 100.00, but rounding can still reach it: a count
  of 19999 under a `max` of 20000 gives 99.995, which rounds to 100.00
  (`CoOccurrenceGraph.PercentileCanReachHundred`).
- **Percentages add up to 100.00 only up to rounding.** Each is rounded to
  a hundredth on its own, so their sum can miss 100.00 by up to half a
  hundredth per edge (`CoOccurrenceGraph.PercentagesSumToHundred`).

## Model

| member | source | states |
|---|---|---|
| Text.ToLower | src/zaphkiel/world_regions.rs:26 | ASCII `to_lowercase`: same length, each letter lowered, every other character kept |
| Text.ToLowerIdempotent | src/zaphkiel/world_regions.rs:14-19 | lower-casing twice (as `From<&str>` then `From<String>` do) equals lower-casing once |
| Text.Split | src/zaphkiel/world_instance.rs:69 | `split(c)` always yields at least one piece |
| Text.SplitLength | src/zaphkiel/world_instance.rs:69-72 | `split(c)` yields one more piece than there are `c`s, so "exactly two parts" means "exactly one `:`" |
| Text.SplitHead | src/zaphkiel/world_instance.rs:79-80 | the first piece of `split(c)` is the text before the first `c` |
| Text.SplitJoin | src/zaphkiel/world_instance.rs:69 | joining the pieces of `split(c)` with `c` gives the text back |
| Text.JoinSplit | src/zaphkiel/world_instance.rs:69 | splitting pieces joined by `c` gives them back, when no piece contains `c` |
| WorldRegions.Decode | src/zaphkiel/world_regions.rs:27-35 | succeeds iff the text is in one of the alias lists; the result is never `Other` and its alias list holds the text; otherwise panics with "Unknown region: " and the text |
| WorldRegions.FromString | src/zaphkiel/world_regions.rs:23-37 | the same, on the lower-cased input |
| WorldRegions.FromStrRef | src/zaphkiel/world_regions.rs:14-20 | `From<&str>` gives the same outcome as `From<String>` on every input |
| WorldRegions.FromStr | src/zaphkiel/world_regions.rs:39-46 | never returns `Err`; succeeds iff `From<String>` does, with the same region |
| WorldRegions.AliasesDisjoint | src/zaphkiel/world_regions.rs:28-32 | no spelling is accepted for two regions |
| WorldRegions.CaseInsensitive | src/zaphkiel/world_regions.rs:26 | upper- and lower-casing the input do not change the outcome |
| WorldRegions.DebugNameRoundTrip | src/zaphkiel/world_regions.rs:4-34 | every region but `Other` decodes from its own name; `Other` panics |
| JoinLeaveEvents.Decode | src/zaphkiel/join_leave_event.rs:22-28 | succeeds iff the text is a `Join` or `Leave` alias; never `Other`; otherwise panics with "Unknown join/leave event: " and the text |
| JoinLeaveEvents.FromString | src/zaphkiel/join_leave_event.rs:19-30 | the same, on the lower-cased input |
| JoinLeaveEvents.FromStrRef | src/zaphkiel/join_leave_event.rs:11-16 | `From<&str>` gives the same outcome as `From<String>` |
| JoinLeaveEvents.FromStr | src/zaphkiel/join_leave_event.rs:32-38 | never returns `Err`; succeeds iff `From<String>` does, with the same kind |
| JoinLeaveEvents.CaseInsensitive | src/zaphkiel/join_leave_event.rs:21 | the case of the letters does not change the outcome |
| JoinLeaveEvents.DebugNameRoundTrip | src/zaphkiel/join_leave_event.rs:4-27 | `Join` and `Leave` decode from their own names; `Other` panics |
| GroupAccessTypes.Decode | src/zaphkiel/group_access_type.rs:23-28 | `public`, `plus` and `members` map to `Public`, `Plus` and `Members`, each an if-and-only-if; never `Other`; anything else panics with "Unknown group access type: " and the text |
| GroupAccessTypes.FromString | src/zaphkiel/group_access_type.rs:19-30 | succeeds iff the lower-cased input is one of the three names; `Public`, `Plus` and `Members` each iff the lower-cased input is its name; never `Other`; otherwise panics with "Unknown group access type: " and the lower-cased input |
| GroupAccessTypes.FromStrRef | src/zaphkiel/group_access_type.rs:10-16 | `From<&str>` gives the same outcome as `From<String>` |
| GroupAccessTypes.CaseInsensitive | src/zaphkiel/group_access_type.rs:22 | the case of the letters does not change the outcome |
| GroupAccessTypes.DebugNameRoundTrip | src/zaphkiel/group_access_type.rs:1-27 | every access type but `Other` decodes from its own name; `Other` panics |
| WorldInstances.New | src/zaphkiel/world_instance.rs:24-26 | empty ids and no modifiers |
| WorldInstances.GetPrefix | src/zaphkiel/world_instance.rs:28-32 | `world_id:instance_id`. `PrefixRoundTrip` parses it back, and `ParsePrefix` finds it at the head of a parsed text |
| WorldInstances.FromStr | src/zaphkiel/world_instance.rs:61-106 | the loop that fills `ret` segment by segment returns exactly what the functional specification `Parse` gives |
| WorldInstances.Parse | src/zaphkiel/world_instance.rs:61-106 | what `from_str` computes: the four shape checks in order, then the segment loop starting from the instance id's own piece. `ParseErrorClasses` characterises its errors and `ParseSucceeds` its successes |
| WorldInstances.ParseSegment | src/zaphkiel/world_instance.rs:85-102 | one turn of the loop returns exactly what `ApplySegment` specifies: a segment without `(` is skipped; a known key overwrites its field; a region or access value that does not decode panics; an unknown key panics with "Unknown key: " |
| WorldInstances.FromUnwrap | src/zaphkiel/world_instance.rs:109-123 | succeeds iff `from_str` returns `Ok`, with that value; every parse error becomes a panic |
| WorldInstances.ParseErrorClasses | src/zaphkiel/world_instance.rs:62-82 | on the raw text, both directions: `Empty` iff empty; `InvalidFormat` iff not exactly one `:`; `InvalidWorldId` iff it starts with `:`; `InvalidInstanceId` iff nothing precedes the first `~` after the `:`; `InvalidOptionalField` and `Other` never occur |
| WorldInstances.ParseOkParts | src/zaphkiel/world_instance.rs:68-83 | on success there is one `:`; the world id is the non-empty text before it; the instance id is the non-empty text after it, up to the first `~` |
| WorldInstances.ParseOkShape | src/zaphkiel/world_instance.rs:30-83 | on success `world_id:instance_id` is a prefix of the input, followed by the end or a `~`; neither id holds a `:`, and the instance id holds no `~` |
| WorldInstances.ParsePrefix | src/zaphkiel/world_instance.rs:30-32 | on success `get_prefix` is the input up to its first `~`, when the world id has no `~` |
| WorldInstances.ApplySegmentsKeepsIds | src/zaphkiel/world_instance.rs:85-103 | the modifier loop never changes the two ids |
| WorldInstances.LastValueWins | src/zaphkiel/world_instance.rs:85-103 | each modifier holds the value of the LAST segment naming it (the text after the first `(`, up to the next `(` or `)`, whichever comes first: `n(a(b)` gives `a`), decoded for region and access type; a segment without `(` has no effect |
| WorldInstances.UnknownKeyPanics | src/zaphkiel/world_instance.rs:93-101 | if the loop finishes, every segment with a `(` named a known key |
| WorldInstances.ParseRejectsUnknownKeys | src/zaphkiel/world_instance.rs:85-101 | a successful parse has only known modifier keys |
| WorldInstances.ApplySegmentsDone | src/zaphkiel/world_instance.rs:85-103 | the loop finishes iff every segment is accepted: it has no `(`, or its key is known and, for region and access type, its value decodes (the converse of `UnknownKeyPanics`) |
| WorldInstances.ParseSucceeds | src/zaphkiel/world_instance.rs:61-106 | `from_str` returns `Ok` iff the text is non-empty, has one `:`, does not start with `:`, has an instance id, and every `~`-segment is accepted; both directions |
| WorldInstances.SegmentValueStopsAtParen | src/zaphkiel/world_instance.rs:86-91 | a second `(` ends the value as a `)` does: `n(a(b)` has key `n` and value `a` |
| WorldInstances.PrefixRoundTrip | src/zaphkiel/world_instance.rs:30-32 | parsing `get_prefix(w)` gives back `w`, for a `w` with no modifiers and ids free of separators |
| WorldInstances.ParseOneModifier | src/zaphkiel/world_instance.rs:85-103 | `world:instance~key(value)` parses to the ids with that one modifier applied, or panics as that modifier does |
| WorldInstances.ParseExample | src/zaphkiel/world_instance.rs:132-152 | `world_id:instance_id~region(EU)` parses to region `Europe` with every other modifier unset |
| GamelogJoinLeaves.FromRow | src/zaphkiel/gamelog_join_leave.rs:47-70 | succeeds iff the event type decodes and the location parse does not panic; id, timestamp text and display name are copied; location `None` iff the parse errs, else the parsed value; user id `None` iff empty; time `None` iff not positive, else the time |
| GamelogJoinLeaves.EmptyLocationIsNone | src/zaphkiel/gamelog_join_leave.rs:54-58 | an empty location converts to `None` |
| IsKat.IdIsKat | src/zaphkiel/is_kat.rs:73-78 | an id is the sentinel iff it equals `KAT_ID` |
| IsKat.NameIsKat | src/zaphkiel/is_kat.rs:132-137 | a name is the sentinel iff it equals the display name, which must have been set |
| IsKat.StrIsKat | src/zaphkiel/is_kat.rs:14-19 | panics iff the text is not `KAT_ID`'s text and the display name is unset (the `unwrap` behind the short-circuiting `||`); otherwise true iff the text is the id or the display name |
| IsKat.IdFrom | src/zaphkiel/is_kat.rs:38-64 | the four `From` conversions into `Id` wrap the text unchanged; `WrapperRoundTrips` undoes them |
| IsKat.NameFrom | src/zaphkiel/is_kat.rs:97-109 | the two `From` conversions into `Name` wrap the text unchanged; `WrapperRoundTrips` undoes them |
| IsKat.WrapperRoundTrips | src/zaphkiel/is_kat.rs:31-116 | wrapping text in `Id` or `Name` and unwrapping it gives the text back, and the other way round |
| IsKat.StrIsKatIsIdOrName | src/zaphkiel/is_kat.rs:14-19 | once the display name is set, the test on raw text finishes and holds iff the text is the sentinel id or the sentinel display name |
| EdgeMetadata.CompareCounts | src/zaphkiel/metadata.rs:107 | `Less`, `Equal` and `Greater` each iff the matching comparison of the counts holds |
| EdgeMetadata.Eq | src/zaphkiel/metadata.rs:17-30 | equal iff `count`, `total` and `max` agree; `EqIsEquivalence` and `EqIgnoresStatistics` are proved of it |
| EdgeMetadata.PartialCmp | src/zaphkiel/metadata.rs:97-116 | `Some` iff `total` and `max` agree; `Some(Equal)` iff the two are `==`; otherwise ordered by `count` |
| EdgeMetadata.Cmp | src/zaphkiel/metadata.rs:118-123 | within one node, `cmp` is `partial_cmp` unwrapped |
| EdgeMetadata.EqIsEquivalence | src/zaphkiel/metadata.rs:17-30 | equality is reflexive, symmetric and transitive, as `Eq` promises |
| EdgeMetadata.EqIgnoresStatistics | src/zaphkiel/metadata.rs:17-30 | equality ignores `percentage` and `percentile` |
| EdgeMetadata.CmpIsTotalWithinNode | src/zaphkiel/metadata.rs:118-123 | within one node the order is antisymmetric and transitive, and any two values compare |
| EdgeMetadata.Serialize | src/zaphkiel/metadata.rs:32-54 | a 5-tuple: count, max, total, percentage, percentile |
| EdgeMetadata.SerializeInjective | src/zaphkiel/metadata.rs:38-52 | the tuple determines every field |
| Counting.Bump | src/lib.rs:164-165 | the key's count becomes its old count (0 if absent) plus 1; every other count is unchanged |
| Counting.CountAll | src/lib.rs:163-166 | every element of the set gets one more count, whatever the iteration order; counts stay at least 1 |
| Counting.MergeCounts | src/lib.rs:160-167 | each count is the number of sets holding the key; the keys are the union of the sets; every count is at least 1 |
| Counting.CountAcrossPlaces | src/lib.rs:113-167 | the count for X is the number of places whose finished task holds X; the keys are exactly those Xs; each count is between 1 and the number of places; in strict mode any task panic is fatal, otherwise it is skipped |
| Cache.ArcStrMap.New | src/zaphkiel/cache.rs:181-185 | a fresh, empty, unshared map |
| Cache.ArcStrMap.NewEmptyArcStr | src/zaphkiel/cache.rs:76-79 | a fresh, empty, unshared map |
| Cache.ArcStrMap.Clone | src/zaphkiel/cache.rs:36-39 | the clone shares the same map; the strong count rises by one; the entries are unchanged |
| Cache.ArcStrMap.Get | src/zaphkiel/cache.rs:137-139 | `Some` iff the key is present, with its stored value |
| Cache.ArcStrMap.Keys | src/zaphkiel/cache.rs:154-156 | exactly the present keys |
| Cache.ArcStrMap.Values | src/zaphkiel/cache.rs:148-150 | exactly the stored values |
| Cache.ArcStrMap.Len | src/zaphkiel/cache.rs:189-191 | the number of keys |
| Cache.ArcStrMap.IsEmpty | src/zaphkiel/cache.rs:195-197 | true iff there are no keys |
| Cache.ArcStrMap.Insert | src/zaphkiel/cache.rs:142-144 | unshared: stores the value and returns the previous one; shared: returns `None` and changes nothing |
| Cache.InsertSet | src/zaphkiel/cache.rs:120-122 | returns true iff the map is unshared and the key was ALREADY present; the key is added when unshared |
| Cache.NewIsEmpty | src/zaphkiel/cache.rs:181-197 | both constructors give length 0 and `is_empty` true |
| Cache.CloneSharesEntries | src/zaphkiel/cache.rs:32-40 | a clone sees earlier writes, and after cloning no handle can write |
| Vertices.Vertex.constructor | src/zaphkiel/vertex.rs:17-22 | the given name and no neighbours |
| Vertices.HashOf | src/zaphkiel/vertex.rs:10-14 | only the name is hashed; `HashAgreesWithEq` relates it to equality |
| Vertices.Vertex.Add | src/zaphkiel/vertex.rs:26-29 | the name is kept; `other`'s count becomes its old count (0 if absent) plus 1; every other count is kept |
| Vertices.HashAgreesWithEq | src/zaphkiel/vertex.rs:4-14 | equal vertices hash equally; hashes agree iff the names do |
| Vertices.AddTwice | src/zaphkiel/vertex.rs:26-29 | adding the same vertex twice counts it twice and keeps the hash |
| Insights.Store.FetchLatest | src/lib.rs:64-75 | one more query; the user's newest row, or a panic when there is none |
| Insights.GetDisplayNameFor | src/lib.rs:51-82 | hit: the cached name, no query, cache unchanged. Miss: exactly one query; the newest row's display name is returned and cached under the id, no other entry is touched; no row means a panic |
| Insights.LookupTwice | src/lib.rs:60-81 | the second lookup returns the first one's name, and at most one query is issued |
| Insights.GetLocationsFor | src/lib.rs:84-101 | the rows converted in order, the first panic ending the call, each parsed location collected into a set; `GetLocationsForDone` and `GetLocationsForMembers` state its outcome |
| Insights.GetLocationsForDone | src/lib.rs:97-100 | `get_locations_for` finishes iff every row converts |
| Insights.GetLocationsForMembers | src/lib.rs:84-101 | when it finishes, it holds exactly the locations that parse without error, one per distinct value |
| Insights.RowOccupant | src/lib.rs:137-140 | finishes iff the row converts and has a user id, and gives that id |
| Insights.OccupantSet | src/lib.rs:137-142 | one task's set: each row's user id, less the sentinel when its marker exists; `OccupantSetDone` and `OccupantSetMembers` state its outcome |
| Insights.OccupantSetDone | src/lib.rs:137-142 | a task finishes iff every row converts and has a user id |
| Insights.OccupantSetMembers | src/lib.rs:139-142 | a finished task holds exactly its rows' user ids, less the sentinel when its marker exists |
| Insights.OccupantSetDropsSentinel | src/lib.rs:141 | with the marker, no task holds the sentinel id |
| Insights.LocationPattern | src/lib.rs:127-128 | the `LIKE` pattern bound for a location: its prefix followed by `%` |
| Insights.Task | src/lib.rs:116-149 | the task spawned for a location queries its pattern for other users and yields their occupant set |
| Insights.GetOthersFor | src/lib.rs:103-170 | the count for X is the number of locations whose finished task holds X; the keys are exactly those Xs; each count is between 1 and the number of locations; with the marker the sentinel is never a key; panicking tasks are skipped |
| Insights.SamePrefixCountedTwice | src/lib.rs:116-128 | two distinct locations with one prefix both count for whoever was at either |
| Thingies.GetDisplayNameFor | src/zaphkiel/thingies.rs:32-59 | hit: the cached name, no query. Miss: one query; the newest row's name is returned and cached under the id; no row means a panic |
| Thingies.UserIdSet | src/zaphkiel/thingies.rs:113-117 | the closure's set: each row's user id, unwrapped, with no filter; `UserIdSetMembers` states its outcome |
| Thingies.Task | src/zaphkiel/thingies.rs:93-118 | the closure for a location queries its pattern and yields the user ids of the rows |
| Thingies.UserIdSetMembers | src/zaphkiel/thingies.rs:113-117 | a finished closure holds exactly its rows' user ids, with nothing filtered |
| Thingies.GetOthersFor | src/zaphkiel/thingies.rs:82-160 | finishes iff every location's closure does; counts, keys and bounds as in the library version, with no sentinel filter |
| Thingies.EveryOccupantCounted | src/zaphkiel/thingies.rs:113-128 | every user id of a finished closure counts for that location |
| CoOccurrenceGraph.KeptEdges | src/main.rs:136-140 | keeps exactly the edges not dropped as the sentinel, with their counts |
| CoOccurrenceGraph.FilterSentinel | src/main.rs:130-147 | the filtered graph; `FilterSentinelMembers`, `FilterSentinelSpec` and `FilterKeepsAllWithoutMarker` state what it keeps |
| CoOccurrenceGraph.FilterSentinelMembers | src/main.rs:130-147 | a node survives iff it is not the dropped sentinel and keeps an edge; it keeps exactly its surviving edges |
| CoOccurrenceGraph.FilterSentinelSpec | src/main.rs:130-147 | every surviving node has an edge; with the marker the sentinel is neither a node nor an edge target |
| CoOccurrenceGraph.FilterKeepsAllWithoutMarker | src/main.rs:133-143 | without the marker every node with edges survives, keeping all its edges |
| CoOccurrenceGraph.Sum | src/main.rs:163 | every count is at most the total; an empty map sums to 0 |
| CoOccurrenceGraph.SumRemove | src/main.rs:163 | the sum does not depend on visiting order: any key can be taken out first |
| CoOccurrenceGraph.MaxOf | src/main.rs:164 | an upper bound of the counts, attained by some edge |
| CoOccurrenceGraph.RoundDiv | src/main.rs:169-172 | `(a / b).round()` for non-negative operands: within half of `a / b`, halves rounded up |
| CoOccurrenceGraph.NormaliseNode | src/main.rs:162-184 | the same edges; each carries its count, the node total, the largest count plus one, and both shares in rounded hundredths |
| CoOccurrenceGraph.NormaliseNodeBounds | src/main.rs:169-172 | percentage and percentile are at most 100.00; the unrounded percentile is below 100.00; count is at most total |
| CoOccurrenceGraph.PercentileCanReachHundred | src/main.rs:171-172 | a count of 19999 under a `max` of 20000 rounds to a percentile of 100.00 |
| CoOccurrenceGraph.NodeMetadataComparable | src/main.rs:175-181 | two edges of one node always compare, by count |
| CoOccurrenceGraph.SharesSum | src/main.rs:163-170 | twice `total` times the sum of the rounded shares is within `n * total` of 20000 times the sum of the counts, for `n` edges |
| CoOccurrenceGraph.PercentagesSumToHundred | src/main.rs:163-170 | the percentages of one node add up to 100.00 up to rounding: for `n` edges, `20000 - n < 2 * sum <= 20000 + n` in hundredths |
| CoOccurrenceGraph.Normalise | src/main.rs:159-191 | the same nodes, the same edge keys and the same counts; each node holds the normalisation of its own edges |
| CoOccurrenceGraph.FilteredIsNormalisable | src/main.rs:141-143 | positive counts plus the filter make every node normalisable |
| GraphOrder.Listing | src/main.rs:197 | as many entries as the map, each one an entry of the map |
| GraphOrder.ListingCovers | src/main.rs:197 | every key of the map is listed |
| GraphOrder.SortByCount | src/main.rs:198 | a permutation, in ascending order of count |
| GraphOrder.Reverse | src/main.rs:199 | the same length, in reverse order |
| GraphOrder.ReversePermutes | src/main.rs:199 | reversing is a permutation |
| GraphOrder.SortEdges | src/main.rs:196-200 | a permutation whose counts never increase |
| GraphOrder.LexIrreflexive | src/main.rs:203 | no name sorts before itself |
| GraphOrder.LexTotal | src/main.rs:203 | any two different names compare |
| GraphOrder.LexTransitive | src/main.rs:203 | the name order is transitive |
| GraphOrder.SortedNames | src/main.rs:203 | the `BTreeMap` keys: each name once, strictly increasing |
| GraphOrder.SortedPairwise | src/main.rs:203 | adjacent order gives pairwise order |
| GraphOrder.SortedGraph | src/main.rs:193-203 | one entry per node, in name order, each holding the node's sorted edges |
| GraphOrder.SortedGraphSpec | src/main.rs:193-203 | nodes strictly in name order and none missing; each list is a permutation of the node's edges, counts never increasing |
| GraphOrder.EdgeMap | src/main.rs:209-211 | keys are the listed names; each value is one listed with that name |
| GraphOrder.EdgeMapLastWins | src/main.rs:209-211 | a pair with no later pair of the same name is the one collected, as `HashMap` insertion in order gives |
| GraphOrder.EdgeMapOfEntries | src/main.rs:208-212 | collecting a reordering of a map's entries gives the map back |
| GraphOrder.SetView | src/main.rs:205-214 | one key per listed node, holding its collected edges |
| GraphOrder.SetViewLastWins | src/main.rs:205-214 | an entry with no later entry of the same node name is the one collected |
| GraphOrder.SetViewRoundTrip | src/main.rs:205-214 | the set view of the sorted graph is the normalised graph again |
| Adjacency.AddTargets | src/main.rs:238-240 | the set plus every target |
| Adjacency.LinkBack | src/main.rs:242-254 | every member of the list gets a key if needed and the node in its set; every other entry is unchanged |
| Adjacency.OwnEntry | src/main.rs:230-237 | the node gets a key, nothing reads differently, and its current set is returned |
| Adjacency.Step | src/main.rs:228-256 | one turn's writes take the adjacency of the processed nodes to that of one more node |
| Adjacency.TurnLinks | src/main.rs:228-256 | what the three phases of a turn leave behind is the adjacency with one more node processed |
| Adjacency.Turn | src/main.rs:228-256 | one turn of the outer loop takes the adjacency of the processed nodes to that of one more node |
| Adjacency.BuildUndirected | src/main.rs:226-258 | for any node order, the result is the undirected adjacency of the graph |
| Adjacency.UndirectedSpec | src/main.rs:226-258 | keys are the nodes and every edge target; symmetric; `b` is in `a`'s set iff an edge runs between them either way |
| Adjacency.SortByDegree | src/main.rs:265-271 | in place, a permutation with set sizes never increasing |
| Adjacency.SortedUndirectedGraph | src/main.rs:260-273 | each adjacency entry exactly once (same count, every entry present, nothing else), sizes never increasing |

## Left out

- Database access is not modelled: the SQLite pool, the SQL text and the
  async plumbing. The store's semantics of `LIKE`, `order by created_at desc
  limit 1`, `user_id != ?` and `user_id is not ''` are given as inputs. A
  query error (an `unwrap` on the fetch) is not modelled separately from
  "no rows".
- The blocking `get_locations_for` (src/zaphkiel/thingies.rs:61-80) is the
  same pipeline as the one in src/lib.rs:84-101. It shares that model,
  `Insights.GetLocationsFor`, and its lemmas.
- `get_uuid_of` (src/lib.rs:28-49, src/zaphkiel/thingies.rs:9-30) is only a
  query and an assertion.
- Concurrency is modelled sequentially: the `JoinSet`, the `RwLock` and the
  order in which tasks complete. The root and neighbour expansion in
  src/main.rs:51-114 is not modelled. That covers:
  - the per-neighbour sleep;
  - names overwriting each other by completion order;
  - the single `join_next` merge.

  The graph stages start from its resulting graph.
- The `f64` statistics are integer hundredths. The final division by 100
  and floating-point inexactness are not modelled.
- Counting.Bump: counts are unbounded, so `u32` overflow of a count, of a
  total or of `max + 1` is not modelled.
- EdgeMetadata.Metadata: `count`, `max` and `total` are `nat`, not `u32`.
- RON export and file handling are not modelled. Neither are the DOT graph
  built with petgraph and the unfinished FuzzyDBSCAN metric
  (src/main.rs:149-157, 216-224, 275-370).
- `created_at` is kept as text; chrono parsing is not modelled.
- Lower-casing is ASCII only; Unicode case mapping is not modelled.
- The globals are parameters: `KAT_EXISTS` (a marker file) and
  `KAT_DISPLAY_NAME` (set once at start-up).
- IsKat.NameIsKat: reading an unset display name is a precondition, not a
  panic outcome. The graph filter always passes the name, because main sets
  it first.
- `From<&Name> for Arc<str>` recurses into itself (src/zaphkiel/is_kat.rs:118-123)
  and is not modelled.
- `Metadata` deserialisation is `todo!()` and is not modelled.
- The following parts of `ArcStrMap` are not modelled, as they are glue
  rather than behaviour: `Serialize`, `Hash`, `Index`, `iter`, `into_iter`,
  `From<[_; N]>`, `FromIterator` and `get_map`.
- Cache.ArcStrMap.Clone: dropping a handle is not modelled, so the strong
  count never falls.
- Cache.ArcStrMap.Values: stated as the set of values, not their multiset.
- GraphOrder.SortEdges: the order among edges with equal counts is not
  stated. `sort_by_key` is stable and `reverse` then flips ties.
- Adjacency.SortByDegree: stability (the relative order of entries with
  equal degree) is not stated.
- GraphOrder.Listing: the `HashMap` iteration order is left open (any
  order); the model does not fix it.
- The unit test expecting a panic message about an unknown key
  (src/zaphkiel/world_instance.rs:188) does not match the message the code
  produces (line 101). The model follows the code.
- src/zaphkiel/trustfall.rs, macros.rs, utils.rs and error.rs hold no core
  logic and are not part of this model.
