/** The graph post-processing of src/main.rs: the sentinel filter and the
    per-node normalisation into `Metadata`. A graph maps each node's display
    name to the display names of the people seen with them and how often. */
module CoOccurrenceGraph {
  import opened Wrappers
  import IsKat
  import EdgeMetadata

  type Counts = map<string, nat>
  type Graph = map<string, Counts>

  /** `node.is_kat() && *KAT_EXISTS`: `Name::is_kat` runs first, so the
      sentinel display name must be known even when the marker is absent. */
  predicate Dropped(n: IsKat.Name, katExists: bool, katDisplayName: IsKat.Name)
  {
    IsKat.NameIsKat(n, Some(katDisplayName)) && katExists
  }

  /** The edge filter of one node (src/main.rs:136-140). */
  function KeptEdges(edges: map<IsKat.Name, nat>, katExists: bool, katDisplayName: IsKat.Name): (r: Counts)
    ensures forall t :: t in r <==> IsKat.Name(t) in edges && !Dropped(IsKat.Name(t), katExists, katDisplayName)
    ensures forall t :: t in r ==> r[t] == edges[IsKat.Name(t)]
  {
    map e | e in edges && !Dropped(e, katExists, katDisplayName) :: IsKat.NameToString(e) := edges[e]
  }

  /** The sentinel filter: with the marker present, drop the sentinel's own
      node and every edge to it; then drop nodes left with no edges. */
  function FilterSentinel(graph: map<IsKat.Name, map<IsKat.Name, nat>>, katExists: bool, katDisplayName: IsKat.Name)
    : Graph
  {
    map n | n in graph && !Dropped(n, katExists, katDisplayName) && KeptEdges(graph[n], katExists, katDisplayName) != map[]
      :: IsKat.NameToString(n) := KeptEdges(graph[n], katExists, katDisplayName)
  }

  /** A node survives when it is in the input, is not the dropped sentinel
      and keeps an edge; it keeps exactly its surviving edges. */
  lemma FilterSentinelMembers(graph: map<IsKat.Name, map<IsKat.Name, nat>>, katExists: bool, katDisplayName: IsKat.Name, n: string)
    ensures n in FilterSentinel(graph, katExists, katDisplayName) <==>
      && IsKat.Name(n) in graph
      && !Dropped(IsKat.Name(n), katExists, katDisplayName)
      && KeptEdges(graph[IsKat.Name(n)], katExists, katDisplayName) != map[]
    ensures n in FilterSentinel(graph, katExists, katDisplayName) ==>
      FilterSentinel(graph, katExists, katDisplayName)[n] == KeptEdges(graph[IsKat.Name(n)], katExists, katDisplayName)
  {
    if n in FilterSentinel(graph, katExists, katDisplayName) {
      var m :| m in graph && !Dropped(m, katExists, katDisplayName) && KeptEdges(graph[m], katExists, katDisplayName) != map[]
        && IsKat.NameToString(m) == n;
      assert m == IsKat.Name(n);
    }
  }

  /** With the marker present, the sentinel is neither a node nor an edge
      target of the filtered graph, and every node keeps at least one edge. */
  lemma FilterSentinelSpec(graph: map<IsKat.Name, map<IsKat.Name, nat>>, katExists: bool, katDisplayName: IsKat.Name)
    ensures forall n :: n in FilterSentinel(graph, katExists, katDisplayName) ==>
      FilterSentinel(graph, katExists, katDisplayName)[n] != map[]
    ensures katExists ==> katDisplayName.value !in FilterSentinel(graph, katExists, katDisplayName)
    ensures katExists ==> forall n :: n in FilterSentinel(graph, katExists, katDisplayName) ==>
      katDisplayName.value !in FilterSentinel(graph, katExists, katDisplayName)[n]
  {
  }

  /** Without the marker, nothing but edgeless nodes is dropped. */
  lemma FilterKeepsAllWithoutMarker(graph: map<IsKat.Name, map<IsKat.Name, nat>>, katDisplayName: IsKat.Name, n: IsKat.Name)
    requires n in graph && graph[n] != map[]
    ensures n.value in FilterSentinel(graph, false, katDisplayName)
    ensures forall t :: t in FilterSentinel(graph, false, katDisplayName)[n.value] <==> IsKat.Name(t) in graph[n]
  {
    var e :| e in graph[n];
    assert e.value in KeptEdges(graph[n], false, katDisplayName);
  }

  /** `others.values().sum()`. */
  ghost function Sum(m: Counts): (total: nat)
    ensures forall k :: k in m ==> m[k] <= total
    ensures m == map[] ==> total == 0
  {
    if m == map[] then 0
    else
      var k :| k in m;
      assert forall j :: j in m && j != k ==> j in m - {k};
      m[k] + Sum(m - {k})
  }

  /** The sum does not depend on the order the values are visited in: any
      key can be taken out first. */
  lemma {:induction false} SumRemove(m: Counts, k: string)
    requires k in m
    ensures Sum(m) == m[k] + Sum(m - {k})
    decreases |m|
  {
    var j :| j in m && Sum(m) == m[j] + Sum(m - {j});
    if j != k {
      SumRemove(m - {j}, k);
      SumRemove(m - {k}, j);
      assert m - {j} - {k} == m - {k} - {j};
    }
  }

  /** `others.values().max().unwrap()`; it panics on an empty map, which the
      filter has already ruled out. */
  ghost function MaxOf(m: Counts): (top: nat)
    requires m != map[]
    ensures forall k :: k in m ==> m[k] <= top
    ensures exists k :: k in m && m[k] == top
  {
    var k :| k in m;
    assert forall j :: j in m && j != k ==> j in m - {k};
    if m - {k} == map[] then m[k]
    else
      var rest := MaxOf(m - {k});
      if m[k] >= rest then m[k] else rest
  }

  /** `(a / b).round()` on non-negative values: the nearest integer, halves
      rounded up (away from zero). */
  function RoundDiv(a: nat, b: nat): (r: nat)
    requires b > 0
    ensures 2 * a - b < 2 * b * r <= 2 * a + b
  {
    (2 * a + b) / (2 * b)
  }

  /** A node whose edge map the normalisation can handle: non-empty (so `max`
      exists) with positive counts (so `total` is not zero). */
  predicate Normalisable(edges: Counts)
  {
    edges != map[] && forall t :: t in edges ==> edges[t] >= 1
  }

  /** The normalised edges of one node (src/main.rs:162-184): every edge
      carries its count, the node's `max` (largest count plus one) and
      `total`, and its share of each in hundredths. */
  ghost function NormaliseNode(edges: Counts): (r: map<string, EdgeMetadata.Metadata>)
    requires Normalisable(edges)
    ensures r.Keys == edges.Keys
    ensures forall t :: t in r ==>
      && r[t].count == edges[t]
      && r[t].total == Sum(edges)
      && r[t].max == MaxOf(edges) + 1
      && r[t].percentage == RoundDiv(edges[t] * 10000, Sum(edges))
      && r[t].percentile == RoundDiv(edges[t] * 10000, MaxOf(edges) + 1)
  {
    var total := Sum(edges);
    var max := MaxOf(edges) + 1;
    var t0 :| t0 in edges;
    assert total >= edges[t0] >= 1;
    map t | t in edges :: EdgeMetadata.Metadata(
      edges[t], max, total, RoundDiv(edges[t] * 10000, total), RoundDiv(edges[t] * 10000, max))
  }

  /** The percentage is at most 100.00 (a count never exceeds the total),
      and the unrounded percentile is below 100.00 (a count is below `max`). */
  lemma NormaliseNodeBounds(edges: Counts, t: string)
    requires Normalisable(edges) && t in edges
    ensures NormaliseNode(edges)[t].percentage <= 10000
    ensures NormaliseNode(edges)[t].percentile <= 10000
    ensures edges[t] * 10000 < 10000 * NormaliseNode(edges)[t].max
    ensures NormaliseNode(edges)[t].count <= NormaliseNode(edges)[t].total
  {
    var m := NormaliseNode(edges)[t];
    RoundDivMonotone(edges[t] * 10000, m.total);
    RoundDivMonotone(edges[t] * 10000, m.max);
  }

  lemma RoundDivMonotone(a: nat, b: nat)
    requires 0 < b && a <= 10000 * b
    ensures RoundDiv(a, b) <= 10000
  {
    var r := RoundDiv(a, b);
    if r > 10000 {
      ScaleMonotone(2 * b, 10001, r);
      assert false;
    }
  }

  lemma ScaleMonotone(k: nat, x: nat, y: nat)
    requires x <= y
    ensures k * x <= k * y
  {
    assert k * y == k * x + k * (y - x);
  }

  /** The rounded shares, in hundredths of a percent of `total`, of the
      counts in `m`. */
  ghost function Shares(m: Counts, total: nat): (r: Counts)
    requires total > 0
    ensures r.Keys == m.Keys
  {
    map t | t in m :: RoundDiv(m[t] * 10000, total)
  }

  /** Each share is off by at most half a unit, so `2 * total` times the sum
      of the shares is within `|m| * total` of `20000` times the sum of the
      counts. */
  lemma {:induction false} SharesSum(m: Counts, total: nat)
    requires total > 0
    ensures 2 * total * Sum(Shares(m, total)) <= 20000 * Sum(m) + |m| * total
    ensures m != map[] ==> 20000 * Sum(m) - |m| * total < 2 * total * Sum(Shares(m, total))
    decreases |m|
  {
    if m != map[] {
      var k :| k in m;
      var rest := m - {k};
      var s := Shares(m, total);
      SharesRemove(m, total, k);
      SumRemove(m, k);
      SumRemove(s, k);
      SharesSum(rest, total);
      assert rest == map[] ==> Sum(rest) == 0 && Sum(s - {k}) == 0;
      ShareStep(total, m[k], s[k], Sum(rest), Sum(s - {k}), |rest|, Sum(m), Sum(s), |m|);
    }
  }

  lemma SharesRemove(m: Counts, total: nat, k: string)
    requires total > 0 && k in m
    ensures Shares(m - {k}, total) == Shares(m, total) - {k}
  {
  }

  /** One more share added to the running sums keeps both bounds. */
  lemma ShareStep(total: nat, c: nat, d: nat, a: nat, b: nat, n: nat, sumM: nat, sumS: nat, size: nat)
    requires 2 * (c * 10000) - total < 2 * total * d <= 2 * (c * 10000) + total
    requires 2 * total * b <= 20000 * a + n * total
    requires n > 0 ==> 20000 * a - n * total < 2 * total * b
    requires n == 0 ==> a == 0 && b == 0
    requires sumM == c + a && sumS == d + b && size == n + 1
    ensures 2 * total * sumS <= 20000 * sumM + size * total
    ensures 20000 * sumM - size * total < 2 * total * sumS
  {
    assert 2 * total * sumS == 2 * total * d + 2 * total * b;
    assert size * total == n * total + total;
  }

  /** The percentages of one node add up to 100.00 up to rounding: each is
      off by at most half a hundredth, so twice their sum is within `|edges|`
      of 20000. */
  lemma PercentagesSumToHundred(edges: Counts)
    requires Normalisable(edges)
    ensures 20000 - |edges| < 2 * Sum(map t | t in edges :: NormaliseNode(edges)[t].percentage) <= 20000 + |edges|
  {
    var total := Sum(edges);
    var t0 :| t0 in edges;
    assert total >= 1;
    var s := Shares(edges, total);
    assert (map t | t in edges :: NormaliseNode(edges)[t].percentage) == s;
    SharesSum(edges, total);
    DivideBounds(total, |edges|, Sum(s));
  }

  /** Both bounds of `SharesSum`, divided by `total`. */
  lemma DivideBounds(total: nat, n: nat, x: nat)
    requires total > 0
    requires 2 * total * x <= 20000 * total + n * total
    requires 20000 * total - n * total < 2 * total * x
    ensures 20000 - n < 2 * x <= 20000 + n
  {
    if 2 * x > 20000 + n {
      ScaleMonotone(total, 20000 + n + 1, 2 * x);
      assert false;
    }
    if 2 * x <= 20000 - n {
      ScaleMonotone(total, 2 * x, 20000 - n);
      assert false;
    }
  }

  /** Rounding can still lift the percentile to 100.00: a count of 19999
      under a `max` of 20000 is 99.995, which rounds to 100.00. */
  lemma PercentileCanReachHundred()
    ensures RoundDiv(19999 * 10000, 20000) == 10000
  {
  }

  /** All edges of a node share its `total` and `max`, so any two of them
      compare (`Metadata::cmp` does not panic within a node) and they are
      ordered by count. */
  lemma NodeMetadataComparable(edges: Counts, s: string, t: string)
    requires Normalisable(edges) && s in edges && t in edges
    ensures EdgeMetadata.PartialCmp(NormaliseNode(edges)[s], NormaliseNode(edges)[t]).Some?
    ensures EdgeMetadata.Cmp(NormaliseNode(edges)[s], NormaliseNode(edges)[t]) ==
      EdgeMetadata.CompareCounts(edges[s], edges[t])
  {
  }

  /** The normalisation of the whole filtered graph (src/main.rs:159-191).
      The "empty edges" branch never fires on a filtered graph, so the node
      set, the edge keys and the counts are all kept. */
  ghost function Normalise(g: Graph): (r: map<string, map<string, EdgeMetadata.Metadata>>)
    requires forall n :: n in g ==> Normalisable(g[n])
    ensures r.Keys == g.Keys
    ensures forall n :: n in r ==> r[n].Keys == g[n].Keys
    ensures forall n, t :: n in r && t in r[n] ==> r[n][t].count == g[n][t]
    ensures forall n :: n in r ==> r[n] == NormaliseNode(g[n])
  {
    map n | n in g :: NormaliseNode(g[n])
  }

  /** The filter delivers what the normalisation needs, given the positive
      counts `get_others_for` produces. */
  lemma FilteredIsNormalisable(graph: map<IsKat.Name, map<IsKat.Name, nat>>, katExists: bool, katDisplayName: IsKat.Name)
    requires forall n, t :: n in graph && t in graph[n] ==> graph[n][t] >= 1
    ensures forall n :: n in FilterSentinel(graph, katExists, katDisplayName) ==>
      Normalisable(FilterSentinel(graph, katExists, katDisplayName)[n])
  {
  }
}
