/** The ordered view `graph2_sorted` of the normalised graph and its set
    view `graph2_sorted_set` (src/main.rs:193-214): each node's edges sorted
    by count, largest first, and the nodes in name order (a `BTreeMap`). */
module GraphOrder {
  import Wrappers
  import EdgeMetadata

  type Edge = (string, EdgeMetadata.Metadata)
  type NormalisedGraph = map<string, map<string, EdgeMetadata.Metadata>>

  /** `v.clone().into_iter().collect::<Vec<_>>()` on a `HashMap`: every entry
      once, in an order left open. */
  ghost function Listing(m: map<string, EdgeMetadata.Metadata>): (s: seq<Edge>)
    ensures |s| == |m|
    ensures forall i :: 0 <= i < |s| ==> s[i].0 in m && m[s[i].0] == s[i].1
  {
    if m == map[] then []
    else
      var k :| k in m;
      var rest := Listing(m - {k});
      var s := [(k, m[k])] + rest;
      assert forall i :: 0 < i < |s| ==> s[i] == rest[i - 1];
      s
  }

  /** The listing misses no key. */
  lemma {:induction false} ListingCovers(m: map<string, EdgeMetadata.Metadata>, k: string)
    requires k in m
    ensures exists i :: 0 <= i < |Listing(m)| && Listing(m)[i].0 == k
    decreases |m|
  {
    var s := Listing(m);
    var j :| j in m && s == [(j, m[j])] + Listing(m - {j});
    if j == k {
      assert s[0].0 == k;
    } else {
      ListingCovers(m - {j}, k);
      var i :| 0 <= i < |Listing(m - {j})| && Listing(m - {j})[i].0 == k;
      assert s[i + 1].0 == k;
    }
  }

  predicate Ascending(s: seq<Edge>)
  {
    forall i :: 0 < i < |s| ==> s[i - 1].1.count <= s[i].1.count
  }

  /** Counts never increase from one entry to the next. */
  predicate Descending(s: seq<Edge>)
  {
    forall i :: 0 < i < |s| ==> s[i - 1].1.count >= s[i].1.count
  }

  /** One step of a stable insertion sort: `e` goes after every entry whose
      count is not larger. */
  function InsertByCount(e: Edge, s: seq<Edge>): (r: seq<Edge>)
    ensures multiset(r) == multiset(s) + multiset{e}
    ensures |r| == |s| + 1
    ensures s != [] ==> r[0] == e || r[0] == s[0]
  {
    if s == [] then [e]
    else if e.1.count < s[0].1.count then [e] + s
    else
      assert s == [s[0]] + s[1..];
      [s[0]] + InsertByCount(e, s[1..])
  }

  lemma {:induction false} InsertByCountAscending(e: Edge, s: seq<Edge>)
    requires Ascending(s)
    ensures Ascending(InsertByCount(e, s))
  {
    if s != [] && e.1.count >= s[0].1.count {
      InsertByCountAscending(e, s[1..]);
      var rest := InsertByCount(e, s[1..]);
      assert InsertByCount(e, s) == [s[0]] + rest;
      if s[1..] != [] {
        assert rest[0] == e || rest[0] == s[1];
      }
    }
  }

  /** `sort_by_key(|(_, m)| m.count)`: stable, ascending by count. */
  function SortByCount(s: seq<Edge>): (r: seq<Edge>)
    ensures multiset(r) == multiset(s)
    ensures Ascending(r)
  {
    if s == [] then []
    else
      assert s == s[..|s| - 1] + [s[|s| - 1]];
      InsertByCountAscending(s[|s| - 1], SortByCount(s[..|s| - 1]));
      InsertByCount(s[|s| - 1], SortByCount(s[..|s| - 1]))
  }

  function Reverse(s: seq<Edge>): (r: seq<Edge>)
    ensures |r| == |s|
    ensures forall i :: 0 <= i < |s| ==> r[i] == s[|s| - 1 - i]
  {
    if s == [] then [] else Reverse(s[1..]) + [s[0]]
  }

  lemma {:induction false} ReversePermutes(s: seq<Edge>)
    ensures multiset(Reverse(s)) == multiset(s)
  {
    if s != [] {
      ReversePermutes(s[1..]);
      assert s == [s[0]] + s[1..];
    }
  }

  /** `sort_by_key` then `reverse`: the same entries, largest count first. */
  function SortEdges(s: seq<Edge>): (r: seq<Edge>)
    ensures multiset(r) == multiset(s)
    ensures Descending(r)
  {
    ReversePermutes(SortByCount(s));
    Reverse(SortByCount(s))
  }

  /** Rust's `Ord` on `str`: lexicographic by character. */
  predicate LexLess(a: string, b: string)
  {
    if a == [] then b != []
    else if b == [] then false
    else if a[0] != b[0] then a[0] < b[0]
    else LexLess(a[1..], b[1..])
  }

  lemma {:induction false} LexIrreflexive(a: string)
    ensures !LexLess(a, a)
  {
    if a != [] {
      LexIrreflexive(a[1..]);
    }
  }

  lemma {:induction false} LexTotal(a: string, b: string)
    ensures a == b || LexLess(a, b) || LexLess(b, a)
  {
    if a != [] && b != [] && a[0] == b[0] {
      LexTotal(a[1..], b[1..]);
      if a[1..] == b[1..] {
        assert a == [a[0]] + a[1..] && b == [b[0]] + b[1..];
      }
    }
  }

  lemma {:induction false} LexTransitive(a: string, b: string, c: string)
    requires LexLess(a, b) && LexLess(b, c)
    ensures LexLess(a, c)
  {
    if a != [] && a[0] == b[0] && b[0] == c[0] {
      LexTransitive(a[1..], b[1..], c[1..]);
    }
  }

  /** Adjacent names strictly increase. */
  predicate StrictlySorted(s: seq<string>)
  {
    forall i :: 0 < i < |s| ==> LexLess(s[i - 1], s[i])
  }

  function InsertName(x: string, s: seq<string>): (r: seq<string>)
    requires x !in s
    ensures |r| == |s| + 1
    ensures forall y :: y in r <==> y == x || y in s
    ensures s != [] ==> r[0] == x || r[0] == s[0]
    ensures StrictlySorted(s) ==> StrictlySorted(r)
  {
    if s == [] then [x]
    else if LexLess(x, s[0]) then [x] + s
    else
      LexTotal(x, s[0]);
      var rest := InsertName(x, s[1..]);
      assert forall y :: y in s <==> y == s[0] || y in s[1..];
      [s[0]] + rest
  }

  /** The keys of a `BTreeMap`, in order. */
  ghost function SortedNames(names: set<string>): (r: seq<string>)
    ensures |r| == |names|
    ensures forall y :: y in r <==> y in names
    ensures StrictlySorted(r)
  {
    if names == {} then []
    else
      var x :| x in names;
      InsertName(x, SortedNames(names - {x}))
  }

  /** Strictly increasing adjacent names are increasing pairwise, so the
      names are distinct and in order. */
  lemma {:induction false} SortedPairwise(s: seq<string>, i: nat, j: nat)
    requires StrictlySorted(s) && i < j < |s|
    ensures LexLess(s[i], s[j])
    decreases j - i
  {
    if j > i + 1 {
      SortedPairwise(s, i + 1, j);
      LexTransitive(s[i], s[i + 1], s[j]);
    }
  }

  /** `graph2_sorted`: the nodes in name order, each with its edges sorted
      by count, largest first. */
  ghost function SortedGraph(g: NormalisedGraph): (r: seq<(string, seq<Edge>)>)
    ensures |r| == |g|
    ensures forall i :: 0 <= i < |r| ==> SortedNames(g.Keys)[i] in g && r[i] == NodeEntry(g, SortedNames(g.Keys)[i])
  {
    var names := SortedNames(g.Keys);
    SortedNamesMembers(g.Keys);
    seq(|names|, i requires 0 <= i < |names| => NodeEntry(g, names[i]))
  }

  /** One node of `graph2_sorted` with its edges sorted. */
  ghost function NodeEntry(g: NormalisedGraph, n: string): (string, seq<Edge>)
    requires n in g
  {
    (n, SortEdges(Listing(g[n])))
  }

  lemma SortedNamesMembers(names: set<string>)
    ensures forall i :: 0 <= i < |SortedNames(names)| ==> SortedNames(names)[i] in names
  {
    var r := SortedNames(names);
    forall i | 0 <= i < |r| ensures r[i] in names {
      assert r[i] in r;
    }
  }

  /** Entry `i` of the sorted graph is the `i`-th name with its sorted edges. */
  lemma SortedGraphAt(g: NormalisedGraph, i: nat)
    requires i < |SortedGraph(g)|
    ensures SortedGraph(g)[i].0 == SortedNames(g.Keys)[i] && SortedGraph(g)[i].0 in g
    ensures SortedGraph(g)[i].1 == SortEdges(Listing(g[SortedGraph(g)[i].0]))
  {
  }

  /** Every node appears once, in name order, with a permutation of its
      edges whose counts never increase. */
  lemma SortedGraphSpec(g: NormalisedGraph)
    ensures forall i, j :: 0 <= i < j < |SortedGraph(g)| ==> LexLess(SortedGraph(g)[i].0, SortedGraph(g)[j].0)
    ensures forall n :: n in g <==> exists i :: 0 <= i < |SortedGraph(g)| && SortedGraph(g)[i].0 == n
    ensures forall i :: 0 <= i < |SortedGraph(g)| ==>
      multiset(SortedGraph(g)[i].1) == multiset(Listing(g[SortedGraph(g)[i].0])) && Descending(SortedGraph(g)[i].1)
  {
    SortedGraphOrdered(g);
    SortedGraphCovers(g);
    SortedGraphEdges(g);
  }

  lemma SortedGraphOrdered(g: NormalisedGraph)
    ensures forall i, j :: 0 <= i < j < |SortedGraph(g)| ==> LexLess(SortedGraph(g)[i].0, SortedGraph(g)[j].0)
  {
    var r := SortedGraph(g);
    forall i, j | 0 <= i < j < |r|
      ensures LexLess(r[i].0, r[j].0)
    {
      SortedGraphAt(g, i);
      SortedGraphAt(g, j);
      SortedPairwise(SortedNames(g.Keys), i, j);
    }
  }

  lemma SortedGraphCovers(g: NormalisedGraph)
    ensures forall n :: n in g <==> exists i :: 0 <= i < |SortedGraph(g)| && SortedGraph(g)[i].0 == n
  {
    var r := SortedGraph(g);
    forall i | 0 <= i < |r|
      ensures r[i].0 in g
    {
      SortedGraphAt(g, i);
    }
    forall n | n in g
      ensures exists i :: 0 <= i < |r| && r[i].0 == n
    {
      SortedGraphHasNode(g, n);
    }
  }

  lemma SortedGraphHasNode(g: NormalisedGraph, n: string)
    requires n in g
    ensures exists i :: 0 <= i < |SortedGraph(g)| && SortedGraph(g)[i].0 == n
  {
    var names := SortedNames(g.Keys);
    assert n in names;
    var i :| 0 <= i < |names| && names[i] == n;
    SortedGraphAt(g, i);
  }

  lemma SortedGraphEdges(g: NormalisedGraph)
    ensures forall i :: 0 <= i < |SortedGraph(g)| ==>
      multiset(SortedGraph(g)[i].1) == multiset(Listing(g[SortedGraph(g)[i].0])) && Descending(SortedGraph(g)[i].1)
  {
    forall i | 0 <= i < |SortedGraph(g)|
      ensures multiset(SortedGraph(g)[i].1) == multiset(Listing(g[SortedGraph(g)[i].0]))
      ensures Descending(SortedGraph(g)[i].1)
    {
      SortedGraphAt(g, i);
    }
  }

  /** `.collect()` of a list of pairs into a `HashMap`: the pairs are
      inserted in order, so for a repeated name the last pair wins. */
  function EdgeMap(s: seq<Edge>): (m: map<string, EdgeMetadata.Metadata>)
    ensures forall k :: k in m <==> exists i :: 0 <= i < |s| && s[i].0 == k
    ensures forall k :: k in m ==> (k, m[k]) in s
  {
    if s == [] then map[]
    else
      var init := s[..|s| - 1];
      assert forall i :: 0 <= i < |init| ==> init[i] == s[i];
      EdgeMap(init)[s[|s| - 1].0 := s[|s| - 1].1]
  }

  /** A pair with no later pair of the same name is the one collected. */
  lemma {:induction false} EdgeMapLastWins(s: seq<Edge>, i: nat)
    requires i < |s|
    requires forall j :: i < j < |s| ==> s[j].0 != s[i].0
    ensures s[i].0 in EdgeMap(s) && EdgeMap(s)[s[i].0] == s[i].1
    decreases |s|
  {
    if i < |s| - 1 {
      var init := s[..|s| - 1];
      assert init[i] == s[i];
      forall j | i < j < |init|
        ensures init[j].0 != init[i].0
      {
        assert init[j] == s[j];
      }
      EdgeMapLastWins(init, i);
    }
  }

  /** Every entry of a reordering of a map's listing is an entry of the map. */
  lemma EntriesOfMap(s: seq<Edge>, m: map<string, EdgeMetadata.Metadata>, e: Edge)
    requires multiset(s) == multiset(Listing(m)) && e in s
    ensures e.0 in m && m[e.0] == e.1
  {
    var l := Listing(m);
    assert e in multiset(l);
    var i :| 0 <= i < |l| && l[i] == e;
  }

  /** Every key of a map has an entry in a reordering of its listing. */
  lemma KeysOfMap(s: seq<Edge>, m: map<string, EdgeMetadata.Metadata>, k: string)
    requires multiset(s) == multiset(Listing(m)) && k in m
    ensures exists j :: 0 <= j < |s| && s[j].0 == k
  {
    var l := Listing(m);
    ListingCovers(m, k);
    var i :| 0 <= i < |l| && l[i].0 == k;
    assert l[i] in multiset(s);
    var j :| 0 <= j < |s| && s[j] == l[i];
  }

  /** Collecting a reordering of a map's entries gives the map back. */
  lemma EdgeMapOfEntries(s: seq<Edge>, m: map<string, EdgeMetadata.Metadata>)
    requires multiset(s) == multiset(Listing(m))
    ensures EdgeMap(s) == m
  {
    EdgeMapEntries(s, m);
    EdgeMapKeys(s, m);
    Wrappers.MapsAgree(EdgeMap(s), m);
  }

  lemma EdgeMapEntries(s: seq<Edge>, m: map<string, EdgeMetadata.Metadata>)
    requires multiset(s) == multiset(Listing(m))
    ensures forall k :: k in EdgeMap(s) ==> k in m && EdgeMap(s)[k] == m[k]
  {
    var r := EdgeMap(s);
    forall k | k in r
      ensures k in m && r[k] == m[k]
    {
      EntriesOfMap(s, m, (k, r[k]));
    }
  }

  lemma EdgeMapKeys(s: seq<Edge>, m: map<string, EdgeMetadata.Metadata>)
    requires multiset(s) == multiset(Listing(m))
    ensures forall k :: k in m ==> k in EdgeMap(s)
  {
    forall k | k in m
      ensures k in EdgeMap(s)
    {
      KeysOfMap(s, m, k);
    }
  }

  /** `graph2_sorted_set`: each node's sorted list collected back into a map;
      for a repeated node name the last entry wins. */
  function SetView(sorted: seq<(string, seq<Edge>)>): (m: NormalisedGraph)
    ensures forall n :: n in m <==> exists i :: 0 <= i < |sorted| && sorted[i].0 == n
    ensures forall n :: n in m ==> exists i :: 0 <= i < |sorted| && sorted[i].0 == n && m[n] == EdgeMap(sorted[i].1)
  {
    if sorted == [] then map[]
    else
      var init := sorted[..|sorted| - 1];
      assert forall i :: 0 <= i < |init| ==> init[i] == sorted[i];
      SetView(init)[sorted[|sorted| - 1].0 := EdgeMap(sorted[|sorted| - 1].1)]
  }

  /** An entry with no later entry of the same name is the one collected. */
  lemma {:induction false} SetViewLastWins(sorted: seq<(string, seq<Edge>)>, i: nat)
    requires i < |sorted|
    requires forall j :: i < j < |sorted| ==> sorted[j].0 != sorted[i].0
    ensures sorted[i].0 in SetView(sorted) && SetView(sorted)[sorted[i].0] == EdgeMap(sorted[i].1)
    decreases |sorted|
  {
    if i < |sorted| - 1 {
      var init := sorted[..|sorted| - 1];
      assert init[i] == sorted[i];
      forall j | i < j < |init|
        ensures init[j].0 != init[i].0
      {
        assert init[j] == sorted[j];
      }
      SetViewLastWins(init, i);
    }
  }

  /** The set view's entry for a node is the node's normalised edges. */
  lemma SetViewEntry(g: NormalisedGraph, n: string)
    requires n in SetView(SortedGraph(g))
    ensures n in g && SetView(SortedGraph(g))[n] == g[n]
  {
    var sorted := SortedGraph(g);
    var i :| 0 <= i < |sorted| && sorted[i].0 == n && SetView(sorted)[n] == EdgeMap(sorted[i].1);
    SortedGraphAt(g, i);
    EdgeMapOfEntries(sorted[i].1, g[n]);
  }

  lemma SetViewHasNode(g: NormalisedGraph, n: string)
    requires n in g
    ensures n in SetView(SortedGraph(g))
  {
    var names := SortedNames(g.Keys);
    assert n in names;
    var i :| 0 <= i < |names| && names[i] == n;
    assert SortedGraph(g)[i].0 == n;
  }

  /** The set view holds exactly the normalised graph again: sorting lost and
      invented nothing. */
  lemma SetViewRoundTrip(g: NormalisedGraph)
    ensures SetView(SortedGraph(g)) == g
  {
    var view := SetView(SortedGraph(g));
    forall n | n in view
      ensures n in g && view[n] == g[n]
    {
      SetViewEntry(g, n);
    }
    forall n | n in g
      ensures n in view
    {
      SetViewHasNode(g, n);
    }
    Wrappers.MapsAgree(view, g);
  }
}
