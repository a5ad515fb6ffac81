/** The undirected adjacency built from the set view of the normalised graph
    and its listing by degree (src/main.rs:226-273). */
module Adjacency {
  import Wrappers

  type Adj = map<string, set<string>>

  /** `m.get(x)` with a missing entry read as the empty set. */
  function Get(m: Adj, x: string): (s: set<string>)
    ensures x in m ==> s == m[x]
    ensures x !in m ==> s == {}
  {
    if x in m then m[x] else {}
  }

  /** The edge targets of the nodes in `done`. */
  function Targets<V>(g: map<string, map<string, V>>, done: set<string>): set<string>
    requires done <= g.Keys
  {
    set m, t | m in done && t in g[m] :: t
  }

  /** The nodes of `done` that have an edge to `x`. */
  function Incoming<V>(g: map<string, map<string, V>>, done: set<string>, x: string): set<string>
    requires done <= g.Keys
  {
    set m | m in done && x in g[m]
  }

  /** The out-edges of `x`, if `x` is in `done`. */
  function Outgoing<V>(g: map<string, map<string, V>>, done: set<string>, x: string): set<string>
    requires done <= g.Keys
  {
    if x in done then g[x].Keys else {}
  }

  /** The adjacency once the nodes in `done` have been processed: a key for
      each of them and each of their targets; each key is joined to its own
      targets and to every processed node that points at it. */
  function Partial<V>(g: map<string, map<string, V>>, done: set<string>): Adj
    requires done <= g.Keys
  {
    map x | x in done + Targets(g, done) :: Outgoing(g, done, x) + Incoming(g, done, x)
  }

  /** The adjacency `undirected_graph` promises: every node and every target
      is a key, and `b` is joined to `a` when either has an edge to the other. */
  function Undirected<V>(g: map<string, map<string, V>>): Adj
  {
    Partial(g, g.Keys)
  }

  /** Reading the partial adjacency at any name, key or not. */
  lemma PartialGet<V>(g: map<string, map<string, V>>, done: set<string>, x: string)
    requires done <= g.Keys
    ensures Get(Partial(g, done), x) == Outgoing(g, done, x) + Incoming(g, done, x)
    ensures x in Partial(g, done) <==> x in done || x in Targets(g, done)
  {
    forall m | m in Incoming(g, done, x)
      ensures x in Targets(g, done)
    {
    }
  }

  /** The conditions one turn of the outer loop, for node `name`, leaves
      behind before its last write: `current` is `name`'s old set plus its
      targets, and every member of `current` got `name` added to its set. */
  predicate Linked<V>(g: map<string, map<string, V>>, done: set<string>, name: string, current: set<string>, adj: Adj)
    requires done <= g.Keys && name in g
  {
    && current == Get(Partial(g, done), name) + g[name].Keys
    && adj.Keys == Partial(g, done).Keys + {name} + current
    && (forall x :: x in adj && x in current ==> adj[x] == Get(Partial(g, done), x) + {name})
    && (forall x :: x in adj && x !in current ==> adj[x] == Get(Partial(g, done), x))
  }

  lemma StepValueAtName<V>(g: map<string, map<string, V>>, done: set<string>, name: string, current: set<string>)
    requires done <= g.Keys && name in g && name !in done
    requires current == Get(Partial(g, done), name) + g[name].Keys
    ensures name in Partial(g, done + {name}) && current == Partial(g, done + {name})[name]
  {
    PartialGet(g, done, name);
    PartialGet(g, done + {name}, name);
    assert Incoming(g, done + {name}, name) == Incoming(g, done, name) + (if name in g[name] then {name} else {});
  }

  lemma StepValueElsewhere<V>(g: map<string, map<string, V>>, done: set<string>, name: string, current: set<string>, x: string)
    requires done <= g.Keys && name in g && name !in done && x != name
    requires current == Get(Partial(g, done), name) + g[name].Keys
    requires x in Partial(g, done) || x in current
    ensures x in Partial(g, done + {name})
    ensures Partial(g, done + {name})[x] == Get(Partial(g, done), x) + (if x in current then {name} else {})
  {
    PartialGet(g, done, name);
    PartialGet(g, done, x);
    PartialGet(g, done + {name}, x);
    assert Outgoing(g, done + {name}, x) == Outgoing(g, done, x);
    assert Incoming(g, done + {name}, x) == Incoming(g, done, x) + (if x in g[name] then {name} else {});
    if x in current && x !in g[name] {
      assert x in Incoming(g, done, name);
      assert name in Outgoing(g, done, x);
    }
  }

  lemma StepValue<V>(g: map<string, map<string, V>>, done: set<string>, name: string, current: set<string>, adj: Adj, x: string)
    requires done <= g.Keys && name in g && name !in done
    requires Linked(g, done, name, current, adj)
    requires x in adj[name := current]
    ensures x in Partial(g, done + {name}) && adj[name := current][x] == Partial(g, done + {name})[x]
  {
    if x == name {
      StepValueAtName(g, done, name, current);
    } else {
      StepValueElsewhere(g, done, name, current, x);
    }
  }

  lemma StepKey<V>(g: map<string, map<string, V>>, done: set<string>, name: string, current: set<string>, adj: Adj, x: string)
    requires done <= g.Keys && name in g && name !in done
    requires Linked(g, done, name, current, adj)
    requires x in Partial(g, done + {name})
    ensures x in adj[name := current]
  {
    PartialGet(g, done, name);
    PartialGet(g, done, x);
    PartialGet(g, done + {name}, x);
    if x != name && x !in Partial(g, done) {
      var m, t :| m in done + {name} && t in g[m] && t == x;
      assert m == name;
    }
  }

  /** One turn of the outer loop turns the adjacency of `done` into that of
      `done + {name}`. */
  lemma Step<V>(g: map<string, map<string, V>>, done: set<string>, name: string, current: set<string>, adj: Adj)
    requires done <= g.Keys && name in g && name !in done
    requires Linked(g, done, name, current, adj)
    ensures adj[name := current] == Partial(g, done + {name})
  {
    forall x | x in adj[name := current]
      ensures x in Partial(g, done + {name}) && adj[name := current][x] == Partial(g, done + {name})[x]
    {
      StepValue(g, done, name, current, adj, x);
    }
    forall x | x in Partial(g, done + {name})
      ensures x in adj[name := current]
    {
      StepKey(g, done, name, current, adj, x);
    }
    Wrappers.MapsAgree(adj[name := current], Partial(g, done + {name}));
  }

  /** `for other in others.keys() { current_list.insert(other) }`. */
  method AddTargets(current: set<string>, others: set<string>) returns (r: set<string>)
    ensures r == current + others
  {
    r := current;
    var keys := others;
    while keys != {}
      invariant keys <= others
      invariant r == current + (others - keys)
      decreases |keys|
    {
      var other :| other in keys;
      r := r + {other};
      keys := keys - {other};
    }
  }

  /** Part-way through the back-linking loop: the members of `current`
      already visited (those not in `todo`) have a key and `name` in their
      set; every other entry is as it was. */
  predicate Partway(adj: Adj, r: Adj, current: set<string>, todo: set<string>, name: string)
  {
    && r.Keys == adj.Keys + (current - todo)
    && (forall x :: x in r && x in current && x !in todo ==> r[x] == Get(adj, x) + {name})
    && (forall x :: x in r && (x !in current || x in todo) ==> r[x] == adj[x])
  }

  lemma PartwayStep(adj: Adj, r: Adj, current: set<string>, todo: set<string>, name: string, other: string)
    requires todo <= current && other in todo
    requires Partway(adj, r, current, todo, name)
    ensures Partway(adj, r[other := Get(r, other) + {name}], current, todo - {other}, name)
  {
  }

  /** `for other in &current_list { .. other_list.insert(name) .. }`: every
      member of `current` gets a key (if it had none) and `name` in its set. */
  method LinkBack(adj: Adj, current: set<string>, name: string) returns (r: Adj)
    ensures r.Keys == adj.Keys + current
    ensures forall x :: x in r && x in current ==> r[x] == Get(adj, x) + {name}
    ensures forall x :: x in r && x !in current ==> r[x] == Get(adj, x)
  {
    r := adj;
    var todo := current;
    while todo != {}
      invariant todo <= current
      invariant Partway(adj, r, current, todo, name)
      decreases |todo|
    {
      var other :| other in todo;
      var otherList := if other in r then r[other] else {};
      PartwayStep(adj, r, current, todo, name, other);
      r := r[other := otherList + {name}];
      todo := todo - {other};
    }
    PartwayDone(adj, r, current, name);
  }

  lemma PartwayDone(adj: Adj, r: Adj, current: set<string>, name: string)
    requires Partway(adj, r, current, {}, name)
    ensures r.Keys == adj.Keys + current
    ensures forall x :: x in r && x in current ==> r[x] == Get(adj, x) + {name}
    ensures forall x :: x in r && x !in current ==> r[x] == Get(adj, x)
  {
    assert current - {} == current;
  }

  /** The `get` or `insert(name, HashSet::new())` that opens one turn of the
      outer loop: `name` gets a key, and nothing is read differently. */
  method OwnEntry(adj: Adj, name: string) returns (r: Adj, current: set<string>)
    ensures r.Keys == adj.Keys + {name}
    ensures forall x :: x in r ==> r[x] == Get(adj, x)
    ensures current == Get(adj, name)
  {
    if name in adj {
      r, current := adj, adj[name];
    } else {
      r, current := adj[name := {}], {};
    }
  }

  /** The opening, the target loop, the back-linking loop and the final
      write of one turn take the adjacency of `done` to that of
      `done + {name}`. */
  lemma TurnLinks<V>(g: map<string, map<string, V>>, done: set<string>, name: string,
                     before: Adj, started: Adj, current: set<string>, after: Adj)
    requires done <= g.Keys && name in g
    requires before == Partial(g, done)
    requires started.Keys == before.Keys + {name}
    requires forall x :: x in started ==> started[x] == Get(before, x)
    requires current == Get(before, name) + g[name].Keys
    requires after.Keys == started.Keys + current
    requires forall x :: x in after && x in current ==> after[x] == Get(started, x) + {name}
    requires forall x :: x in after && x !in current ==> after[x] == Get(started, x)
    requires name !in done
    ensures after[name := current] == Partial(g, done + {name})
  {
    assert forall x :: Get(started, x) == Get(before, x);
    assert Linked(g, done, name, current, after);
    Step(g, done, name, current, after);
  }

  /** One turn of the outer loop of src/main.rs:226-258, for node `name`:
      open its entry, add its targets, link them back, write the entry. */
  method Turn<V>(g: map<string, map<string, V>>, ghost done: set<string>, adj: Adj, name: string) returns (r: Adj)
    requires done <= g.Keys && name in g && name !in done
    requires adj == Partial(g, done)
    ensures r == Partial(g, done + {name})
  {
    var started, current := OwnEntry(adj, name);
    current := AddTargets(current, g[name].Keys);
    var after := LinkBack(started, current, name);
    TurnLinks(g, done, name, adj, started, current, after);
    r := after[name := current];
  }

  /** The outer loop of src/main.rs:226-258, nodes in any order. */
  method BuildUndirected<V>(g: map<string, map<string, V>>) returns (adj: Adj)
    ensures adj == Undirected(g)
  {
    adj := map[];
    var pending := g.Keys;
    ghost var done: set<string> := {};
    assert Partial(g, done) == map[];
    while pending != {}
      invariant pending <= g.Keys
      invariant done == g.Keys - pending
      invariant adj == Partial(g, done)
      decreases |pending|
    {
      var name :| name in pending;
      adj := Turn(g, done, adj, name);
      pending := pending - {name};
      done := done + {name};
    }
    assert done == g.Keys;
  }

  /** The adjacency is symmetric, joins every node to its targets, gives
      every target a key of its own, and joins nothing else. */
  lemma UndirectedSpec<V>(g: map<string, map<string, V>>, a: string, b: string)
    ensures a in Undirected(g) <==> a in g || exists m :: m in g && a in g[m]
    ensures a in Undirected(g) && b in Get(Undirected(g), a) ==> b in Undirected(g) && a in Get(Undirected(g), b)
    ensures b in Get(Undirected(g), a) <==> (a in g && b in g[a]) || (b in g && a in g[b])
  {
    PartialGet(g, g.Keys, a);
    PartialGet(g, g.Keys, b);
    if exists m :: m in g && a in g[m] {
      var m :| m in g && a in g[m];
      assert a in Targets(g, g.Keys);
    }
  }

  /** Every count is at least as large as the next one. */
  predicate ByDegree(s: seq<(string, set<string>)>)
  {
    forall i :: 0 < i < |s| ==> |s[i - 1].1| >= |s[i].1|
  }

  method Swap(a: array<(string, set<string>)>, i: nat, j: nat)
    requires i < a.Length && j < a.Length
    modifies a
    ensures a[..] == old(a[..])[i := old(a[j])][j := old(a[i])]
    ensures multiset(a[..]) == multiset(old(a[..]))
  {
    a[i], a[j] := a[j], a[i];
  }

  /** The first `n` entries are in degree order. */
  predicate ByDegreeUpTo(s: seq<(string, set<string>)>, n: int)
  {
    forall k :: 0 < k < n && k < |s| ==> |s[k - 1].1| >= |s[k].1|
  }

  /** `list.sort_by(|a, b| b.1.len().cmp(&a.1.len()))`, as a stable
      insertion sort in place: largest set first. */
  method SortByDegree(a: array<(string, set<string>)>)
    modifies a
    ensures multiset(a[..]) == multiset(old(a[..]))
    ensures ByDegree(a[..])
  {
    var i := 1;
    while i < a.Length
      invariant 1 <= i
      invariant a.Length > 0 ==> i <= a.Length
      invariant multiset(a[..]) == multiset(old(a[..]))
      invariant ByDegreeUpTo(a[..], i)
    {
      SinkEntry(a, i);
      i := i + 1;
    }
  }

  /** One pass of the insertion sort: moves entry `i` left past every smaller set. */
  method SinkEntry(a: array<(string, set<string>)>, i: nat)
    requires 0 < i < a.Length
    requires ByDegreeUpTo(a[..], i)
    modifies a
    ensures multiset(a[..]) == multiset(old(a[..]))
    ensures ByDegreeUpTo(a[..], i + 1)
  {
    var j := i;
    SinkStart(a[..], i);
    while j > 0 && |a[j - 1].1| < |a[j].1|
      invariant 0 <= j <= i
      invariant multiset(a[..]) == multiset(old(a[..]))
      invariant Sinking(a[..], i, j)
    {
      SinkStep(a[..], i, j);
      Swap(a, j - 1, j);
      j := j - 1;
    }
    SinkDone(a[..], i, j);
  }

  /** While entry `i` sinks to position `j`: the first `i + 1` entries are in
      degree order except around `j`, and the entries on either side of `j`
      are in order with each other. */
  predicate Sinking(s: seq<(string, set<string>)>, i: nat, j: nat)
  {
    && j <= i < |s|
    && (forall k :: 0 < k <= i && k != j ==> |s[k - 1].1| >= |s[k].1|)
    && (0 < j < i ==> |s[j - 1].1| >= |s[j + 1].1|)
  }

  lemma SinkStart(s: seq<(string, set<string>)>, i: nat)
    requires 0 < i < |s| && ByDegreeUpTo(s, i)
    ensures Sinking(s, i, i)
  {
  }

  /** Swapping the sinking entry with a smaller left neighbour moves it one place left. */
  lemma SinkStep(s: seq<(string, set<string>)>, i: nat, j: nat)
    requires Sinking(s, i, j) && 0 < j && |s[j - 1].1| < |s[j].1|
    ensures Sinking(s[j - 1 := s[j]][j := s[j - 1]], i, j - 1)
  {
    var t := s[j - 1 := s[j]][j := s[j - 1]];
    forall k | 0 < k <= i && k != j - 1
      ensures |t[k - 1].1| >= |t[k].1|
    {
      if k == j {
        assert t[k - 1] == s[j] && t[k] == s[j - 1];
      } else if k == j + 1 {
        assert t[k - 1] == s[j - 1] && t[k] == s[j + 1];
      } else if k == j - 1 {
      } else if k < j - 1 {
        assert t[k - 1] == s[k - 1] && t[k] == s[k];
      } else {
        assert t[k - 1] == s[k - 1] && t[k] == s[k];
      }
    }
    if 1 < j {
      assert t[j - 2] == s[j - 2] && t[j] == s[j - 1];
    }
  }

  /** Once the sinking entry stops, the first `i + 1` entries are in order. */
  lemma SinkDone(s: seq<(string, set<string>)>, i: nat, j: nat)
    requires Sinking(s, i, j) && (j == 0 || |s[j - 1].1| >= |s[j].1|)
    ensures ByDegreeUpTo(s, i + 1)
  {
  }

  /** `sorted_undirected_graph`: the entries of the adjacency (listed in the
      map's iteration order, left open), sorted by degree, largest first. */
  method SortedUndirectedGraph(adj: Adj) returns (list: seq<(string, set<string>)>)
    ensures |list| == |adj|
    ensures forall i :: 0 <= i < |list| ==> list[i].0 in adj && adj[list[i].0] == list[i].1
    ensures forall k :: k in adj ==> exists i :: 0 <= i < |list| && list[i].0 == k
    ensures ByDegree(list)
  {
    var entries: seq<(string, set<string>)> := [];
    var pending := adj.Keys;
    while pending != {}
      invariant pending <= adj.Keys
      invariant |entries| + |pending| == |adj|
      invariant forall i :: 0 <= i < |entries| ==> entries[i].0 in adj && adj[entries[i].0] == entries[i].1
      invariant forall k :: k in adj ==> k in pending || exists i :: 0 <= i < |entries| && entries[i].0 == k
      invariant forall i :: 0 <= i < |entries| ==> entries[i].0 !in pending
      decreases |pending|
    {
      var k :| k in pending;
      ghost var before := entries;
      entries := entries + [(k, adj[k])];
      pending := pending - {k};
      forall k' | k' in adj
        ensures k' in pending || exists i :: 0 <= i < |entries| && entries[i].0 == k'
      {
        if k' == k {
          assert entries[|entries| - 1].0 == k';
        } else if k' !in pending {
          var i :| 0 <= i < |before| && before[i].0 == k';
          assert entries[i].0 == k';
        }
      }
    }
    var a := new (string, set<string>)[|entries|](i requires 0 <= i < |entries| => entries[i]);
    assert a[..] == entries;
    SortByDegree(a);
    list := a[..];
    forall i | 0 <= i < |list|
      ensures list[i].0 in adj && adj[list[i].0] == list[i].1
    {
      assert list[i] in multiset(entries);
    }
    forall k | k in adj
      ensures exists i :: 0 <= i < |list| && list[i].0 == k
    {
      var j :| 0 <= j < |entries| && entries[j].0 == k;
      assert entries[j] in multiset(list);
    }
  }
}
