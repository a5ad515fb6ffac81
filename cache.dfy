/** `ArcStrMap<K, V>` and `ArcStrSet<K>` (src/zaphkiel/cache.rs): a `HashMap`
    behind an `Arc`. Cloning shares the map; writes go through
    `Arc::get_mut`, so they only happen while one handle owns the map. */
module Cache {
  import opened Wrappers

  /** The heap cell an `Arc<HashMap<K, V>>` points to: the entries and the
      number of handles that share them. */
  class SharedMap<K(==,!new), V(!new)> {
    var entries: map<K, V>
    var strongCount: nat

    constructor ()
      ensures entries == map[] && strongCount == 1
    {
      entries := map[];
      strongCount := 1;
    }
  }

  class ArcStrMap<K(==,!new), V(==,!new)> {
    const shared: SharedMap<K, V>

    /** `ArcStrMap::new`. */
    constructor New()
      ensures fresh(shared)
      ensures shared.entries == map[] && shared.strongCount == 1
    {
      shared := new SharedMap();
    }

    /** `ArcStrMap::new_empty_arc_str`: the same empty, unshared map. */
    constructor NewEmptyArcStr()
      ensures fresh(shared)
      ensures shared.entries == map[] && shared.strongCount == 1
    {
      shared := new SharedMap();
    }

    /** `Clone`: a second handle on the same map. */
    method Clone() returns (c: ArcStrMap<K, V>)
      modifies shared
      ensures fresh(c) && c.shared == shared
      ensures shared.strongCount == old(shared.strongCount) + 1
      ensures shared.entries == old(shared.entries)
    {
      c := new ArcStrMap.Share(shared);
      shared.strongCount := shared.strongCount + 1;
    }

    /** The handle `Clone` builds around an existing map. */
    constructor Share(s: SharedMap<K, V>)
      ensures shared == s
    {
      shared := s;
    }

    /** `Arc::get_mut` succeeds: no other handle shares the map. */
    predicate Unique()
      reads shared
    {
      shared.strongCount == 1
    }

    /** `get`. */
    function Get(key: K): (r: Option<V>)
      reads shared
      ensures r.Some? <==> key in Keys()
      ensures r.Some? ==> r.value == shared.entries[key]
    {
      if key in shared.entries then Some(shared.entries[key]) else None
    }

    /** `keys` (and `keys_set`), as a set. */
    function Keys(): (ks: set<K>)
      reads shared
      ensures forall k :: k in ks <==> k in shared.entries
    {
      shared.entries.Keys
    }

    /** `values`, as a set. */
    function Values(): (vs: set<V>)
      reads shared
      ensures forall v :: v in vs <==> exists k :: k in shared.entries && shared.entries[k] == v
    {
      shared.entries.Values
    }

    /** `len`. */
    function Len(): (n: nat)
      reads shared
      ensures n == |Keys()|
    {
      |shared.entries|
    }

    /** `is_empty`. */
    function IsEmpty(): (b: bool)
      reads shared
      ensures b <==> Len() == 0
      ensures b <==> Keys() == {}
    {
      |shared.entries| == 0
    }

    /** `insert`: on a uniquely owned map, stores the value and returns the
        key's previous value; on a shared map, `get_mut` fails, nothing changes
        and the result is `None`. */
    method Insert(key: K, value: V) returns (previous: Option<V>)
      modifies shared
      ensures old(Unique()) ==> previous == old(Get(key)) && shared.entries == old(shared.entries)[key := value]
      ensures !old(Unique()) ==> previous == None && shared.entries == old(shared.entries)
      ensures shared.strongCount == old(shared.strongCount)
    {
      if shared.strongCount == 1 {
        previous := Get(key);
        shared.entries := shared.entries[key := value];
      } else {
        previous := None;
      }
    }
  }

  /** `ArcStrSet::insert_set`: inserts like `insert` and reports whether the
      key was ALREADY present, the opposite of `HashSet::insert`. */
  method InsertSet<K(==,!new)>(m: ArcStrMap<K, ()>, key: K) returns (wasPresent: bool)
    modifies m.shared
    ensures wasPresent <==> old(m.Unique()) && key in old(m.Keys())
    ensures old(m.Unique()) ==> m.Keys() == old(m.Keys()) + {key}
    ensures !old(m.Unique()) ==> m.shared.entries == old(m.shared.entries)
    ensures m.shared.strongCount == old(m.shared.strongCount)
  {
    var previous := m.Insert(key, ());
    wasPresent := previous.Some?;
  }

  /** Both constructors give an empty map. */
  method NewIsEmpty<K(==,!new), V(==,!new)>() returns (len: nat, empty: bool, emptyArcStrLen: nat, emptyArcStr: bool)
    ensures len == 0 && empty
    ensures emptyArcStrLen == 0 && emptyArcStr
  {
    var m := new ArcStrMap<K, V>.New();
    len, empty := m.Len(), m.IsEmpty();
    var n := new ArcStrMap<K, V>.NewEmptyArcStr();
    emptyArcStrLen, emptyArcStr := n.Len(), n.IsEmpty();
  }

  /** A clone sees what was written before it, and once a map is shared no
      handle can write to it any more. */
  method CloneSharesEntries<K(==,!new), V(==,!new)>(key: K, value: V, other: V)
    returns (seenByClone: Option<V>, insertThroughClone: Option<V>, insertThroughOriginal: Option<V>, seenAfter: Option<V>)
    ensures seenByClone == Some(value)
    ensures insertThroughClone == None && insertThroughOriginal == None
    ensures seenAfter == Some(value)
  {
    var m := new ArcStrMap<K, V>.New();
    var _ := m.Insert(key, value);
    var c := m.Clone();
    seenByClone := c.Get(key);
    insertThroughClone := c.Insert(key, other);
    insertThroughOriginal := m.Insert(key, other);
    seenAfter := m.Get(key);
  }
}
