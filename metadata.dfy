/** The statistics attached to each normalised edge, with their equality,
    partial order and serialised form (src/zaphkiel/metadata.rs). */
module EdgeMetadata {
  import opened Wrappers

  /** `count`, `max` and `total` are `u32` in the source and unbounded here;
      `percentage` and `percentile` are `f64` in the source and integer
      hundredths here (a value of 66.67 is held as 6667). */
  datatype Metadata = Metadata(count: nat, max: nat, total: nat, percentage: nat, percentile: nat)

  datatype Ordering = Less | Equal | Greater

  /** `u32::cmp`. */
  function CompareCounts(x: nat, y: nat): (o: Ordering)
    ensures o == Less <==> x < y
    ensures o == Equal <==> x == y
    ensures o == Greater <==> x > y
  {
    if x < y then Less else if x == y then Equal else Greater
  }

  /** `PartialEq for Metadata`: only `count`, `total` and `max` take part. */
  predicate Eq(a: Metadata, b: Metadata)
  {
    a.count == b.count && a.total == b.total && a.max == b.max
  }

  /** `PartialOrd for Metadata`: two values compare only when they belong to
      the same node (same `total` and `max`), and then by `count`. */
  function PartialCmp(a: Metadata, b: Metadata): (r: Option<Ordering>)
    ensures r.Some? <==> a.total == b.total && a.max == b.max
    ensures r == Some(Equal) <==> Eq(a, b)
    ensures r == Some(Less) <==> r.Some? && a.count < b.count
    ensures r == Some(Greater) <==> r.Some? && a.count > b.count
  {
    if a.total == b.total && a.max == b.max then Some(CompareCounts(a.count, b.count)) else None
  }

  /** `Ord for Metadata`: `partial_cmp(..).unwrap()`, which panics on values of
      different nodes, so callers must only compare values of one node. */
  function Cmp(a: Metadata, b: Metadata): (o: Ordering)
    requires a.total == b.total && a.max == b.max
    ensures Some(o) == PartialCmp(a, b)
  {
    PartialCmp(a, b).value
  }

  /** `Eq for Metadata` promises an equivalence relation; it is one. */
  lemma EqIsEquivalence(a: Metadata, b: Metadata, c: Metadata)
    ensures Eq(a, a)
    ensures Eq(a, b) ==> Eq(b, a)
    ensures Eq(a, b) && Eq(b, c) ==> Eq(a, c)
  {
  }

  /** Equality ignores the two derived statistics. */
  lemma EqIgnoresStatistics(a: Metadata, percentage: nat, percentile: nat)
    ensures Eq(a, a.(percentage := percentage, percentile := percentile))
  {
  }

  /** Within one node the order is a total order: antisymmetric, transitive,
      and any two values compare. */
  lemma CmpIsTotalWithinNode(a: Metadata, b: Metadata, c: Metadata)
    requires a.total == b.total == c.total && a.max == b.max == c.max
    ensures Cmp(a, b) == Less <==> Cmp(b, a) == Greater
    ensures Cmp(a, b) == Equal <==> Cmp(b, a) == Equal
    ensures Cmp(a, b) != Greater && Cmp(b, c) != Greater ==> Cmp(a, c) != Greater
  {
  }

  /** One element of the serialised tuple. */
  datatype Element = U32Element(n: nat) | F64Element(hundredths: nat)

  /** `Serialize for Metadata`: a 5-tuple, in the order count, max, total,
      percentage, percentile. */
  function Serialize(m: Metadata): (t: seq<Element>)
    ensures |t| == 5
    ensures t[0] == U32Element(m.count) && t[1] == U32Element(m.max) && t[2] == U32Element(m.total)
    ensures t[3] == F64Element(m.percentage) && t[4] == F64Element(m.percentile)
  {
    [U32Element(m.count), U32Element(m.max), U32Element(m.total),
     F64Element(m.percentage), F64Element(m.percentile)]
  }

  /** The tuple determines every field: serialisation loses nothing. */
  lemma SerializeInjective(a: Metadata, b: Metadata)
    requires Serialize(a) == Serialize(b)
    ensures a == b
  {
    assert Serialize(a)[0] == Serialize(b)[0];
    assert Serialize(a)[1] == Serialize(b)[1];
    assert Serialize(a)[2] == Serialize(b)[2];
    assert Serialize(a)[3] == Serialize(b)[3];
    assert Serialize(a)[4] == Serialize(b)[4];
  }
}
