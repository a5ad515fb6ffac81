/** The counting step shared by `get_others_for` (src/lib.rs and
    src/zaphkiel/thingies.rs) and `Vertex::add`: read the old count or 0,
    store it plus one. */
module Counting {
  import opened Wrappers

  /** `m.get(&k).unwrap_or(&0)`. */
  function CountOf<K>(m: map<K, nat>, k: K): (n: nat)
    ensures k in m ==> n == m[k]
    ensures k !in m ==> n == 0
  {
    if k in m then m[k] else 0
  }

  /** `m.insert(k, old + 1)` after reading `old` as above. */
  function Bump<K(!new)>(m: map<K, nat>, k: K): (r: map<K, nat>)
    ensures r.Keys == m.Keys + {k}
    ensures CountOf(r, k) == CountOf(m, k) + 1
    ensures forall x :: x != k ==> CountOf(r, x) == CountOf(m, x)
  {
    m[k := CountOf(m, k) + 1]
  }

  /** The number of sets in `sets` that contain `x`. */
  function Occurrences<K>(sets: seq<set<K>>, x: K): (n: nat)
    ensures n <= |sets|
    ensures n == 0 <==> forall i :: 0 <= i < |sets| ==> x !in sets[i]
  {
    if sets == [] then 0
    else Occurrences(sets[..|sets| - 1], x) + (if x in sets[|sets| - 1] then 1 else 0)
  }

  /** The inner loop `for user_id in other { .. }`: one more count for every
      element of the set. Set iteration order is left open. */
  method CountAll<K(!new)>(counts: map<K, nat>, other: set<K>) returns (r: map<K, nat>)
    requires forall x :: x in counts ==> counts[x] >= 1
    ensures forall x :: CountOf(r, x) == CountOf(counts, x) + (if x in other then 1 else 0)
    ensures forall x :: x in r ==> r[x] >= 1
  {
    r := counts;
    var remaining := other;
    while remaining != {}
      invariant remaining <= other
      invariant CountedSoFar(counts, r, other, remaining)
      decreases |remaining|
    {
      var x :| x in remaining;
      CountStep(counts, r, other, remaining, x);
      r := Bump(r, x);
      remaining := remaining - {x};
    }
  }

  /** Part-way through `CountAll`: the elements already visited (those not in
      `remaining`) have one more count, and every count is positive. */
  ghost predicate CountedSoFar<K(!new)>(counts: map<K, nat>, r: map<K, nat>, other: set<K>, remaining: set<K>)
  {
    && (forall x :: CountOf(r, x) == CountOf(counts, x) + (if x in other && x !in remaining then 1 else 0))
    && (forall x :: x in r ==> r[x] >= 1)
  }

  lemma CountStep<K(!new)>(counts: map<K, nat>, r: map<K, nat>, other: set<K>, remaining: set<K>, x: K)
    requires remaining <= other && x in remaining
    requires CountedSoFar(counts, r, other, remaining)
    ensures CountedSoFar(counts, Bump(r, x), other, remaining - {x})
  {
  }

  /** The nested loop `for other in others { for user_id in other { .. } }`:
      every element of every set is counted once per set that holds it, so
      the keys are the union of the sets and every count is at least 1. */
  method MergeCounts<K(!new)>(others: seq<set<K>>) returns (counts: map<K, nat>)
    ensures forall x :: CountOf(counts, x) == Occurrences(others, x)
    ensures forall x :: x in counts <==> exists i :: 0 <= i < |others| && x in others[i]
    ensures forall x :: x in counts ==> counts[x] >= 1
  {
    counts := map[];
    var i := 0;
    while i < |others|
      invariant 0 <= i <= |others|
      invariant forall x :: CountOf(counts, x) == Occurrences(others[..i], x)
      invariant forall x :: x in counts ==> counts[x] >= 1
    {
      counts := CountAll(counts, others[i]);
      assert others[..i + 1][..i] == others[..i];
      i := i + 1;
    }
    assert others[..|others|] == others;
    forall x
      ensures x in counts <==> exists i :: 0 <= i < |others| && x in others[i]
    {
      assert x in counts <==> CountOf(counts, x) != 0;
    }
  }

  /** Place `l` counts towards `x`: its per-place task finished without a
      panic and its set holds `x`. */
  predicate Contributes<L, X>(task: L -> Fatal<set<X>>, l: L, x: X)
  {
    task(l).Done? && x in task(l).value
  }

  /** The places of `s` that count towards `x`. */
  function Contributors<L, X>(task: L -> Fatal<set<X>>, s: set<L>, x: X): (c: set<L>)
    ensures c <= s
  {
    set l | l in s && Contributes(task, l, x)
  }

  lemma ContributorsMember<L, X>(task: L -> Fatal<set<X>>, s: set<L>, l: L, x: X)
    ensures l in Contributors(task, s, x) <==> l in s && Contributes(task, l, x)
  {
  }

  lemma ContributorsStep<L, X>(task: L -> Fatal<set<X>>, s: set<L>, l: L, x: X)
    requires l !in s
    ensures |Contributors(task, s + {l}, x)| == |Contributors(task, s, x)| + (if Contributes(task, l, x) then 1 else 0)
  {
    if Contributes(task, l, x) {
      assert Contributors(task, s + {l}, x) == Contributors(task, s, x) + {l};
    } else {
      assert Contributors(task, s + {l}, x) == Contributors(task, s, x);
    }
  }

  lemma SubsetCardinality<T>(a: set<T>, b: set<T>)
    requires a <= b
    ensures |a| <= |b|
  {
    assert b == a + (b - a);
  }

  /** Run the task of every place (in any order), keep the non-empty sets of
      the tasks that finished, and merge them with `MergeCounts`: every
      element is counted once per place whose set holds it. When `strict`,
      a task that panics takes the whole count down with it; otherwise it is
      skipped, as a `JoinSet` skips a task that panicked. */
  method CountAcrossPlaces<L, X(!new)>(places: set<L>, task: L -> Fatal<set<X>>, strict: bool)
    returns (r: Fatal<map<X, nat>>)
    ensures r.Done? <==> !strict || forall l :: l in places ==> task(l).Done?
    ensures r.Done? ==> forall x :: CountOf(r.value, x) == |Contributors(task, places, x)|
    ensures r.Done? ==> forall x :: x in r.value <==> exists l :: l in places && Contributes(task, l, x)
    ensures r.Done? ==> forall x :: x in r.value ==> 1 <= r.value[x] <= |places|
  {
    var others: seq<set<X>> := [];
    var pending := places;
    ghost var done: set<L> := {};
    while pending != {}
      invariant pending + done == places && pending !! done
      invariant forall x :: Occurrences(others, x) == |Contributors(task, done, x)|
      invariant strict ==> forall l :: l in done ==> task(l).Done?
      decreases |pending|
    {
      var l :| l in pending;
      var outcome := task(l);
      if strict && outcome.Panic? {
        return Panic(outcome.message);
      }
      var before := others;
      if outcome.Done? && outcome.value != {} {
        others := others + [outcome.value];
      }
      forall x
        ensures Occurrences(others, x) == |Contributors(task, done + {l}, x)|
      {
        ContributorsStep(task, done, l, x);
        if others != before {
          assert others[..|others| - 1] == before;
        }
      }
      pending := pending - {l};
      done := done + {l};
    }
    var counts := MergeCounts(others);
    forall x | x in counts
      ensures counts[x] <= |places|
    {
      SubsetCardinality(Contributors(task, places, x), places);
    }
    forall x
      ensures x in counts <==> exists l :: l in places && Contributes(task, l, x)
    {
      var c := Contributors(task, places, x);
      if x in counts {
        assert c != {};
        var l :| l in c;
        ContributorsMember(task, places, l, x);
      } else if l :| l in places && Contributes(task, l, x) {
        ContributorsMember(task, places, l, x);
        assert false;
      }
    }
    r := Done(counts);
  }
}
