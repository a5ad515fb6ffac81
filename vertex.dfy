/** `Vertex` (src/zaphkiel/vertex.rs): a name and a bag counting how often
    each other vertex was added. */
module Vertices {
  import opened Counting

  /** A vertex as a value, which is what the neighbour map is keyed by. */
  datatype VertexValue = VertexValue(name: string, everyoneElse: map<VertexValue, nat>)

  /** `Hash for Vertex`: only the name is hashed. */
  function HashOf(v: VertexValue): string
  {
    v.name
  }

  class Vertex {
    var name: string
    var everyoneElse: map<VertexValue, nat>

    /** `Vertex::new`: the given name and no neighbours. */
    constructor (name: string)
      ensures this.name == name && everyoneElse == map[]
    {
      this.name := name;
      everyoneElse := map[];
    }

    /** The current state as a value. */
    function Value(): VertexValue
      reads this
    {
      VertexValue(name, everyoneElse)
    }

    /** `add`: one more occurrence of `other`; the name and every other count
        stay as they were. */
    method Add(other: VertexValue)
      modifies this
      ensures name == old(name)
      ensures everyoneElse == Bump(old(everyoneElse), other)
    {
      everyoneElse := Bump(everyoneElse, other);
    }
  }

  /** Equality is structural and the hash reads the name only, so equal
      vertices hash equally (the contract `Hash` must keep), while vertices
      that differ only in their neighbours collide. */
  lemma HashAgreesWithEq(a: VertexValue, b: VertexValue)
    ensures a == b ==> HashOf(a) == HashOf(b)
    ensures HashOf(a) == HashOf(b) <==> a.name == b.name
  {
  }

  /** Adding the same vertex twice counts it twice and leaves the hash alone. */
  method AddTwice(name: string, other: VertexValue) returns (count: nat, hash: string)
    ensures count == 2 && hash == name
  {
    var v := new Vertex(name);
    v.Add(other);
    v.Add(other);
    count := CountOf(v.everyoneElse, other);
    hash := HashOf(v.Value());
  }
}
