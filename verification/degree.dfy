/**
  Join graphs and the degree statistics attached to them: the value part of
  `samkhya-core/src/degree.rs`.
 */
module Degree {
  import opened Machine

  /** Two relations share an attribute exactly when they use the same identifier. */
  type AttributeId = u32

  /** Upper bound on how many rows of a relation share one value of an attribute. */
  datatype AttributeDegree = AttributeDegree(maxDegree: u64)

  function Unknown(rows: u64): AttributeDegree {
    AttributeDegree(rows)
  }

  function FromDistinct(rows: u64, distinct: u64): AttributeDegree {
    if distinct == 0 || distinct > rows then Unknown(rows) else AttributeDegree(rows - distinct + 1)
  }

  function FromUpperBound(rows: u64, upperBound: u64): AttributeDegree {
    AttributeDegree(if upperBound < rows then upperBound else rows)
  }

  /** From the non-zero registers of a HyperLogLog sketch, a distinct-count floor. */
  function FromHllFloor(rows: u64, nonzeroRegisters: u64): AttributeDegree {
    FromDistinct(rows, nonzeroRegisters)
  }

  /** From the largest counter of a Count-Min sketch, unless the sketch has saturated. */
  function FromCountMin(rows: u64, maxFrequencyBound: Option<u32>): AttributeDegree {
    if maxFrequencyBound.Some? then FromUpperBound(rows, maxFrequencyBound.value) else Unknown(rows)
  }

  datatype JoinRelation = JoinRelation(rows: u64, degrees: map<AttributeId, AttributeDegree>) {
    /** A relation about which only the row count is known. */
    static function New(rows: u64): JoinRelation {
      JoinRelation(rows, map[])
    }

    function WithDegree(attribute: AttributeId, degree: AttributeDegree): JoinRelation {
      this.(degrees := degrees[attribute := degree])
    }

    function Degree(attribute: AttributeId): AttributeDegree {
      if attribute in degrees then degrees[attribute] else Unknown(rows)
    }
  }

  /** What joining a relation over an attribute costs: the degree attached to it, or without one the row count. */
  ghost predicate Costs(relation: JoinRelation, attribute: AttributeId, factor: u64) {
    factor == if attribute in relation.degrees then relation.degrees[attribute].maxDegree else relation.rows
  }

  datatype JoinEdge = JoinEdge(left: nat, right: nat, attribute: AttributeId)

  datatype JoinGraph = JoinGraph(relations: seq<JoinRelation>, edges: seq<JoinEdge>) {
    static function New(relations: seq<JoinRelation>): JoinGraph {
      JoinGraph(relations, [])
    }

    /** Out-of-range indices and self-edges are dropped. */
    function WithEdge(left: nat, right: nat, attribute: AttributeId): JoinGraph {
      if left < |relations| && right < |relations| && left != right then
        this.(edges := edges + [JoinEdge(left, right, attribute)])
      else
        this
    }

    /** Every edge joins two different relations of the graph. */
    predicate Valid() {
      forall e | e in edges :: e.left < |relations| && e.right < |relations| && e.left != e.right
    }

    function Size(): nat {
      |relations|
    }

    function Rows(v: nat): u64
      requires v < Size()
    {
      relations[v].rows
    }
  }

  /** The arguments of one request for an edge. */
  type EdgeCall = (nat, nat, AttributeId)

  predicate Kept(n: nat, call: EdgeCall) {
    call.0 < n && call.1 < n && call.0 != call.1
  }

  function KeptCount(n: nat, calls: seq<EdgeCall>): nat {
    if calls == [] then 0
    else
      var last := |calls| - 1;
      KeptCount(n, calls[..last]) + if Kept(n, calls[last]) then 1 else 0
  }

  /**
    Every graph the builder can produce, from any arguments, is valid: the edge of each
    request that is kept stands after those of the requests kept before it.
   */
  function Build(relations: seq<JoinRelation>, calls: seq<EdgeCall>): (g: JoinGraph)
    ensures g.Valid() && g.relations == relations
    ensures |g.edges| == KeptCount(|relations|, calls)
    ensures forall i | 0 <= i < |calls| && Kept(|relations|, calls[i]) ::
              var at := KeptCount(|relations|, calls[..i]);
              at < |g.edges| && g.edges[at] == JoinEdge(calls[i].0, calls[i].1, calls[i].2)
    ensures forall e :: e in g.edges <==>
                        Kept(|relations|, (e.left, e.right, e.attribute)) && (e.left, e.right, e.attribute) in calls
  {
    if calls == [] then JoinGraph.New(relations)
    else
      var n, last := |calls| - 1, calls[|calls| - 1];
      assert forall i | 0 <= i <= n :: calls[..n][..i] == calls[..i];
      Build(relations, calls[..n]).WithEdge(last.0, last.1, last.2)
  }
}
