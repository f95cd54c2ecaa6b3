/** A minimal stand-in for tskit's `TableCollection`: an append-only node
    table (each node is its birth time; a node's id is its index), an
    append-only edge table, and `simplify`, an external algorithm whose
    result is supplied by the caller and whose guarantees are stated as an
    explicit assumption (`HonestSimplifier`). */
module Tables {
  import opened Wrappers

  /** `tsk_id_t`; `NULL` is `TSK_NULL`. */
  type NodeId = int
  const NULL: NodeId := -1

  /** "child inherited [left, right) from parent" */
  datatype Edge = Edge(left: real, right: real, parent: NodeId, child: NodeId)

  /** An edge that lies within the genome, refers to existing nodes and whose
      parent is strictly older (larger time) than its child. */
  ghost predicate ValidEdge(times: seq<int>, len: real, e: Edge)
  {
    && 0.0 <= e.left < e.right <= len
    && 0 <= e.parent < |times| && 0 <= e.child < |times|
    && times[e.parent] > times[e.child]
  }

  ghost predicate ValidEdges(times: seq<int>, edges: seq<Edge>, len: real)
  {
    forall i :: 0 <= i < |edges| ==> ValidEdge(times, len, edges[i])
  }

  ghost predicate DistinctIds(ids: seq<NodeId>)
  {
    forall i, j :: 0 <= i < j < |ids| ==> ids[i] != ids[j]
  }

  ghost predicate IdsBelow(ids: seq<NodeId>, n: int)
  {
    forall i :: 0 <= i < |ids| ==> 0 <= ids[i] < n
  }

  /** Every node time lies in [0, top]. */
  ghost predicate TimesWithin(times: seq<int>, top: int)
  {
    forall i :: 0 <= i < |times| ==> 0 <= times[i] <= top
  }

  /** `n` node times all equal to `t`. */
  function Repeat(t: int, n: nat): (r: seq<int>)
    ensures |r| == n && forall i :: 0 <= i < n ==> r[i] == t
  {
    seq(n, _ => t)
  }

  /** What tskit's simplify hands back: the id map (old id to new id or NULL)
      and the new node and edge tables; `Failed` is an error or a missing map. */
  datatype SimplifyOutcome = Simplified(idmap: seq<NodeId>, nodes: seq<int>, edges: seq<Edge>) | Failed

  /** simplify(node times, edges, sequence length, samples) */
  type Simplifier = (seq<int>, seq<Edge>, real, seq<NodeId>) -> SimplifyOutcome

  /** The guarantees the model relies on, for a valid edge table and samples
      that are distinct existing nodes (tskit rejects tables whose edges are
      empty, outside the genome, or not older-parent-to-younger-child): a map
      covering every old node, defined on every sample, injective where
      defined, onto the new node table, keeping each surviving node's time,
      and a valid new edge table. */
  ghost predicate SimplifyContract(times: seq<int>, edges: seq<Edge>, len: real, samples: seq<NodeId>, out: SimplifyOutcome)
  {
    ValidEdges(times, edges, len) && DistinctIds(samples) && IdsBelow(samples, |times|) ==>
      && out.Simplified?
      && |out.idmap| == |times|
      && (forall o :: 0 <= o < |times| ==> out.idmap[o] == NULL || 0 <= out.idmap[o] < |out.nodes|)
      && (forall o :: 0 <= o < |times| && out.idmap[o] != NULL ==> out.nodes[out.idmap[o]] == times[o])
      && (forall o, o' :: 0 <= o < o' < |times| && out.idmap[o] != NULL ==> out.idmap[o] != out.idmap[o'])
      && (forall k :: 0 <= k < |samples| ==> out.idmap[samples[k]] != NULL)
      && (forall n :: 0 <= n < |out.nodes| ==> IsImage(out.idmap, |times|, n))
      && ValidEdges(out.nodes, out.edges, len)
  }

  /** New node `n` is the image of some old node. */
  ghost predicate IsImage(idmap: seq<NodeId>, count: nat, n: NodeId)
    requires count <= |idmap|
  {
    exists o :: 0 <= o < count && idmap[o] == n
  }

  ghost predicate HonestSimplifier(simplify: Simplifier)
  {
    forall times, edges, len, samples :: SimplifyContract(times, edges, len, samples, simplify(times, edges, len, samples))
  }

  /** The simplifier that keeps everything; it shows that the assumption can be met. */
  function KeepAll(times: seq<int>, edges: seq<Edge>, len: real, samples: seq<NodeId>): (out: SimplifyOutcome)
  {
    Simplified(seq(|times|, i => i), times, edges)
  }

  lemma KeepAllIsHonest()
    ensures HonestSimplifier(KeepAll)
  {
    forall times, edges, len, samples
      ensures SimplifyContract(times, edges, len, samples, KeepAll(times, edges, len, samples))
    {
      var out := KeepAll(times, edges, len, samples);
      forall n | 0 <= n < |out.nodes|
        ensures IsImage(out.idmap, |times|, n)
      {
        assert out.idmap[n] == n;
      }
    }
  }

  /** A surviving node keeps its time, so a bound on all old times bounds all new ones. */
  lemma SimplifyKeepsTimesWithin(times: seq<int>, edges: seq<Edge>, len: real, samples: seq<NodeId>, out: SimplifyOutcome, top: int)
    requires SimplifyContract(times, edges, len, samples, out)
    requires ValidEdges(times, edges, len) && DistinctIds(samples) && IdsBelow(samples, |times|)
    requires TimesWithin(times, top)
    ensures out.Simplified? && TimesWithin(out.nodes, top)
  {
    forall n | 0 <= n < |out.nodes|
      ensures 0 <= out.nodes[n] <= top
    {
      assert IsImage(out.idmap, |times|, n);
      var o :| 0 <= o < |times| && out.idmap[o] == n;
      assert out.nodes[out.idmap[o]] == times[o];
    }
  }

  class TableCollection {
    const sequenceLength: real
    var nodes: seq<int>
    var edges: seq<Edge>

    /** `TableCollection::new(sequence_length)` */
    constructor (sequenceLength: real)
      ensures this.sequenceLength == sequenceLength
      ensures nodes == [] && edges == []
    {
      this.sequenceLength := sequenceLength;
      nodes, edges := [], [];
    }

    /** `tables.nodes().time(id)`: an error for an id outside the node table. */
    function Time(id: NodeId): (t: Option<int>)
      reads this
      ensures t.Some? <==> 0 <= id < |nodes|
      ensures t.Some? ==> t.value == nodes[id]
    {
      if 0 <= id < |nodes| then Some(nodes[id]) else None
    }

    /** `tables.add_node(0, time, NULL, NULL)`: the new id is the old row count. */
    method AddNode(time: int) returns (id: NodeId)
      modifies this
      ensures id == |old(nodes)|
      ensures nodes == old(nodes) + [time] && edges == old(edges)
    {
      id := |nodes|;
      nodes := nodes + [time];
    }

    /** `tables.add_edge(left, right, parent, child)`: no validation at insertion. */
    method AddEdge(left: real, right: real, parent: NodeId, child: NodeId)
      modifies this
      ensures edges == old(edges) + [Edge(left, right, parent, child)]
      ensures nodes == old(nodes)
    {
      edges := edges + [Edge(left, right, parent, child)];
    }

    /** `full_sort` followed by `simplify(samples, ..., idmap = true)`: the
        tables become the simplified ones and the id map is returned. */
    method Simplify(samples: seq<NodeId>, simplify: Simplifier) returns (idmap: Option<seq<NodeId>>)
      modifies this
      ensures var out := simplify(old(nodes), old(edges), sequenceLength, samples);
        match out
        case Simplified(m, ns, es) => idmap == Some(m) && nodes == ns && edges == es
        case Failed => idmap == None && nodes == old(nodes) && edges == old(edges)
    {
      var out := simplify(nodes, edges, sequenceLength, samples);
      match out
      case Simplified(m, ns, es) =>
        nodes, edges := ns, es;
        idmap := Some(m);
      case Failed =>
        idmap := None;
    }
  }
}
