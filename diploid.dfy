/** Diploid reproduction with recombination, recorded as tskit nodes and edges. */
module Diploids {
  import opened Wrappers
  import opened Floats
  import opened Random
  import opened Tables

  /** `SimParams`; the u32 fields are naturals. */
  datatype SimParams = SimParams(
    popsize: nat,
    nsteps: nat,
    xovers: real,
    psurvival: F64,
    genomeLength: real,
    simplificationInterval: nat)

  /** `SimParams::default()` */
  const DefaultParams := SimParams(1000, 1000, 0.0, Finite(0.0), 1000000.0, 100)

  datatype Diploid = Diploid(node0: NodeId, node1: NodeId)

  /** A dead slot `index` and the two parents of its replacement. */
  datatype Parents = Parents(index: nat, parent0: Diploid, parent1: Diploid)

  // ---------------------------------------------------------------------------
  // Survival and death

  /** The records `death_and_parents` pushes for slots `index..`, when the
      next draw is at `pos`, and the position after them. For each slot one
      uniform draw is compared with `psurvival`; only a draw that compares
      Greater kills the slot, and then two more draws pick its parents
      among the first `popsize` slots. */
  function DeathRecords(alive: seq<Diploid>, popsize: nat, psurvival: F64, unit: nat -> real, index: nat, pos: nat): (r: (seq<Parents>, nat))
    requires 0 < popsize <= |alive|
    requires UnitDraws(unit)
    ensures pos <= r.1
    ensures forall k :: 0 <= k < |r.0| ==> index <= r.0[k].index
    decreases |alive| - index
  {
    if |alive| <= index then ([], pos)
    else if PartialCmp(Finite(unit(pos)), psurvival) == Some(Greater) then
      var parent0 := alive[PickFrom(unit(pos + 1), popsize)];
      var parent1 := alive[PickFrom(unit(pos + 2), popsize)];
      var rest := DeathRecords(alive, popsize, psurvival, unit, index + 1, pos + 3);
      ([Parents(index, parent0, parent1)] + rest.0, rest.1)
    else
      DeathRecords(alive, popsize, psurvival, unit, index + 1, pos + 1)
  }

  /** Record indices strictly increase. */
  ghost predicate IncreasingSlots(records: seq<Parents>)
  {
    forall k, l :: 0 <= k < l < |records| ==> records[k].index < records[l].index
  }

  /** Records are pushed in increasing slot order, one at most per slot, each
      slot below `|alive|`, each parent a copy of one of the first `popsize`
      individuals; one to three draws are consumed per slot. */
  lemma {:induction false} DeathRecordsWellFormed(alive: seq<Diploid>, popsize: nat, psurvival: F64, unit: nat -> real, index: nat, pos: nat)
    requires 0 < popsize <= |alive|
    requires UnitDraws(unit)
    requires index <= |alive|
    ensures var (records, end) := DeathRecords(alive, popsize, psurvival, unit, index, pos);
      && |records| <= |alive| - index
      && IncreasingSlots(records)
      && (forall k :: 0 <= k < |records| ==> index <= records[k].index < |alive|)
      && (forall k :: 0 <= k < |records| ==> records[k].parent0 in alive[..popsize] && records[k].parent1 in alive[..popsize])
      && pos + (|alive| - index) <= end <= pos + 3 * (|alive| - index)
    decreases |alive| - index
  {
    if index < |alive| {
      var rest0 := DeathRecords(alive, popsize, psurvival, unit, index + 1, pos + 3);
      var rest1 := DeathRecords(alive, popsize, psurvival, unit, index + 1, pos + 1);
      DeathRecordsWellFormed(alive, popsize, psurvival, unit, index + 1, pos + 3);
      DeathRecordsWellFormed(alive, popsize, psurvival, unit, index + 1, pos + 1);
      if PartialCmp(Finite(unit(pos)), psurvival) == Some(Greater) {
        var p0 := alive[PickFrom(unit(pos + 1), popsize)];
        var p1 := alive[PickFrom(unit(pos + 2), popsize)];
        assert p0 in alive[..popsize] && p1 in alive[..popsize];
      }
    }
  }

  /** The first slot gets a record exactly when its draw compares Greater than `psurvival`. */
  lemma FirstSlotDecision(alive: seq<Diploid>, popsize: nat, psurvival: F64, unit: nat -> real, index: nat, pos: nat)
    requires 0 < popsize <= |alive|
    requires UnitDraws(unit)
    requires index < |alive|
    ensures var records := DeathRecords(alive, popsize, psurvival, unit, index, pos).0;
      (records != [] && records[0].index == index) <==> PartialCmp(Finite(unit(pos)), psurvival) == Some(Greater)
  {
    DeathRecordsWellFormed(alive, popsize, psurvival, unit, index + 1, pos + 1);
  }

  /** A NaN `psurvival` compares unordered with every draw: nobody dies. */
  lemma {:induction false} NaNSurvivalKillsNobody(alive: seq<Diploid>, popsize: nat, unit: nat -> real, index: nat, pos: nat)
    requires 0 < popsize <= |alive|
    requires UnitDraws(unit)
    ensures DeathRecords(alive, popsize, NaN, unit, index, pos) == ([], pos + if index <= |alive| then |alive| - index else 0)
    decreases |alive| - index
  {
    if index < |alive| {
      NaNSurvivalKillsNobody(alive, popsize, unit, index + 1, pos + 1);
    }
  }

  /** With `psurvival >= 1` no draw in [0, 1) is greater: nobody dies. */
  lemma {:induction false} CertainSurvival(alive: seq<Diploid>, popsize: nat, psurvival: F64, unit: nat -> real, index: nat, pos: nat)
    requires 0 < popsize <= |alive|
    requires UnitDraws(unit)
    requires psurvival == PosInf || (psurvival.Finite? && 1.0 <= psurvival.value)
    ensures DeathRecords(alive, popsize, psurvival, unit, index, pos).0 == []
    decreases |alive| - index
  {
    if index < |alive| {
      CertainSurvival(alive, popsize, psurvival, unit, index + 1, pos + 1);
    }
  }

  /** With `psurvival < 0` every draw is greater: every slot from `index` on dies, in order. */
  lemma {:induction false} CertainDeath(alive: seq<Diploid>, popsize: nat, psurvival: F64, unit: nat -> real, index: nat, pos: nat)
    requires 0 < popsize <= |alive|
    requires UnitDraws(unit)
    requires index <= |alive|
    requires psurvival == NegInf || (psurvival.Finite? && psurvival.value < 0.0)
    ensures var records := DeathRecords(alive, popsize, psurvival, unit, index, pos).0;
      |records| == |alive| - index && forall k :: 0 <= k < |records| ==> records[k].index == index + k
    decreases |alive| - index
  {
    if index < |alive| {
      CertainDeath(alive, popsize, psurvival, unit, index + 1, pos + 3);
    }
  }

  /** `death_and_parents(alive, params, parents, rng)`: appends to `parents`
      the records of this step's deaths; `alive` is only read. */
  method DeathAndParents(alive: array<Diploid>, params: SimParams, parents: seq<Parents>, rng: Rng) returns (parents': seq<Parents>)
    requires 0 < params.popsize <= alive.Length
    requires UnitDraws(rng.stream.unit)
    modifies rng
    ensures var (records, end) := DeathRecords(alive[..], params.popsize, params.psurvival, rng.stream.unit, 0, old(rng.pos));
      parents' == parents + records && rng.pos == end
  {
    ghost var total := DeathRecords(alive[..], params.popsize, params.psurvival, rng.stream.unit, 0, rng.pos);
    parents' := parents;
    for index := 0 to alive.Length
      invariant parents' + DeathRecords(alive[..], params.popsize, params.psurvival, rng.stream.unit, index, rng.pos).0 == parents + total.0
      invariant DeathRecords(alive[..], params.popsize, params.psurvival, rng.stream.unit, index, rng.pos).1 == total.1
    {
      var x := rng.Gen();
      match PartialCmp(Finite(x), params.psurvival)
      case Some(Greater) =>
        var k0 := rng.Sample(params.popsize);
        var parent0 := alive[k0];
        var k1 := rng.Sample(params.popsize);
        var parent1 := alive[k1];
        parents' := parents' + [Parents(index, parent0, parent1)];
      case Some(_) =>
      case None =>
    }
  }

  // ---------------------------------------------------------------------------
  // Mendel and crossover

  function Swap(p: (NodeId, NodeId)): (r: (NodeId, NodeId))
  {
    (p.1, p.0)
  }

  /** The Mendel coin: the pair is a permutation of the input, swapped
      exactly when the draw is below one half. */
  function MendelOrder(pnodes: (NodeId, NodeId), u: real): (r: (NodeId, NodeId))
    ensures multiset{r.0, r.1} == multiset{pnodes.0, pnodes.1}
    ensures u < 0.5 ==> r.0 == pnodes.1 && r.1 == pnodes.0
    ensures 0.5 <= u ==> r == pnodes
  {
    if u < 0.5 then Swap(pnodes) else pnodes
  }

  /** `mendel(&mut pnodes, rng)`; a draw in [0, 1) is never NaN, so the panic arm is unreachable. */
  method Mendel(pnodes: (NodeId, NodeId), rng: Rng) returns (r: (NodeId, NodeId))
    modifies rng
    ensures rng.pos == old(rng.pos) + 1
    ensures r == MendelOrder(pnodes, rng.stream.unit(old(rng.pos)))
  {
    var x := rng.Gen();
    r := pnodes;
    if x < 0.5 {
      r := (r.1, r.0);
    }
  }

  /** The strand pair after `n` swaps. */
  function Alternate(p: (NodeId, NodeId), n: nat): (r: (NodeId, NodeId))
  {
    if n % 2 == 0 then p else Swap(p)
  }

  /** Edges the crossover loop records for `child` from position `from`,
      consuming breakpoint lengths in order: a span that ends before the
      genome end is inherited from the current first strand and the strands
      swap; the first span that would reach the end is cut there and ends the loop. */
  function XoverEdges(pnodes: (NodeId, NodeId), child: NodeId, from: real, lengths: seq<real>, len: real): (es: seq<Edge>)
    ensures |es| > 0 && es[0].left == from && es[0].parent == pnodes.0 && es[|es| - 1].right == len
    ensures forall i :: 0 <= i < |es| ==> es[i].child == child
    decreases |lengths|
  {
    if lengths == [] || len <= from + lengths[0] then [Edge(from, len, pnodes.0, child)]
    else [Edge(from, from + lengths[0], pnodes.0, child)] + XoverEdges(Swap(pnodes), child, from + lengths[0], lengths[1..], len)
  }

  /** The edges of spans that all end before the genome end. */
  function Emitted(pnodes: (NodeId, NodeId), child: NodeId, from: real, lengths: seq<real>): (es: seq<Edge>)
    decreases |lengths|
  {
    if lengths == [] then []
    else [Edge(from, from + lengths[0], pnodes.0, child)] + Emitted(Swap(pnodes), child, from + lengths[0], lengths[1..])
  }

  /** What `crossover_and_record_edges_details` records: the whole genome from
      the first strand without crossovers, otherwise the crossover edges. */
  function RecordedEdges(pnodes: (NodeId, NodeId), child: NodeId, xovers: real, lengths: seq<real>, len: real): (es: seq<Edge>)
    ensures |es| > 0 && es[0].left == 0.0 && es[0].parent == pnodes.0 && es[0].child == child
    ensures es[|es| - 1].right == len
  {
    if xovers == 0.0 then [Edge(0.0, len, pnodes.0, child)]
    else XoverEdges(pnodes, child, 0.0, lengths, len)
  }

  ghost predicate Positive(w: seq<real>)
  {
    forall i :: 0 <= i < |w| ==> 0.0 < w[i]
  }

  /** `w` is exactly the lengths the loop consumes: the last one is the first to reach `len`. */
  ghost predicate Breaks(w: seq<real>, len: real)
  {
    |w| > 0 && Sum(w[..|w| - 1]) < len <= Sum(w)
  }

  /** `es` cover [from, to) with contiguous non-empty intervals. */
  ghost predicate Tiles(es: seq<Edge>, from: real, to: real)
  {
    && |es| > 0
    && es[0].left == from
    && es[|es| - 1].right == to
    && (forall i :: 0 <= i < |es| ==> from <= es[i].left < es[i].right <= to)
    && (forall i :: 0 <= i < |es| - 1 ==> es[i].right == es[i + 1].left)
  }

  /** All edges go to `child`, taking strands alternately, `p.0` first. */
  ghost predicate AlternatesFrom(es: seq<Edge>, p: (NodeId, NodeId), child: NodeId)
  {
    forall i :: 0 <= i < |es| ==> es[i].child == child && es[i].parent == (if i % 2 == 0 then p.0 else p.1)
  }

  /** One meiosis: `child` inherits the whole genome as a mosaic of the two copies of `parent`. */
  ghost predicate Transmission(es: seq<Edge>, parent: Diploid, child: NodeId, len: real)
  {
    && Tiles(es, 0.0, len)
    && (AlternatesFrom(es, (parent.node0, parent.node1), child) || AlternatesFrom(es, (parent.node1, parent.node0), child))
  }

  lemma {:induction false} SumNonNegative(w: seq<real>)
    requires Positive(w)
    ensures 0.0 <= Sum(w)
  {
    if w != [] {
      SumNonNegative(w[1..]);
    }
  }

  /** A span [from, next) in front of a tiling of [next, to) tiles [from, to). */
  lemma ConsTiles(head: Edge, rest: seq<Edge>, from: real, next: real, to: real)
    requires head.left == from < next == head.right
    requires Tiles(rest, next, to)
    ensures Tiles([head] + rest, from, to)
  {
    var es := [head] + rest;
    forall i | 1 <= i < |es|
      ensures es[i] == rest[i - 1]
    {
    }
  }

  /** An edge from `p.0` in front of edges alternating from `Swap(p)` alternates from `p`. */
  lemma ConsAlternates(head: Edge, rest: seq<Edge>, p: (NodeId, NodeId), child: NodeId)
    requires head.child == child && head.parent == p.0
    requires AlternatesFrom(rest, Swap(p), child)
    ensures AlternatesFrom([head] + rest, p, child)
  {
    var es := [head] + rest;
    forall i | 1 <= i < |es|
      ensures es[i] == rest[i - 1]
      ensures es[i].parent == (if i % 2 == 0 then p.0 else p.1)
    {
      assert (i - 1) % 2 == 0 <==> i % 2 != 0;
    }
  }

  /** With positive lengths and `from < len`, the crossover edges tile [from, len),
      alternating strands from `pnodes.0`. */
  lemma {:induction false} XoverTiles(pnodes: (NodeId, NodeId), child: NodeId, from: real, lengths: seq<real>, len: real)
    requires Positive(lengths) && from < len
    ensures Tiles(XoverEdges(pnodes, child, from, lengths, len), from, len)
    ensures AlternatesFrom(XoverEdges(pnodes, child, from, lengths, len), pnodes, child)
    decreases |lengths|
  {
    if !(lengths == [] || len <= from + lengths[0]) {
      var next := from + lengths[0];
      var head := Edge(from, next, pnodes.0, child);
      var rest := XoverEdges(Swap(pnodes), child, next, lengths[1..], len);
      XoverTiles(Swap(pnodes), child, next, lengths[1..], len);
      ConsTiles(head, rest, from, next, len);
      ConsAlternates(head, rest, pnodes, child);
    }
  }

  lemma {:induction false} EmittedAppend(pnodes: (NodeId, NodeId), child: NodeId, from: real, w: seq<real>, x: real)
    ensures Emitted(pnodes, child, from, w + [x]) == Emitted(pnodes, child, from, w) + [Edge(from + Sum(w), from + Sum(w) + x, Alternate(pnodes, |w|).0, child)]
    decreases |w|
  {
    if w == [] {
      assert w + [x] == [x];
    } else {
      assert (w + [x])[1..] == w[1..] + [x];
      EmittedAppend(Swap(pnodes), child, from + w[0], w[1..], x);
      assert Alternate(Swap(pnodes), |w| - 1) == Alternate(pnodes, |w|);
    }
  }

  /** When every length of `w` keeps the loop going and `x` ends it, the
      crossover edges are the spans of `w` followed by a final span up to `len`. */
  lemma {:induction false} XoverFinal(pnodes: (NodeId, NodeId), child: NodeId, from: real, w: seq<real>, x: real, len: real)
    requires Positive(w)
    requires from + Sum(w) < len <= from + Sum(w) + x
    ensures XoverEdges(pnodes, child, from, w + [x], len) == Emitted(pnodes, child, from, w) + [Edge(from + Sum(w), len, Alternate(pnodes, |w|).0, child)]
    decreases |w|
  {
    if w == [] {
      assert w + [x] == [x];
    } else {
      assert (w + [x])[1..] == w[1..] + [x];
      SumNonNegative(w[1..]);
      XoverFinal(Swap(pnodes), child, from + w[0], w[1..], x, len);
      assert Alternate(Swap(pnodes), |w| - 1) == Alternate(pnodes, |w|);
    }
  }

  lemma {:induction false} EmittedLength(pnodes: (NodeId, NodeId), child: NodeId, from: real, w: seq<real>)
    ensures |Emitted(pnodes, child, from, w)| == |w|
    decreases |w|
  {
    if w != [] {
      EmittedLength(Swap(pnodes), child, from + w[0], w[1..]);
    }
  }

  /** One edge per consumed breakpoint length: `|w| - 1` crossovers. */
  lemma XoverEdgeCount(pnodes: (NodeId, NodeId), child: NodeId, w: seq<real>, len: real)
    requires Positive(w) && Breaks(w, len)
    ensures |XoverEdges(pnodes, child, 0.0, w, len)| == |w|
  {
    var init := w[..|w| - 1];
    assert w == init + [w[|w| - 1]];
    SumAppend(init, w[|w| - 1]);
    XoverFinal(pnodes, child, 0.0, init, w[|w| - 1], len);
    EmittedLength(pnodes, child, 0.0, init);
  }

  /** Whatever the Mendel draw, what is recorded is a transmission from the parent. */
  lemma RecordedIsTransmission(parent: Diploid, u: real, child: NodeId, xovers: real, lengths: seq<real>, len: real)
    requires 0.0 < len
    requires xovers != 0.0 ==> Positive(lengths)
    ensures Transmission(RecordedEdges(MendelOrder((parent.node0, parent.node1), u), child, xovers, lengths, len), parent, child, len)
  {
    var pnodes := MendelOrder((parent.node0, parent.node1), u);
    if xovers != 0.0 {
      XoverTiles(pnodes, child, 0.0, lengths, len);
    }
  }

  /** `crossover_and_record_edges_details(parent, offspring_node, params, tables, rng)`.
      `ok` is false where the source panics: `Exp::new` rejects the negative
      rate `xovers / L`. */
  method CrossoverAndRecordEdgesDetails(parent: Diploid, offspringNode: NodeId, params: SimParams, tables: TableCollection, rng: Rng)
    returns (ok: bool)
    requires ValidStream(rng.stream) && 0.0 < tables.sequenceLength
    modifies tables, rng
    ensures ok <==> 0.0 <= params.xovers
    ensures tables.nodes == old(tables.nodes)
    ensures ok ==> (old(rng.pos) < rng.pos &&
      var pnodes := MendelOrder((parent.node0, parent.node1), rng.stream.unit(old(rng.pos)));
      var w := Window(rng.stream.exponential, old(rng.pos) + 1, rng.pos);
      && tables.edges == old(tables.edges) + RecordedEdges(pnodes, offspringNode, params.xovers, w, tables.sequenceLength)
      && (params.xovers == 0.0 ==> w == [])
      && (params.xovers != 0.0 ==> Positive(w) && Breaks(w, tables.sequenceLength)))
    ensures ok ==> (|old(tables.edges)| < |tables.edges| &&
      Transmission(tables.edges[|old(tables.edges)|..], parent, offspringNode, tables.sequenceLength))
  {
    var pnodes := Mendel((parent.node0, parent.node1), rng);
    ghost var start := rng.pos;
    if params.xovers == 0.0 {
      tables.AddEdge(0.0, tables.sequenceLength, pnodes.0, offspringNode);
      ok := true;
    } else if params.xovers < 0.0 {
      ok := false;
    } else {
      RecordCrossovers(pnodes, offspringNode, tables, rng);
      ok := true;
    }
    if ok {
      ghost var w := Window(rng.stream.exponential, start, rng.pos);
      assert tables.edges[|old(tables.edges)|..] == RecordedEdges(pnodes, offspringNode, params.xovers, w, tables.sequenceLength);
      RecordedIsTransmission(parent, rng.stream.unit(old(rng.pos)), offspringNode, params.xovers, w, tables.sequenceLength);
    }
  }

  /** One more span that ends before the genome end. */
  lemma CrossoverContinues(pnodes: (NodeId, NodeId), child: NodeId, w: seq<real>, x: real)
    ensures && Sum(w + [x]) == Sum(w) + x
            && Emitted(pnodes, child, 0.0, w + [x])
               == Emitted(pnodes, child, 0.0, w) + [Edge(Sum(w), Sum(w) + x, Alternate(pnodes, |w|).0, child)]
            && Alternate(pnodes, |w| + 1) == Swap(Alternate(pnodes, |w|))
  {
    SumAppend(w, x);
    EmittedAppend(pnodes, child, 0.0, w, x);
  }

  /** The span that reaches the genome end closes the crossover edges. */
  lemma CrossoverEnds(pnodes: (NodeId, NodeId), child: NodeId, w: seq<real>, x: real, len: real)
    requires Positive(w) && 0.0 < x
    requires Sum(w) < len <= Sum(w) + x
    ensures && XoverEdges(pnodes, child, 0.0, w + [x], len)
               == Emitted(pnodes, child, 0.0, w) + [Edge(Sum(w), len, Alternate(pnodes, |w|).0, child)]
            && Positive(w + [x])
            && Breaks(w + [x], len)
  {
    SumAppend(w, x);
    XoverFinal(pnodes, child, 0.0, w, x, len);
    assert (w + [x])[..|w|] == w;
  }

  /** The state of the crossover loop after consuming the draws at
      positions `start .. pos - 1`: the recorded spans `es`, the current
      breakpoint `cp` and the current strand pair `cur`. */
  ghost predicate Crossing(pnodes: (NodeId, NodeId), child: NodeId, e: nat -> real, start: nat, pos: nat, es: seq<Edge>, cp: real, cur: (NodeId, NodeId), len: real)
  {
    && start <= pos
    && var w := Window(e, start, pos);
    && Positive(w)
    && es == Emitted(pnodes, child, 0.0, w)
    && cp == Sum(w) < len
    && cur == Alternate(pnodes, |w|)
  }

  /** Lengths from `start` that have not yet reached `len` stop short of a
      position where they have. */
  lemma NotYetStopped(pnodes: (NodeId, NodeId), child: NodeId, e: nat -> real, start: nat, pos: nat, stop: nat, es: seq<Edge>, cp: real, cur: (NodeId, NodeId), len: real)
    requires Crossing(pnodes, child, e, start, pos, es, cp, cur, len)
    requires pos <= stop && len <= Sum(Window(e, start, stop))
    ensures pos < stop
  {
  }

  /** A positive draw that keeps the breakpoint short of `len` records one
      span from the current first strand and swaps the strands. */
  lemma CrossingContinues(pnodes: (NodeId, NodeId), child: NodeId, e: nat -> real, start: nat, pos: nat, es: seq<Edge>, cp: real, cur: (NodeId, NodeId), len: real)
    requires Crossing(pnodes, child, e, start, pos, es, cp, cur, len)
    requires 0.0 < e(pos) && cp + e(pos) < len
    ensures Crossing(pnodes, child, e, start, pos + 1, es + [Edge(cp, cp + e(pos), cur.0, child)], cp + e(pos), (cur.1, cur.0), len)
  {
    WindowExtend(e, start, pos);
    CrossoverContinues(pnodes, child, Window(e, start, pos), e(pos));
  }

  /** A positive draw that reaches `len` closes the crossover edges. */
  lemma CrossingEnds(pnodes: (NodeId, NodeId), child: NodeId, e: nat -> real, start: nat, pos: nat, es: seq<Edge>, cp: real, cur: (NodeId, NodeId), len: real)
    requires Crossing(pnodes, child, e, start, pos, es, cp, cur, len)
    requires 0.0 < e(pos) && len <= cp + e(pos)
    ensures var w := Window(e, start, pos + 1);
      && es + [Edge(cp, len, cur.0, child)] == XoverEdges(pnodes, child, 0.0, w, len)
      && Positive(w) && Breaks(w, len)
  {
    WindowExtend(e, start, pos);
    CrossoverEnds(pnodes, child, Window(e, start, pos), e(pos), len);
  }

  /** One iteration of the crossover loop: draw the next length and record
      either a span that keeps going (`done` false) or the final span. */
  method CrossoverStep(pnodes: (NodeId, NodeId), child: NodeId, tables: TableCollection, rng: Rng,
                       ghost start: nat, ghost es: seq<Edge>, cp: real, cur: (NodeId, NodeId))
    returns (done: bool, cp': real, cur': (NodeId, NodeId), ghost span: Edge)
    requires ValidStream(rng.stream)
    requires Crossing(pnodes, child, rng.stream.exponential, start, rng.pos, es, cp, cur, tables.sequenceLength)
    modifies tables, rng
    ensures rng.pos == old(rng.pos) + 1
    ensures tables.nodes == old(tables.nodes)
    ensures tables.edges == old(tables.edges) + [span]
    ensures !done ==> Crossing(pnodes, child, rng.stream.exponential, start, rng.pos, es + [span], cp', cur', tables.sequenceLength)
    ensures done ==> var w := Window(rng.stream.exponential, start, rng.pos);
      && es + [span] == XoverEdges(pnodes, child, 0.0, w, tables.sequenceLength)
      && Positive(w) && Breaks(w, tables.sequenceLength)
  {
    var len := tables.sequenceLength;
    ghost var pos := rng.pos;
    var nextLength := rng.SampleExp();
    if cp + nextLength < len {
      tables.AddEdge(cp, cp + nextLength, cur.0, child);
      CrossingContinues(pnodes, child, rng.stream.exponential, start, pos, es, cp, cur, len);
      done, cp', cur', span := false, cp + nextLength, (cur.1, cur.0), Edge(cp, cp + nextLength, cur.0, child);
    } else {
      tables.AddEdge(cp, len, cur.0, child);
      CrossingEnds(pnodes, child, rng.stream.exponential, start, pos, es, cp, cur, len);
      done, cp', cur', span := true, cp, cur, Edge(cp, len, cur.0, child);
    }
  }

  /** The crossover loop of `crossover_and_record_edges_details`: draws
      exponential lengths until the next breakpoint would reach the genome
      end, recording one edge per span. */
  method RecordCrossovers(pnodes: (NodeId, NodeId), child: NodeId, tables: TableCollection, rng: Rng)
    requires ValidStream(rng.stream) && 0.0 < tables.sequenceLength
    modifies tables, rng
    ensures tables.nodes == old(tables.nodes)
    ensures old(rng.pos) < rng.pos
    ensures var w := Window(rng.stream.exponential, old(rng.pos), rng.pos);
      && tables.edges == old(tables.edges) + XoverEdges(pnodes, child, 0.0, w, tables.sequenceLength)
      && Positive(w) && Breaks(w, tables.sequenceLength)
  {
    var len := tables.sequenceLength;
    var current := pnodes;
    ghost var start := rng.pos;
    ghost var e := rng.stream.exponential;
    ghost var stop := StopFor(rng.stream, start, len);
    ghost var base := tables.edges;
    ghost var es: seq<Edge> := [];
    var currentPos := 0.0;
    var done := false;
    while !done
      invariant start <= rng.pos && (rng.pos <= stop || done)
      invariant !done ==> Crossing(pnodes, child, e, start, rng.pos, es, currentPos, current, len)
      invariant done ==> var w := Window(e, start, rng.pos);
        && start < rng.pos && es == XoverEdges(pnodes, child, 0.0, w, len) && Positive(w) && Breaks(w, len)
      invariant tables.nodes == old(tables.nodes)
      invariant tables.edges == base + es
      decreases stop - rng.pos + (if done then 0 else 1)
    {
      NotYetStopped(pnodes, child, e, start, rng.pos, stop, es, currentPos, current, len);
      ghost var span;
      done, currentPos, current, span := CrossoverStep(pnodes, child, tables, rng, start, es, currentPos, current);
      assert tables.edges == base + (es + [span]);
      es := es + [span];
    }
  }

  /** `crossover_and_record_edges(parents, offspring_nodes, params, tables, rng)`:
      the first offspring node inherits from `parent0`, then the second from `parent1`. */
  method CrossoverAndRecordEdges(parents: Parents, offspringNodes: (NodeId, NodeId), params: SimParams, tables: TableCollection, rng: Rng)
    returns (ok: bool, ghost tract0: seq<Edge>, ghost tract1: seq<Edge>)
    requires ValidStream(rng.stream) && 0.0 < tables.sequenceLength
    modifies tables, rng
    ensures ok <==> 0.0 <= params.xovers
    ensures tables.nodes == old(tables.nodes)
    ensures ok ==> tables.edges == old(tables.edges) + tract0 + tract1
    ensures ok ==> Transmission(tract0, parents.parent0, offspringNodes.0, tables.sequenceLength)
    ensures ok ==> Transmission(tract1, parents.parent1, offspringNodes.1, tables.sequenceLength)
  {
    tract0, tract1 := [], [];
    var before := tables.edges;
    ok := CrossoverAndRecordEdgesDetails(parents.parent0, offspringNodes.0, params, tables, rng);
    if !ok {
      return;
    }
    tract0 := tables.edges[|before|..];
    var middle := tables.edges;
    ok := CrossoverAndRecordEdgesDetails(parents.parent1, offspringNodes.1, params, tables, rng);
    tract1 := tables.edges[|middle|..];
    assert tables.edges == before + tract0 + tract1;
  }

  // ---------------------------------------------------------------------------
  // Births

  /** Every record names a slot of a population of `size`. */
  ghost predicate SlotsBelow(parents: seq<Parents>, size: nat)
  {
    forall k :: 0 <= k < |parents| ==> parents[k].index < size
  }

  /** The population after `births`: record k's slot holds the new nodes
      `firstNode + 2k` and `firstNode + 2k + 1`, later records overwriting earlier ones. */
  function Replaced(alive: seq<Diploid>, parents: seq<Parents>, firstNode: int): (r: seq<Diploid>)
    requires SlotsBelow(parents, |alive|)
    ensures |r| == |alive|
    decreases |parents|
  {
    if parents == [] then alive
    else
      var n := |parents| - 1;
      Replaced(alive, parents[..n], firstNode)[parents[n].index := Diploid(firstNode + 2 * n, firstNode + 2 * n + 1)]
  }

  /** With distinct slots, as `death_and_parents` produces: each dead slot
      holds its own offspring, every other slot is untouched. */
  lemma {:induction false} ReplacedSlots(alive: seq<Diploid>, parents: seq<Parents>, firstNode: int)
    requires SlotsBelow(parents, |alive|) && IncreasingSlots(parents)
    ensures forall k :: 0 <= k < |parents| ==>
      Replaced(alive, parents, firstNode)[parents[k].index] == Diploid(firstNode + 2 * k, firstNode + 2 * k + 1)
    ensures forall i :: 0 <= i < |alive| && (forall k :: 0 <= k < |parents| ==> parents[k].index != i) ==>
      Replaced(alive, parents, firstNode)[i] == alive[i]
    decreases |parents|
  {
    if parents != [] {
      var n := |parents| - 1;
      ReplacedSlots(alive, parents[..n], firstNode);
    }
  }

  /** Both nodes of every individual are ids below `n`. */
  ghost predicate NodesBelow(alive: seq<Diploid>, n: int)
  {
    forall i :: 0 <= i < |alive| ==> 0 <= alive[i].node0 < n && 0 <= alive[i].node1 < n
  }

  /** No node belongs to two individuals, or twice to one. */
  ghost predicate DistinctNodes(alive: seq<Diploid>)
  {
    && (forall i :: 0 <= i < |alive| ==> alive[i].node0 != alive[i].node1)
    && (forall i, j :: 0 <= i < j < |alive| ==>
          && alive[i].node0 != alive[j].node0 && alive[i].node0 != alive[j].node1
          && alive[i].node1 != alive[j].node0 && alive[i].node1 != alive[j].node1)
  }

  /** Each individual is untouched or holds two of the new node ids. */
  ghost predicate KeptOrNew(old_: seq<Diploid>, new_: seq<Diploid>, firstNode: int, count: int)
    requires |old_| == |new_|
  {
    forall i :: 0 <= i < |new_| ==>
      || new_[i] == old_[i]
      || (firstNode <= new_[i].node0 < firstNode + count && firstNode <= new_[i].node1 < firstNode + count)
  }

  /** Filling slots with fresh ids keeps the population's nodes distinct. */
  lemma {:induction false} ReplacedFresh(alive: seq<Diploid>, parents: seq<Parents>, firstNode: int)
    requires SlotsBelow(parents, |alive|)
    requires 0 <= firstNode && NodesBelow(alive, firstNode) && DistinctNodes(alive)
    ensures NodesBelow(Replaced(alive, parents, firstNode), firstNode + 2 * |parents|)
    ensures DistinctNodes(Replaced(alive, parents, firstNode))
    ensures KeptOrNew(alive, Replaced(alive, parents, firstNode), firstNode, 2 * |parents|)
    decreases |parents|
  {
    if parents != [] {
      var n := |parents| - 1;
      ReplacedFresh(alive, parents[..n], firstNode);
    }
  }

  /** The flat edge list of several tracts. */
  function Concat(tracts: seq<seq<Edge>>): (es: seq<Edge>)
    decreases |tracts|
  {
    if tracts == [] then [] else Concat(tracts[..|tracts| - 1]) + tracts[|tracts| - 1]
  }

  /** Both nodes of a parent are existing nodes older than `t`. */
  ghost predicate OlderThan(times: seq<int>, d: Diploid, t: int)
  {
    && 0 <= d.node0 < |times| && t < times[d.node0]
    && 0 <= d.node1 < |times| && t < times[d.node1]
  }

  /** Every individual's nodes are older than `t`. */
  ghost predicate AliveOlderThan(times: seq<int>, alive: seq<Diploid>, t: int)
  {
    forall i :: 0 <= i < |alive| ==> OlderThan(times, alive[i], t)
  }

  /** The offspring of record k inherit from its parents. */
  ghost predicate Inherited(tracts: seq<seq<Edge>>, parents: seq<Parents>, firstNode: int, len: real)
    requires |tracts| == 2 * |parents|
  {
    forall k :: 0 <= k < |parents| ==>
      && Transmission(tracts[2 * k], parents[k].parent0, firstNode + 2 * k, len)
      && Transmission(tracts[2 * k + 1], parents[k].parent1, firstNode + 2 * k + 1, len)
  }

  /** A transmission into a node younger than both parental nodes is a valid edge list. */
  lemma TransmissionValid(times: seq<int>, es: seq<Edge>, parent: Diploid, child: NodeId, len: real)
    requires Transmission(es, parent, child, len)
    requires 0 <= child < |times| && OlderThan(times, parent, times[child])
    ensures ValidEdges(times, es, len)
  {
  }

  lemma ValidEdgesAppend(times: seq<int>, a: seq<Edge>, b: seq<Edge>, len: real)
    requires ValidEdges(times, a, len) && ValidEdges(times, b, len)
    ensures ValidEdges(times, a + b, len)
  {
  }

  /** Valid edges stay valid when nodes are appended. */
  lemma ValidEdgesExtend(times: seq<int>, more: seq<int>, es: seq<Edge>, len: real)
    requires ValidEdges(times, es, len)
    ensures ValidEdges(times + more, es, len)
  {
  }

  lemma OlderThanExtend(times: seq<int>, more: seq<int>, d: Diploid, t: int)
    requires OlderThan(times, d, t)
    ensures OlderThan(times + more, d, t)
  {
  }

  lemma RepeatStep(head: seq<int>, t: int, n: nat)
    ensures head + Repeat(t, n) + [t, t] == head + Repeat(t, n + 2)
  {
  }

  lemma ReplacedStep(alive: seq<Diploid>, parents: seq<Parents>, i: nat, firstNode: int)
    requires i < |parents| && SlotsBelow(parents, |alive|)
    ensures Replaced(alive, parents[..i + 1], firstNode)
      == Replaced(alive, parents[..i], firstNode)[parents[i].index := Diploid(firstNode + 2 * i, firstNode + 2 * i + 1)]
  {
    assert parents[..i + 1][..i] == parents[..i];
  }

  lemma ConcatPair(head: seq<Edge>, prior: seq<seq<Edge>>, t0: seq<Edge>, t1: seq<Edge>)
    ensures head + Concat(prior + [t0, t1]) == head + Concat(prior) + t0 + t1
  {
    var tracts := prior + [t0, t1];
    assert tracts[..|tracts| - 1] == prior + [t0];
    assert (prior + [t0])[..|prior|] == prior;
  }

  lemma InheritedStep(tracts: seq<seq<Edge>>, parents: seq<Parents>, i: nat, firstNode: int, len: real, t0: seq<Edge>, t1: seq<Edge>)
    requires i < |parents| && |tracts| == 2 * i
    requires Inherited(tracts, parents[..i], firstNode, len)
    requires Transmission(t0, parents[i].parent0, firstNode + 2 * i, len)
    requires Transmission(t1, parents[i].parent1, firstNode + 2 * i + 1, len)
    ensures Inherited(tracts + [t0, t1], parents[..i + 1], firstNode, len)
  {
  }

  /** The two tracts of one birth keep the edge table valid. */
  lemma BirthValid(times: seq<int>, t: int, es: seq<Edge>, p: Parents, t0: seq<Edge>, t1: seq<Edge>, len: real)
    requires ValidEdges(times, es, len)
    requires OlderThan(times, p.parent0, t) && OlderThan(times, p.parent1, t)
    requires Transmission(t0, p.parent0, |times|, len)
    requires Transmission(t1, p.parent1, |times| + 1, len)
    ensures ValidEdges(times + [t, t], es + t0 + t1, len)
  {
    var times' := times + [t, t];
    ValidEdgesExtend(times, [t, t], es, len);
    TransmissionValid(times', t0, p.parent0, |times|, len);
    TransmissionValid(times', t1, p.parent1, |times| + 1, len);
    ValidEdgesAppend(times', es, t0, len);
    ValidEdgesAppend(times', es + t0, t1, len);
  }

  /** The tracts of a whole round of births, into nodes younger than every
      parent, keep the edge table valid. */
  lemma {:induction false} InheritedValid(times: seq<int>, t: int, es: seq<Edge>, tracts: seq<seq<Edge>>, parents: seq<Parents>, len: real)
    requires |tracts| == 2 * |parents|
    requires ValidEdges(times, es, len)
    requires Inherited(tracts, parents, |times|, len)
    requires forall k :: 0 <= k < |parents| ==> OlderThan(times, parents[k].parent0, t) && OlderThan(times, parents[k].parent1, t)
    ensures ValidEdges(times + Repeat(t, 2 * |parents|), es + Concat(tracts), len)
    decreases |parents|
  {
    if parents == [] {
      assert times + Repeat(t, 0) == times;
      assert es + Concat(tracts) == es;
    } else {
      var n := |parents| - 1;
      var prior := tracts[..2 * n];
      assert tracts == prior + [tracts[2 * n], tracts[2 * n + 1]];
      assert Inherited(prior, parents[..n], |times|, len);
      InheritedValid(times, t, es, prior, parents[..n], len);
      OlderThanExtend(times, Repeat(t, 2 * n), parents[n].parent0, t);
      OlderThanExtend(times, Repeat(t, 2 * n), parents[n].parent1, t);
      BirthValid(times + Repeat(t, 2 * n), t, es + Concat(prior), parents[n], tracts[2 * n], tracts[2 * n + 1], len);
      ConcatPair(es, prior, tracts[2 * n], tracts[2 * n + 1]);
      RepeatStep(times, t, 2 * n);
    }
  }

  /** One iteration of `births`: two nodes at `birthTime`, the dead slot
      filled with them, and their edges from the two parents. */
  method Birth(p: Parents, params: SimParams, birthTime: int, tables: TableCollection, alive: array<Diploid>, rng: Rng)
    returns (ok: bool, ghost t0: seq<Edge>, ghost t1: seq<Edge>)
    requires ValidStream(rng.stream) && 0.0 < tables.sequenceLength
    requires p.index < alive.Length
    modifies tables, alive, rng
    ensures ok <==> 0.0 <= params.xovers
    ensures tables.nodes == old(tables.nodes) + [birthTime, birthTime]
    ensures alive[..] == old(alive[..])[p.index := Diploid(|old(tables.nodes)|, |old(tables.nodes)| + 1)]
    ensures ok ==> tables.edges == old(tables.edges) + t0 + t1
    ensures ok ==> Transmission(t0, p.parent0, |old(tables.nodes)|, tables.sequenceLength)
    ensures ok ==> Transmission(t1, p.parent1, |old(tables.nodes)| + 1, tables.sequenceLength)
  {
    var offspring0 := tables.AddNode(birthTime);
    var offspring1 := tables.AddNode(birthTime);
    alive[p.index] := Diploid(offspring0, offspring1);
    ok, t0, t1 := CrossoverAndRecordEdges(p, (offspring0, offspring1), params, tables, rng);
  }

  /** One birth of the loop of `births` extends every loop invariant by record `i`. */
  lemma BirthsStep(
    times0: seq<int>, birthTime: int, i: nat, alive0: seq<Diploid>, before: seq<Diploid>, parents: seq<Parents>,
    base: int, edges0: seq<Edge>, prior: seq<seq<Edge>>, t0: seq<Edge>, t1: seq<Edge>, len: real)
    requires i < |parents| && SlotsBelow(parents, |alive0|)
    requires base == |times0| && |prior| == 2 * i
    requires before == Replaced(alive0, parents[..i], base)
    requires Inherited(prior, parents[..i], base, len)
    requires Transmission(t0, parents[i].parent0, base + 2 * i, len)
    requires Transmission(t1, parents[i].parent1, base + 2 * i + 1, len)
    ensures times0 + Repeat(birthTime, 2 * i) + [birthTime, birthTime] == times0 + Repeat(birthTime, 2 * (i + 1))
    ensures before[parents[i].index := Diploid(base + 2 * i, base + 2 * i + 1)] == Replaced(alive0, parents[..i + 1], base)
    ensures edges0 + Concat(prior) + t0 + t1 == edges0 + Concat(prior + [t0, t1])
    ensures Inherited(prior + [t0, t1], parents[..i + 1], base, len)
  {
    RepeatStep(times0, birthTime, 2 * i);
    ReplacedStep(alive0, parents, i, base);
    ConcatPair(edges0, prior, t0, t1);
    InheritedStep(prior, parents, i, base, len, t0, t1);
  }

  /** Iteration `i` of the loop of `births`, from the state the earlier
      iterations leave to the state with record `i` born as well. */
  method BirthOf(parents: seq<Parents>, i: nat, params: SimParams, birthTime: int, tables: TableCollection, alive: array<Diploid>, rng: Rng,
                 ghost times0: seq<int>, ghost alive0: seq<Diploid>, ghost edges0: seq<Edge>, ghost tracts: seq<seq<Edge>>)
    returns (ok: bool, ghost tracts': seq<seq<Edge>>)
    requires ValidStream(rng.stream) && 0.0 < tables.sequenceLength
    requires i < |parents| && SlotsBelow(parents, |alive0|) && |alive0| == alive.Length
    requires tables.nodes == times0 + Repeat(birthTime, 2 * i)
    requires alive[..] == Replaced(alive0, parents[..i], |times0|)
    requires |tracts| == 2 * i && tables.edges == edges0 + Concat(tracts)
    requires Inherited(tracts, parents[..i], |times0|, tables.sequenceLength)
    modifies tables, alive, rng
    ensures ok <==> 0.0 <= params.xovers
    ensures ok ==> && tables.nodes == times0 + Repeat(birthTime, 2 * (i + 1))
                   && alive[..] == Replaced(alive0, parents[..i + 1], |times0|)
                   && |tracts'| == 2 * (i + 1) && tables.edges == edges0 + Concat(tracts')
                   && Inherited(tracts', parents[..i + 1], |times0|, tables.sequenceLength)
  {
    assert |tables.nodes| == |times0| + 2 * i;
    ghost var before := alive[..];
    ghost var t0, t1;
    ok, t0, t1 := Birth(parents[i], params, birthTime, tables, alive, rng);
    tracts' := tracts + [t0, t1];
    if ok {
      BirthsStep(times0, birthTime, i, alive0, before, parents, |times0|, edges0, tracts, t0, t1, tables.sequenceLength);
      ghost var r := Replaced(alive0, parents[..i + 1], |times0|);
      assert before[parents[i].index := Diploid(|times0| + 2 * i, |times0| + 2 * i + 1)] == r;
    }
  }

  /** `births(parents, params, birth_time, tables, alive, rng)`: for each record,
      two nodes at `birthTime` replace the dead slot and inherit from the two
      parents. `ok` is false where the source panics (a negative crossover rate). */
  method Births(parents: seq<Parents>, params: SimParams, birthTime: int, tables: TableCollection, alive: array<Diploid>, rng: Rng)
    returns (ok: bool, ghost tracts: seq<seq<Edge>>)
    requires ValidStream(rng.stream) && 0.0 < tables.sequenceLength
    requires SlotsBelow(parents, alive.Length)
    modifies tables, alive, rng
    ensures ok <==> (parents == [] || 0.0 <= params.xovers)
    ensures ok ==> tables.nodes == old(tables.nodes) + Repeat(birthTime, 2 * |parents|)
    ensures ok ==> alive[..] == Replaced(old(alive[..]), parents, |old(tables.nodes)|)
    ensures ok ==> |tracts| == 2 * |parents| && tables.edges == old(tables.edges) + Concat(tracts)
    ensures ok ==> Inherited(tracts, parents, |old(tables.nodes)|, tables.sequenceLength)
    ensures ok && ValidEdges(old(tables.nodes), old(tables.edges), tables.sequenceLength)
      && (forall k :: 0 <= k < |parents| ==>
            OlderThan(old(tables.nodes), parents[k].parent0, birthTime) && OlderThan(old(tables.nodes), parents[k].parent1, birthTime))
      ==> ValidEdges(tables.nodes, tables.edges, tables.sequenceLength)
  {
    ghost var base := |tables.nodes|;
    ghost var times0 := tables.nodes;
    ghost var edges0 := tables.edges;
    ghost var alive0 := alive[..];
    tracts := [];
    ok := true;
    for i := 0 to |parents|
      invariant tables.nodes == times0 + Repeat(birthTime, 2 * i)
      invariant alive[..] == Replaced(alive0, parents[..i], base)
      invariant 0 < i ==> 0.0 <= params.xovers
      invariant |tracts| == 2 * i && tables.edges == edges0 + Concat(tracts)
      invariant Inherited(tracts, parents[..i], base, tables.sequenceLength)
    {
      ok, tracts := BirthOf(parents, i, params, birthTime, tables, alive, rng, times0, alive0, edges0, tracts);
      if !ok {
        return;
      }
    }
    assert parents[..|parents|] == parents;
    if ValidEdges(times0, edges0, tables.sequenceLength)
      && (forall k :: 0 <= k < |parents| ==>
            OlderThan(times0, parents[k].parent0, birthTime) && OlderThan(times0, parents[k].parent1, birthTime))
    {
      InheritedValid(times0, birthTime, edges0, tracts, parents, tables.sequenceLength);
    }
  }

  // ---------------------------------------------------------------------------
  // Simplification

  /** The sample list `simplify` builds: both nodes of each individual, in order. */
  function SampleNodes(alive: seq<Diploid>): (samples: seq<NodeId>)
    ensures |samples| == 2 * |alive|
    decreases |alive|
  {
    if alive == [] then []
    else SampleNodes(alive[..|alive| - 1]) + [alive[|alive| - 1].node0, alive[|alive| - 1].node1]
  }

  /** Individual i contributes samples 2i and 2i + 1. */
  ghost predicate SampleLayout(samples: seq<NodeId>, alive: seq<Diploid>)
  {
    && |samples| == 2 * |alive|
    && forall i :: 0 <= i < |alive| ==> samples[2 * i] == alive[i].node0 && samples[2 * i + 1] == alive[i].node1
  }

  lemma {:induction false} SampleNodesLayout(alive: seq<Diploid>)
    ensures SampleLayout(SampleNodes(alive), alive)
    decreases |alive|
  {
    if alive != [] {
      SampleNodesLayout(alive[..|alive| - 1]);
    }
  }

  /** Distinct individuals' nodes give distinct samples, all existing when the nodes do. */
  lemma SampleNodesDistinct(samples: seq<NodeId>, alive: seq<Diploid>, count: int)
    requires SampleLayout(samples, alive)
    requires DistinctNodes(alive) && NodesBelow(alive, count)
    ensures DistinctIds(samples) && IdsBelow(samples, count)
  {
    forall a, b | 0 <= a < b < |samples|
      ensures samples[a] != samples[b]
    {
      var i, j := a / 2, b / 2;
      assert samples[a] == (if a % 2 == 0 then alive[i].node0 else alive[i].node1);
      assert samples[b] == (if b % 2 == 0 then alive[j].node0 else alive[j].node1);
    }
    forall a | 0 <= a < |samples|
      ensures 0 <= samples[a] < count
    {
      var i := a / 2;
      assert samples[a] == (if a % 2 == 0 then alive[i].node0 else alive[i].node1);
    }
  }

  /** An id the map can look up and sends to a surviving node. */
  ghost predicate Maps(idmap: seq<NodeId>, id: NodeId)
  {
    0 <= id < |idmap| && idmap[id] != NULL
  }

  /** Every individual's nodes can be looked up and survive. */
  ghost predicate Remappable(idmap: seq<NodeId>, alive: seq<Diploid>)
  {
    forall i :: 0 <= i < |alive| ==> Maps(idmap, alive[i].node0) && Maps(idmap, alive[i].node1)
  }

  /** No individual has both nodes equal (`simplify`'s first assertion). */
  ghost predicate AllSplit(alive: seq<Diploid>)
  {
    forall i :: 0 <= i < |alive| ==> alive[i].node0 != alive[i].node1
  }

  /** The population with both nodes of every individual renamed by `idmap`. */
  function Remapped(alive: seq<Diploid>, idmap: seq<NodeId>): (r: seq<Diploid>)
    requires Remappable(idmap, alive)
    ensures |r| == |alive|
    ensures forall i :: 0 <= i < |alive| ==> r[i] == Diploid(idmap[alive[i].node0], idmap[alive[i].node1])
  {
    seq(|alive|, i requires 0 <= i < |alive| => Diploid(idmap[alive[i].node0], idmap[alive[i].node1]))
  }

  /** A map under which every sample survives renames every individual. */
  lemma SamplesSurvive(samples: seq<NodeId>, alive: seq<Diploid>, idmap: seq<NodeId>)
    requires SampleLayout(samples, alive)
    requires forall k :: 0 <= k < |samples| ==> Maps(idmap, samples[k])
    ensures Remappable(idmap, alive)
  {
    forall i | 0 <= i < |alive|
      ensures Maps(idmap, alive[i].node0) && Maps(idmap, alive[i].node1)
    {
      assert Maps(idmap, samples[2 * i]);
      assert Maps(idmap, samples[2 * i + 1]);
    }
  }

  /** Distinct old ids with surviving images have distinct new ids. */
  lemma MapSeparates(times: seq<int>, edges: seq<Edge>, len: real, samples: seq<NodeId>, out: SimplifyOutcome, a: NodeId, b: NodeId)
    requires SimplifyContract(times, edges, len, samples, out)
    requires ValidEdges(times, edges, len) && DistinctIds(samples) && IdsBelow(samples, |times|)
    requires 0 <= a < |times| && 0 <= b < |times| && a != b
    requires out.Simplified? && out.idmap[a] != NULL && out.idmap[b] != NULL
    ensures out.idmap[a] != out.idmap[b]
  {
    if b < a {
      assert out.idmap[b] != out.idmap[a];
    }
  }

  /** Under the simplifier's guarantees, a population of distinct existing
      nodes over a valid edge table can always be remapped, and the result is again a population of
      distinct existing nodes, each with its old time. */
  lemma HonestRemap(times: seq<int>, edges: seq<Edge>, len: real, samples: seq<NodeId>, alive: seq<Diploid>, out: SimplifyOutcome)
    requires SampleLayout(samples, alive)
    requires SimplifyContract(times, edges, len, samples, out)
    requires ValidEdges(times, edges, len) && DistinctNodes(alive) && NodesBelow(alive, |times|)
    ensures out.Simplified? && AllSplit(alive) && Remappable(out.idmap, alive)
    ensures DistinctNodes(Remapped(alive, out.idmap)) && NodesBelow(Remapped(alive, out.idmap), |out.nodes|)
    ensures forall i :: 0 <= i < |alive| ==>
      && out.nodes[Remapped(alive, out.idmap)[i].node0] == times[alive[i].node0]
      && out.nodes[Remapped(alive, out.idmap)[i].node1] == times[alive[i].node1]
  {
    SampleNodesDistinct(samples, alive, |times|);
    var m := out.idmap;
    assert forall k :: 0 <= k < |samples| ==> Maps(m, samples[k]);
    SamplesSurvive(samples, alive, m);
    RemapKeepsDistinct(times, edges, len, samples, out, alive);
  }

  lemma RemapKeepsDistinct(times: seq<int>, edges: seq<Edge>, len: real, samples: seq<NodeId>, out: SimplifyOutcome, alive: seq<Diploid>)
    requires SimplifyContract(times, edges, len, samples, out)
    requires ValidEdges(times, edges, len) && DistinctIds(samples) && IdsBelow(samples, |times|)
    requires out.Simplified? && Remappable(out.idmap, alive)
    requires DistinctNodes(alive) && NodesBelow(alive, |times|)
    ensures DistinctNodes(Remapped(alive, out.idmap))
  {
    var r := Remapped(alive, out.idmap);
    forall i | 0 <= i < |alive|
      ensures r[i].node0 != r[i].node1
    {
      MapSeparates(times, edges, len, samples, out, alive[i].node0, alive[i].node1);
    }
    forall i, j | 0 <= i < j < |alive|
      ensures && r[i].node0 != r[j].node0 && r[i].node0 != r[j].node1
              && r[i].node1 != r[j].node0 && r[i].node1 != r[j].node1
    {
      MapSeparates(times, edges, len, samples, out, alive[i].node0, alive[j].node0);
      MapSeparates(times, edges, len, samples, out, alive[i].node0, alive[j].node1);
      MapSeparates(times, edges, len, samples, out, alive[i].node1, alive[j].node0);
      MapSeparates(times, edges, len, samples, out, alive[i].node1, alive[j].node1);
    }
  }

  /** The first loop of `simplify`: the sample list, `ok` false at an
      individual whose two nodes are equal. */
  method CollectSamples(alive: array<Diploid>) returns (ok: bool, samples: seq<NodeId>)
    ensures ok <==> AllSplit(alive[..])
    ensures ok ==> samples == SampleNodes(alive[..])
  {
    samples := [];
    for i := 0 to alive.Length
      invariant samples == SampleNodes(alive[..i])
      invariant AllSplit(alive[..i])
    {
      var a := alive[i];
      if a.node0 == a.node1 {
        return false, samples;
      }
      assert alive[..i + 1][..i] == alive[..i];
      samples := samples + [a.node0, a.node1];
    }
    assert alive[..alive.Length] == alive[..];
    ok := true;
  }

  /** The last loop of `simplify`: renames both nodes of every individual,
      `ok` false at an id outside the map or mapped to NULL. */
  method RemapAlive(alive: array<Diploid>, idmap: seq<NodeId>) returns (ok: bool)
    modifies alive
    ensures ok <==> Remappable(idmap, old(alive[..]))
    ensures ok ==> alive[..] == Remapped(old(alive[..]), idmap)
  {
    for i := 0 to alive.Length
      invariant Remappable(idmap, old(alive[..])[..i])
      invariant forall j :: 0 <= j < i ==> alive[j] == Diploid(idmap[old(alive[j]).node0], idmap[old(alive[j]).node1])
      invariant forall j :: i <= j < alive.Length ==> alive[j] == old(alive[j])
    {
      var a := alive[i];
      if !(0 <= a.node0 < |idmap|) {
        return false;
      }
      alive[i] := a.(node0 := idmap[a.node0]);
      if idmap[a.node0] == NULL {
        return false;
      }
      if !(0 <= a.node1 < |idmap|) {
        return false;
      }
      alive[i] := Diploid(idmap[a.node0], idmap[a.node1]);
      if idmap[a.node1] == NULL {
        return false;
      }
    }
    ok := true;
  }

  /** `simplify(alive, tables)`: simplifies the tables onto the nodes of the
      living individuals and renames those nodes through the id map. `ok` is
      false where the source panics: an individual with both nodes equal, a
      failed simplification or missing map, an id outside the map, or a node
      mapped to NULL. */
  method Simplify(alive: array<Diploid>, tables: TableCollection, simplify: Simplifier) returns (ok: bool)
    modifies alive, tables
    ensures var out := simplify(old(tables.nodes), old(tables.edges), tables.sequenceLength, SampleNodes(old(alive[..])));
      ok <==> (AllSplit(old(alive[..])) && out.Simplified? && Remappable(out.idmap, old(alive[..])))
    ensures var out := simplify(old(tables.nodes), old(tables.edges), tables.sequenceLength, SampleNodes(old(alive[..])));
      ok ==> tables.nodes == out.nodes && tables.edges == out.edges && alive[..] == Remapped(old(alive[..]), out.idmap)
    ensures (&& HonestSimplifier(simplify) && ValidEdges(old(tables.nodes), old(tables.edges), tables.sequenceLength)
             && DistinctNodes(old(alive[..])) && NodesBelow(old(alive[..]), |old(tables.nodes)|)) ==> ok
  {
    var samples;
    ok, samples := CollectSamples(alive);
    if !ok {
      return;
    }
    ghost var out := simplify(tables.nodes, tables.edges, tables.sequenceLength, samples);
    if && HonestSimplifier(simplify) && ValidEdges(tables.nodes, tables.edges, tables.sequenceLength)
       && DistinctNodes(alive[..]) && NodesBelow(alive[..], |tables.nodes|) {
      assert SimplifyContract(tables.nodes, tables.edges, tables.sequenceLength, samples, out);
      SampleNodesLayout(alive[..]);
      HonestRemap(tables.nodes, tables.edges, tables.sequenceLength, samples, alive[..], out);
    }
    var idmap := tables.Simplify(samples, simplify);
    if idmap.None? {
      return false;
    }
    ok := RemapAlive(alive, idmap.value);
  }
}
