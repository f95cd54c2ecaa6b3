/** The overlapping-generations simulation: each step, every individual
    survives with probability `psurvival` or dies and is replaced by the
    offspring of two random parents; the tables are simplified every
    `simplificationInterval` steps. */
module Overlapping {
  import opened Wrappers
  import opened Floats
  import opened Random
  import opened Tables
  import opened Schedules
  import opened Diploids

  /** The program's options and their defaults. */
  datatype ProgramOptions = ProgramOptions(params: SimParams, treefile: string, seed: nat)

  const DefaultOptions := ProgramOptions(DefaultParams, "treefile.trees", 0)

  datatype BadParameter = BadParameter(msg: string)

  const SurvivalRangeMessage := "psurvival must be 0 <= p < 1.0"

  /** `ProgramOptions::validate`: only the survival probability is checked.
      It is compared with 0.0 and then with 1.0; an unordered comparison
      falls through both times, so a NaN is accepted. */
  function Validate(options: ProgramOptions): (r: Result<(), BadParameter>)
    ensures var p := options.params.psurvival;
      r.Success? <==> p.NaN? || (p.Finite? && 0.0 <= p.value < 1.0)
    ensures r.Failure? ==> r.error == BadParameter(SurvivalRangeMessage)
  {
    var p := options.params.psurvival;
    match PartialCmp(p, Finite(0.0))
    case Some(Less) => Failure(BadParameter(SurvivalRangeMessage))
    case _ =>
      match PartialCmp(p, Finite(1.0))
      case Some(Less) => Success(())
      case Some(_) => Failure(BadParameter(SurvivalRangeMessage))
      case None => Success(())
  }

  /** The rejected survival probabilities are the degenerate ones: with any
      of them either nobody dies or everybody does, whatever the draws. */
  lemma RejectedSurvivalIsDegenerate(options: ProgramOptions, alive: seq<Diploid>, unit: nat -> real, pos: nat)
    requires 0 < options.params.popsize <= |alive| && UnitDraws(unit)
    requires Validate(options).Failure?
    ensures var records := DeathRecords(alive, options.params.popsize, options.params.psurvival, unit, 0, pos).0;
      || records == []
      || (|records| == |alive| && forall k :: 0 <= k < |records| ==> records[k].index == k)
  {
    var p := options.params.psurvival;
    if p == NegInf || (p.Finite? && p.value < 0.0) {
      CertainDeath(alive, options.params.popsize, p, unit, 0, pos);
    } else {
      CertainSurvival(alive, options.params.popsize, p, unit, 0, pos);
    }
  }

  /** Why a run stops early, where the source panics. */
  datatype Panic =
    | BadSequenceLength  // `TableCollection::new` with a genome length that is not positive
    | EmptyPickRange     // `Uniform::new(0, popsize)` with `popsize == 0`
    | BadCrossoverRate   // `Exp::new(xovers / L)` with a negative rate
    | RemainderByZero    // `step % simplification_interval` with interval 0
    | SimplifyPanicked   // an assertion or a tskit error inside `simplify`

  // ---------------------------------------------------------------------------
  // The population the step loop keeps

  /** Distinct existing nodes, all older than the coming step `t`, over a
      valid edge table whose times lie in [0, nsteps]. */
  ghost predicate Population(times: seq<int>, edges: seq<Edge>, alive: seq<Diploid>, t: int, nsteps: int, len: real)
  {
    && DistinctNodes(alive) && NodesBelow(alive, |times|) && AliveOlderThan(times, alive, t)
    && ValidEdges(times, edges, len)
    && TimesWithin(times, nsteps)
  }

  /** The founder loop: `popsize` individuals from `2 * popsize` new nodes at
      time `time`, individual i holding the (2i)-th and (2i + 1)-th of them. */
  method Founders(tables: TableCollection, popsize: nat, time: int) returns (alive: array<Diploid>)
    modifies tables
    ensures fresh(alive) && alive.Length == popsize
    ensures tables.nodes == old(tables.nodes) + Repeat(time, 2 * popsize) && tables.edges == old(tables.edges)
    ensures forall i :: 0 <= i < popsize ==> alive[i] == Diploid(|old(tables.nodes)| + 2 * i, |old(tables.nodes)| + 2 * i + 1)
  {
    ghost var base := |tables.nodes|;
    var founders: seq<Diploid> := [];
    for i := 0 to popsize
      invariant |founders| == i
      invariant tables.nodes == old(tables.nodes) + Repeat(time, 2 * i) && tables.edges == old(tables.edges)
      invariant forall j :: 0 <= j < i ==> founders[j] == Diploid(base + 2 * j, base + 2 * j + 1)
    {
      var node0 := tables.AddNode(time);
      var node1 := tables.AddNode(time);
      assert old(tables.nodes) + Repeat(time, 2 * i) + [time, time] == old(tables.nodes) + Repeat(time, 2 * (i + 1));
      founders := founders + [Diploid(node0, node1)];
    }
    alive := new Diploid[popsize](i requires 0 <= i < popsize => founders[i]);
  }

  /** The founders of an empty table form a population for the first step:
      distinct nodes, each individual's two nodes different, all at `nsteps`. */
  lemma FoundersPopulation(times: seq<int>, alive: seq<Diploid>, nsteps: nat, len: real)
    requires times == Repeat(nsteps, 2 * |alive|)
    requires forall i :: 0 <= i < |alive| ==> alive[i] == Diploid(2 * i, 2 * i + 1)
    ensures Population(times, [], alive, nsteps - 1, nsteps, len)
  {
    forall i, j | 0 <= i < j < |alive|
      ensures && alive[i].node0 != alive[j].node0 && alive[i].node0 != alive[j].node1
              && alive[i].node1 != alive[j].node0 && alive[i].node1 != alive[j].node1
    {
      assert alive[i] == Diploid(2 * i, 2 * i + 1) && alive[j] == Diploid(2 * j, 2 * j + 1);
    }
  }

  /** Parents drawn from a population older than `t` are older than `t`. */
  lemma ParentsOlder(times: seq<int>, alive: seq<Diploid>, records: seq<Parents>, t: int)
    requires AliveOlderThan(times, alive, t)
    requires forall k :: 0 <= k < |records| ==> records[k].parent0 in alive && records[k].parent1 in alive
    ensures forall k :: 0 <= k < |records| ==> OlderThan(times, records[k].parent0, t) && OlderThan(times, records[k].parent1, t)
  {
    forall k | 0 <= k < |records|
      ensures OlderThan(times, records[k].parent0, t) && OlderThan(times, records[k].parent1, t)
    {
      var i :| 0 <= i < |alive| && alive[i] == records[k].parent0;
      var j :| 0 <= j < |alive| && alive[j] == records[k].parent1;
    }
  }

  /** Births at time `t` into a population older than `t`, with parents
      drawn from that population, leave a population older than `t - 1`:
      two new nodes at `t` per record, the dead slots refilled, and the
      records' inherited tracts appended to the edges. */
  lemma BirthsKeepPopulation(
    times: seq<int>, edges: seq<Edge>, alive: seq<Diploid>, records: seq<Parents>,
    tracts: seq<seq<Edge>>, t: int, nsteps: int, len: real)
    requires Population(times, edges, alive, t, nsteps, len)
    requires 0 <= t <= nsteps
    requires SlotsBelow(records, |alive|)
    requires forall k :: 0 <= k < |records| ==> records[k].parent0 in alive && records[k].parent1 in alive
    requires |tracts| == 2 * |records| && Inherited(tracts, records, |times|, len)
    ensures Population(times + Repeat(t, 2 * |records|), edges + Concat(tracts), Replaced(alive, records, |times|), t - 1, nsteps, len)
  {
    ParentsOlder(times, alive, records, t);
    InheritedValid(times, t, edges, tracts, records, len);
    BirthsKeepNodes(times, alive, records, t, nsteps);
  }

  /** The node half of `BirthsKeepPopulation`: the individuals after births
      are distinct existing nodes older than `t - 1`, and every time stays
      within `[0, nsteps]`. */
  lemma BirthsKeepNodes(times: seq<int>, alive: seq<Diploid>, records: seq<Parents>, t: int, nsteps: int)
    requires DistinctNodes(alive) && NodesBelow(alive, |times|) && AliveOlderThan(times, alive, t) && TimesWithin(times, nsteps)
    requires 0 <= t <= nsteps
    requires SlotsBelow(records, |alive|)
    ensures var times', alive' := times + Repeat(t, 2 * |records|), Replaced(alive, records, |times|);
      && DistinctNodes(alive') && NodesBelow(alive', |times'|) && AliveOlderThan(times', alive', t - 1)
      && TimesWithin(times', nsteps)
  {
    var times' := times + Repeat(t, 2 * |records|);
    var alive' := Replaced(alive, records, |times|);
    ReplacedFresh(alive, records, |times|);
    AppendedTimes(times, t, 2 * |records|);
    assert |times'| == |times| + 2 * |records|;
    NewbornsOlder(times, alive, alive', times', t, 2 * |records|);
    TimesExtend(times, times', t, nsteps);
  }

  /** Appending `n` nodes at time `t` keeps the old times and adds only `t`. */
  lemma AppendedTimes(times: seq<int>, t: int, n: nat)
    ensures var times' := times + Repeat(t, n);
      && |times'| == |times| + n && times'[..|times|] == times
      && forall i :: |times| <= i < |times'| ==> times'[i] == t
  {
    var times' := times + Repeat(t, n);
    assert times'[..|times|] == times;
  }

  /** After births at time `t`, every individual, kept or new, is older than `t - 1`. */
  lemma NewbornsOlder(times: seq<int>, alive: seq<Diploid>, alive': seq<Diploid>, times': seq<int>, t: int, n: nat)
    requires |alive| == |alive'| && AliveOlderThan(times, alive, t)
    requires |times| <= |times'| && times'[..|times|] == times
    requires forall i :: |times| <= i < |times'| ==> times'[i] == t
    requires |times'| == |times| + n && KeptOrNew(alive, alive', |times|, n)
    ensures AliveOlderThan(times', alive', t - 1)
  {
    forall i | 0 <= i < |alive'|
      ensures OlderThan(times', alive'[i], t - 1)
    {
      if alive'[i] == alive[i] {
        assert OlderThan(times, alive[i], t);
        assert times'[alive[i].node0] == times[alive[i].node0];
        assert times'[alive[i].node1] == times[alive[i].node1];
      }
    }
  }

  lemma TimesExtend(times: seq<int>, times': seq<int>, t: int, nsteps: int)
    requires TimesWithin(times, nsteps) && 0 <= t <= nsteps
    requires |times| <= |times'| && times'[..|times|] == times
    requires forall i :: |times| <= i < |times'| ==> times'[i] == t
    ensures TimesWithin(times', nsteps)
  {
    forall i | 0 <= i < |times'|
      ensures 0 <= times'[i] <= nsteps
    {
      if i < |times| {
        assert times'[i] == times[i];
      }
    }
  }

  /** An honest simplification of a population is a population again: every
      individual's nodes survive, distinct, with their times. */
  lemma SimplifyKeepsPopulation(
    times: seq<int>, edges: seq<Edge>, len: real, samples: seq<NodeId>, alive: seq<Diploid>,
    out: SimplifyOutcome, t: int, nsteps: int)
    requires SampleLayout(samples, alive)
    requires Population(times, edges, alive, t, nsteps, len)
    requires SimplifyContract(times, edges, len, samples, out)
    ensures out.Simplified? && AllSplit(alive) && Remappable(out.idmap, alive)
    ensures Population(out.nodes, out.edges, Remapped(alive, out.idmap), t, nsteps, len)
  {
    HonestRemap(times, edges, len, samples, alive, out);
    SampleNodesDistinct(samples, alive, |times|);
    SimplifyKeepsTimesWithin(times, edges, len, samples, out, nsteps);
    var alive' := Remapped(alive, out.idmap);
    forall i | 0 <= i < |alive'|
      ensures OlderThan(out.nodes, alive'[i], t)
    {
      assert OlderThan(times, alive[i], t);
    }
  }

  // ---------------------------------------------------------------------------
  // One step

  /** The first part of a step: `parents.clear()`, `death_and_parents` and
      `births` at time `step`. The records are drawn afresh from the
      population before any birth, whatever `parents` held before. */
  method Reproduce(alive: array<Diploid>, params: SimParams, parents: seq<Parents>, step: nat,
                   tables: TableCollection, rng: Rng, ghost nsteps: int)
    returns (failure: Option<Panic>, parents': seq<Parents>, ghost tracts: seq<seq<Edge>>)
    requires ValidStream(rng.stream) && 0.0 < tables.sequenceLength
    requires alive.Length == params.popsize
    modifies tables, alive, rng
    ensures failure == Some(EmptyPickRange) <==> params.popsize == 0
    ensures failure.Some? ==> failure == Some(EmptyPickRange) || (failure == Some(BadCrossoverRate) && params.xovers < 0.0)
    ensures 0 < params.popsize && 0.0 <= params.xovers ==> failure.None?
    ensures failure.None? ==>
      parents' == DeathRecords(old(alive[..]), params.popsize, params.psurvival, rng.stream.unit, 0, old(rng.pos)).0
    ensures failure.None? ==> SlotsBelow(parents', alive.Length) && IncreasingSlots(parents')
    ensures failure.None? ==>
      && tables.nodes == old(tables.nodes) + Repeat(step, 2 * |parents'|)
      && alive[..] == Replaced(old(alive[..]), parents', |old(tables.nodes)|)
    ensures failure.None? ==>
      && |tracts| == 2 * |parents'| && tables.edges == old(tables.edges) + Concat(tracts)
      && Inherited(tracts, parents', |old(tables.nodes)|, tables.sequenceLength)
    ensures failure.None? && step < nsteps && Population(old(tables.nodes), old(tables.edges), old(alive[..]), step, nsteps, tables.sequenceLength) ==>
      Population(tables.nodes, tables.edges, alive[..], step - 1, nsteps, tables.sequenceLength)
  {
    parents', tracts := [], [];
    if params.popsize == 0 {
      return Some(EmptyPickRange), parents', tracts;
    }
    ghost var times, edges, before := tables.nodes, tables.edges, alive[..];
    DeathRecordsWellFormed(before, params.popsize, params.psurvival, rng.stream.unit, 0, rng.pos);
    parents' := DeathAndParents(alive, params, parents', rng);
    assert before[..params.popsize] == before;
    ghost var population := step < nsteps && Population(times, edges, before, step, nsteps, tables.sequenceLength);
    var ok;
    ok, tracts := Births(parents', params, step, tables, alive, rng);
    if !ok {
      return Some(BadCrossoverRate), parents', tracts;
    }
    if population {
      BirthsKeepPopulation(times, edges, before, parents', tracts, step, nsteps, tables.sequenceLength);
    }
    failure := None;
  }

  /** The simplification of a step, as `Diploids.Simplify` does it; an honest
      simplifier never panics on a population and keeps it a population. */
  method SimplifyPopulation(alive: array<Diploid>, tables: TableCollection, simplify: Simplifier, ghost t: int, ghost nsteps: int)
    returns (ok: bool)
    modifies alive, tables
    ensures var out := simplify(old(tables.nodes), old(tables.edges), tables.sequenceLength, SampleNodes(old(alive[..])));
      ok <==> (AllSplit(old(alive[..])) && out.Simplified? && Remappable(out.idmap, old(alive[..])))
    ensures var out := simplify(old(tables.nodes), old(tables.edges), tables.sequenceLength, SampleNodes(old(alive[..])));
      ok ==> tables.nodes == out.nodes && tables.edges == out.edges && alive[..] == Remapped(old(alive[..]), out.idmap)
    ensures HonestSimplifier(simplify) && Population(old(tables.nodes), old(tables.edges), old(alive[..]), t, nsteps, tables.sequenceLength) ==>
      ok && Population(tables.nodes, tables.edges, alive[..], t, nsteps, tables.sequenceLength)
  {
    ghost var samples := SampleNodes(alive[..]);
    ghost var out := simplify(tables.nodes, tables.edges, tables.sequenceLength, samples);
    if HonestSimplifier(simplify) && Population(tables.nodes, tables.edges, alive[..], t, nsteps, tables.sequenceLength) {
      SampleNodesLayout(alive[..]);
      assert SimplifyContract(tables.nodes, tables.edges, tables.sequenceLength, samples, out);
      SimplifyKeepsPopulation(tables.nodes, tables.edges, tables.sequenceLength, samples, alive[..], out, t, nsteps);
    }
    ok := Simplify(alive, tables, simplify);
  }

  /** One iteration of the step loop: reproduction (whose result is
      `midNodes`, `midEdges`, `midAlive`), then the remainder
      `step % simplificationInterval` and, exactly when it is 0,
      simplification of that state; `simplified` says whether it ran. */
  method Step(alive: array<Diploid>, params: SimParams, parents: seq<Parents>, step: nat,
              tables: TableCollection, rng: Rng, simplify: Simplifier, ghost nsteps: int)
    returns (failure: Option<Panic>, parents': seq<Parents>,
             ghost midNodes: seq<int>, ghost midEdges: seq<Edge>, ghost midAlive: seq<Diploid>, ghost simplified: bool)
    requires ValidStream(rng.stream) && 0.0 < tables.sequenceLength
    requires alive.Length == params.popsize
    modifies tables, alive, rng
    ensures failure == Some(EmptyPickRange) <==> params.popsize == 0
    ensures failure == Some(BadCrossoverRate) ==> params.xovers < 0.0
    ensures failure == Some(RemainderByZero) ==> params.simplificationInterval == 0
    ensures 0 < params.popsize && 0.0 <= params.xovers && params.simplificationInterval == 0 ==> failure == Some(RemainderByZero)
    ensures failure.Some? ==> failure.value in {EmptyPickRange, BadCrossoverRate, RemainderByZero, SimplifyPanicked}
    ensures failure.None? ==> 0 < params.popsize && 0 < params.simplificationInterval
    ensures failure != Some(EmptyPickRange) && failure != Some(BadCrossoverRate) ==>
      && parents' == DeathRecords(old(alive[..]), params.popsize, params.psurvival, rng.stream.unit, 0, old(rng.pos)).0
      && SlotsBelow(parents', alive.Length)
      && midNodes == old(tables.nodes) + Repeat(step, 2 * |parents'|)
      && midAlive == Replaced(old(alive[..]), parents', |old(tables.nodes)|)
      && (exists tracts :: && |tracts| == 2 * |parents'| && midEdges == old(tables.edges) + Concat(tracts)
                           && Inherited(tracts, parents', |old(tables.nodes)|, tables.sequenceLength))
    ensures simplified <==> (&& failure != Some(EmptyPickRange) && failure != Some(BadCrossoverRate)
                             && 0 < params.simplificationInterval && step % params.simplificationInterval == 0)
    ensures !simplified ==> failure != Some(SimplifyPanicked)
    ensures failure.None? && !simplified ==> tables.nodes == midNodes && tables.edges == midEdges && alive[..] == midAlive
    ensures simplified ==> var out := simplify(midNodes, midEdges, tables.sequenceLength, SampleNodes(midAlive));
      && (failure.None? <==> (AllSplit(midAlive) && out.Simplified? && Remappable(out.idmap, midAlive)))
      && (failure.None? ==> tables.nodes == out.nodes && tables.edges == out.edges && alive[..] == Remapped(midAlive, out.idmap))
    ensures ghost var population := HonestSimplifier(simplify) && step < nsteps
      && Population(old(tables.nodes), old(tables.edges), old(alive[..]), step, nsteps, tables.sequenceLength);
      && (population && 0 < params.popsize && 0.0 <= params.xovers && 0 < params.simplificationInterval ==> failure.None?)
      && (population && failure.None? ==> Population(tables.nodes, tables.edges, alive[..], step - 1, nsteps, tables.sequenceLength))
      && (population ==> failure != Some(SimplifyPanicked))
  {
    ghost var before := HonestSimplifier(simplify) && step < nsteps
      && Population(tables.nodes, tables.edges, alive[..], step, nsteps, tables.sequenceLength);
    ghost var tracts;
    failure, parents', tracts := Reproduce(alive, params, parents, step, tables, rng, nsteps);
    midNodes, midEdges, midAlive, simplified := tables.nodes, tables.edges, alive[..], false;
    if failure.Some? {
      return;
    }
    if params.simplificationInterval == 0 {
      return Some(RemainderByZero), parents', midNodes, midEdges, midAlive, simplified;
    }
    if step % params.simplificationInterval == 0 {
      simplified := true;
      var ok := SimplifyPopulation(alive, tables, simplify, step - 1, nsteps);
      if !ok {
        return Some(SimplifyPanicked), parents', midNodes, midEdges, midAlive, simplified;
      }
    }
  }

  // ---------------------------------------------------------------------------
  // The driver

  /** The step loop `for step in (0..nsteps).rev()` over a population of
      `popsize` individuals, up to the first panic. Simplification happens
      on exactly the scheduled steps; from a population, an honest
      simplifier and a non-negative crossover rate, the loop ends in a
      population unless a pick range or interval of 0 makes it panic. */
  method StepLoop(alive: array<Diploid>, params: SimParams, tables: TableCollection, rng: Rng, simplify: Simplifier)
    returns (failure: Option<Panic>, ghost simplified: seq<int>)
    requires ValidStream(rng.stream) && 0.0 < tables.sequenceLength
    requires alive.Length == params.popsize
    modifies tables, alive, rng
    ensures failure == Some(EmptyPickRange) <==> 0 < params.nsteps && params.popsize == 0
    ensures failure == Some(BadCrossoverRate) ==> params.xovers < 0.0
    ensures failure == Some(RemainderByZero) ==> params.simplificationInterval == 0 && 0 < params.nsteps
    ensures 0 < params.nsteps && 0 < params.popsize && 0.0 <= params.xovers && params.simplificationInterval == 0 ==>
      failure == Some(RemainderByZero)
    ensures failure.Some? ==> failure.value in {EmptyPickRange, BadCrossoverRate, RemainderByZero, SimplifyPanicked}
    ensures failure.None? ==> (&& (params.nsteps == 0 || 0 < params.simplificationInterval)
                               && simplified == Schedule(params.nsteps - 1, params.simplificationInterval))
    ensures ghost var population := HonestSimplifier(simplify)
      && Population(old(tables.nodes), old(tables.edges), old(alive[..]), params.nsteps - 1, params.nsteps, tables.sequenceLength);
      && (population ==> failure != Some(SimplifyPanicked))
      && (population && 0.0 <= params.xovers && (params.nsteps == 0 || (0 < params.popsize && 0 < params.simplificationInterval)) ==> failure.None?)
      && (population && failure.None? ==> Population(tables.nodes, tables.edges, alive[..], -1, params.nsteps, tables.sequenceLength))
  {
    simplified := [];
    ghost var honest := HonestSimplifier(simplify)
      && Population(tables.nodes, tables.edges, alive[..], params.nsteps - 1, params.nsteps, tables.sequenceLength);
    var interval := params.simplificationInterval;
    var parents: seq<Parents> := [];
    var step := params.nsteps - 1;
    while 0 <= step
      invariant -1 <= step <= params.nsteps - 1
      invariant 0 < interval ==> simplified + Schedule(step, interval) == Schedule(params.nsteps - 1, interval)
      invariant interval == 0 ==> step == params.nsteps - 1 && simplified == []
      invariant step < params.nsteps - 1 ==> 0 < params.popsize
      invariant honest ==> HonestSimplifier(simplify) && Population(tables.nodes, tables.edges, alive[..], step, params.nsteps, tables.sequenceLength)
      decreases step + 1
    {
      failure, parents, simplified := ScheduledStep(alive, params, parents, step, tables, rng, simplify, params.nsteps, simplified);
      if failure.Some? {
        return;
      }
      step := step - 1;
    }
    failure := None;
  }

  /** One pass of the loop in `StepLoop`: runs `Step` and, when that step
      simplified, adds it to the steps `done` so far. */
  method ScheduledStep(alive: array<Diploid>, params: SimParams, parents: seq<Parents>, step: nat,
                       tables: TableCollection, rng: Rng, simplify: Simplifier, ghost nsteps: int, ghost done: seq<int>)
    returns (failure: Option<Panic>, parents': seq<Parents>, ghost done': seq<int>)
    requires ValidStream(rng.stream) && 0.0 < tables.sequenceLength
    requires alive.Length == params.popsize && step < nsteps
    requires 0 < params.simplificationInterval ==>
      done + Schedule(step, params.simplificationInterval) == Schedule(nsteps - 1, params.simplificationInterval)
    modifies tables, alive, rng
    ensures failure == Some(EmptyPickRange) <==> params.popsize == 0
    ensures failure == Some(BadCrossoverRate) ==> params.xovers < 0.0
    ensures failure == Some(RemainderByZero) ==> params.simplificationInterval == 0
    ensures 0 < params.popsize && 0.0 <= params.xovers && params.simplificationInterval == 0 ==> failure == Some(RemainderByZero)
    ensures failure.Some? ==> failure.value in {EmptyPickRange, BadCrossoverRate, RemainderByZero, SimplifyPanicked}
    ensures failure.None? ==>
      && 0 < params.popsize && 0 < params.simplificationInterval
      && done' + Schedule(step - 1, params.simplificationInterval) == Schedule(nsteps - 1, params.simplificationInterval)
    ensures ghost var population := HonestSimplifier(simplify)
      && Population(old(tables.nodes), old(tables.edges), old(alive[..]), step, nsteps, tables.sequenceLength);
      && (population && 0 < params.popsize && 0.0 <= params.xovers && 0 < params.simplificationInterval ==> failure.None?)
      && (population && failure.None? ==> Population(tables.nodes, tables.edges, alive[..], step - 1, nsteps, tables.sequenceLength))
      && (population ==> failure != Some(SimplifyPanicked))
  {
    ghost var midNodes, midEdges, midAlive, simplifiedNow;
    failure, parents', midNodes, midEdges, midAlive, simplifiedNow := Step(alive, params, parents, step, tables, rng, simplify, nsteps);
    done' := done;
    if failure.None? {
      ScheduleStep(done, step, params.simplificationInterval, Schedule(nsteps - 1, params.simplificationInterval));
      if simplifiedNow {
        done' := done + [step];
      }
    }
  }

  /** `overlapping_generations(params, seed)`, seeing the seed through the
      draws it yields and tskit's simplification through `simplify`: the
      tables, the founders, the step loop. With an honest simplifier, a
      positive genome length, a non-negative crossover rate and (when any
      step runs) a positive population size and interval, nothing panics,
      step 0 is the last simplification and the tables returned hold a
      valid genealogy. `simplified` lists the steps whose iteration
      simplified: exactly the multiples of the interval below `nsteps`. */
  method OverlappingGenerations(params: SimParams, stream: Stream, simplify: Simplifier)
    returns (r: Result<TableCollection, Panic>, ghost simplified: seq<int>)
    requires ValidStream(stream)
    ensures r == Failure(BadSequenceLength) <==> params.genomeLength <= 0.0
    ensures r == Failure(EmptyPickRange) <==> 0.0 < params.genomeLength && 0 < params.nsteps && params.popsize == 0
    ensures r == Failure(BadCrossoverRate) ==> params.xovers < 0.0
    ensures r == Failure(RemainderByZero) ==> params.simplificationInterval == 0 && 0 < params.nsteps
    ensures 0.0 < params.genomeLength && 0 < params.nsteps && 0 < params.popsize && 0.0 <= params.xovers && params.simplificationInterval == 0 ==>
      r == Failure(RemainderByZero)
    ensures r == Failure(SimplifyPanicked) ==> !HonestSimplifier(simplify)
    ensures (&& HonestSimplifier(simplify) && 0.0 < params.genomeLength && 0.0 <= params.xovers
             && (params.nsteps == 0 || (0 < params.popsize && 0 < params.simplificationInterval))) ==> r.Success?
    ensures r.Success? ==> fresh(r.value) && r.value.sequenceLength == params.genomeLength
    ensures r.Success? ==> (&& (params.nsteps == 0 || 0 < params.simplificationInterval)
                            && simplified == Schedule(params.nsteps - 1, params.simplificationInterval))
    ensures r.Success? && 0 < params.nsteps ==>
      && 0 < params.simplificationInterval
      && (forall x :: x in simplified <==> 0 <= x < params.nsteps && x % params.simplificationInterval == 0)
      && |simplified| > 0 && simplified[|simplified| - 1] == 0
    ensures r.Success? && HonestSimplifier(simplify) ==>
      ValidEdges(r.value.nodes, r.value.edges, params.genomeLength) && TimesWithin(r.value.nodes, params.nsteps)
  {
    simplified := [];
    if params.genomeLength <= 0.0 {
      return Failure(BadSequenceLength), simplified;
    }
    var tables := new TableCollection(params.genomeLength);
    var rng := new Rng(stream);
    var alive := Founders(tables, params.popsize, params.nsteps);
    assert [] + Repeat(params.nsteps, 2 * params.popsize) == Repeat(params.nsteps, 2 * params.popsize);
    FoundersPopulation(tables.nodes, alive[..], params.nsteps, params.genomeLength);
    var failure;
    failure, simplified := StepLoop(alive, params, tables, rng, simplify);
    if failure.Some? {
      return Failure(failure.value), simplified;
    }
    if 0 < params.nsteps {
      ScheduleMembers(params.nsteps - 1, params.simplificationInterval);
      ScheduleEndsAtZero(params.nsteps - 1, params.simplificationInterval);
    }
    r := Success(tables);
  }
}
