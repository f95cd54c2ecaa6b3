/** The haploid Moran model: one random death and birth per step, with
    simplification every 100 steps, and the replicate bookkeeping around it. */
module HaploidMoran {
  import opened Wrappers
  import opened Random
  import opened Tables
  import opened Schedules

  /** Why a run stops early, where the source panics. */
  datatype Panic =
    | EmptyPickRange     // `Uniform::new(0, popsize)` with `popsize <= 0`
    | BirthNotYounger    // the time assertion fails, or the parent id has no node
    | SimplifyFailed     // tskit reports an error or no id map
    | IdOutsideMap       // a stored id indexes past the id map
    | DivisionByZero     // `seeds.len() / 0`
    | SliceOverrun       // `repid + reps_per_thread < seeds.len()` fails

  /** The program's defaults. */
  datatype ProgramOptions = ProgramOptions(treefile: string, popsize: int, nsteps: int, seed: nat, nthreads: int, nreps: int)

  const DefaultOptions := ProgramOptions("treefile_moran", 1000, 10000, 0, 1, 1)

  /** The simplification interval of `moran`. */
  const Interval: nat := 100

  /** The founder loop: `popsize` nodes at time `nsteps`, `alive[i]` the i-th of them. */
  method Founders(tables: TableCollection, popsize: int, nsteps: int) returns (alive: array<NodeId>)
    modifies tables
    ensures fresh(alive)
    ensures alive.Length == if popsize < 0 then 0 else popsize
    ensures tables.nodes == old(tables.nodes) + Repeat(nsteps, alive.Length) && tables.edges == old(tables.edges)
    ensures forall i :: 0 <= i < alive.Length ==> alive[i] == |old(tables.nodes)| + i
  {
    var ids: seq<NodeId> := [];
    var count := if popsize < 0 then 0 else popsize;
    for i := 0 to count
      invariant |ids| == i
      invariant tables.nodes == old(tables.nodes) + Repeat(nsteps, i) && tables.edges == old(tables.edges)
      invariant forall j :: 0 <= j < i ==> ids[j] == |old(tables.nodes)| + j
    {
      var id := tables.AddNode(nsteps);
      assert old(tables.nodes) + Repeat(nsteps, i) + [nsteps] == old(tables.nodes) + Repeat(nsteps, i + 1);
      ids := ids + [id];
    }
    alive := new NodeId[count](i requires 0 <= i < count => ids[i]);
  }

  /** The body of the step loop before simplification. `dead == replace` changes
      nothing. Otherwise a node at time `step` is born from `alive[replace]`
      over [0, 1) and takes slot `dead`; `ok` is false where the time
      assertion panics (the parent has no node, or is not older than `step`). */
  method MoranStep(alive: array<NodeId>, tables: TableCollection, dead: nat, replace: nat, step: int, ghost nsteps: int) returns (ok: bool)
    requires dead < alive.Length && replace < alive.Length
    modifies alive, tables
    ensures Population(old(tables.nodes), old(tables.edges), old(alive[..]), step, nsteps) && 0 <= step <= nsteps ==>
      ok && Population(tables.nodes, tables.edges, alive[..], step - 1, nsteps)
    ensures dead == replace ==> ok && tables.nodes == old(tables.nodes) && tables.edges == old(tables.edges) && alive[..] == old(alive[..])
    ensures dead != replace ==>
      (ok <==> 0 <= old(alive[replace]) < |old(tables.nodes)| && step < old(tables.nodes)[old(alive[replace])])
    ensures dead != replace && ok ==>
      && tables.nodes == old(tables.nodes) + [step]
      && tables.edges == old(tables.edges) + [Edge(0.0, 1.0, old(alive[replace]), |old(tables.nodes)|)]
      && alive[..] == old(alive[..])[dead := |old(tables.nodes)|]
  {
    ghost var population := Population(tables.nodes, tables.edges, alive[..], step, nsteps) && 0 <= step <= nsteps;
    if population {
      if dead != replace {
        StepKeepsPopulation(tables.nodes, tables.edges, alive[..], dead, replace, step, nsteps);
      } else {
        StillKeepsPopulation(tables.nodes, tables.edges, alive[..], step, nsteps);
      }
    }
    ok := true;
    if dead != replace {
      var newBirth := tables.AddNode(step);
      var parentTime := tables.Time(alive[replace]);
      if parentTime.None? || !(step < parentTime.value) {
        return false;
      }
      tables.AddEdge(0.0, 1.0, alive[replace], newBirth);
      alive[dead] := newBirth;
    }
  }

  /** `*a = idmap[*a as usize]` for every slot; `ok` is false at an id outside
      the map. A NULL entry is stored as it is: the source does not check it. */
  method RemapAlive(alive: array<NodeId>, idmap: seq<NodeId>) returns (ok: bool)
    modifies alive
    ensures ok <==> IdsBelow(old(alive[..]), |idmap|)
    ensures ok ==> forall i :: 0 <= i < alive.Length ==> alive[i] == idmap[old(alive[i])]
  {
    for i := 0 to alive.Length
      invariant IdsBelow(old(alive[..])[..i], |idmap|)
      invariant forall j :: 0 <= j < i ==> alive[j] == idmap[old(alive[j])]
      invariant forall j :: i <= j < alive.Length ==> alive[j] == old(alive[j])
    {
      if !(0 <= alive[i] < |idmap|) {
        return false;
      }
      alive[i] := idmap[alive[i]];
    }
    assert old(alive[..])[..alive.Length] == old(alive[..]);
    ok := true;
  }

  /** Every living node is older than `t`. */
  ghost predicate OlderThan(times: seq<int>, alive: seq<NodeId>, t: int)
    requires IdsBelow(alive, |times|)
  {
    forall i :: 0 <= i < |alive| ==> t < times[alive[i]]
  }

  /** The population the step loop keeps when simplification is honest:
      distinct existing nodes, older than the coming step, over a valid edge
      table whose times lie in [0, nsteps]. */
  ghost predicate Population(times: seq<int>, edges: seq<Edge>, alive: seq<NodeId>, step: int, nsteps: int)
  {
    && DistinctIds(alive) && IdsBelow(alive, |times|) && OlderThan(times, alive, step)
    && ValidEdges(times, edges, 1.0)
    && TimesWithin(times, nsteps)
  }

  /** The founders form such a population for the first step. */
  lemma FoundersPopulation(nsteps: int, alive: seq<NodeId>)
    requires 0 <= nsteps
    requires forall i :: 0 <= i < |alive| ==> alive[i] == i
    ensures Population(Repeat(nsteps, |alive|), [], alive, nsteps - 1, nsteps)
  {
  }

  /** A step of a population never panics and keeps it a population, one step on. */
  lemma StepKeepsPopulation(times: seq<int>, edges: seq<Edge>, alive: seq<NodeId>, dead: nat, replace: nat, step: int, nsteps: int)
    requires Population(times, edges, alive, step, nsteps)
    requires dead < |alive| && replace < |alive| && dead != replace && 0 <= step <= nsteps
    ensures 0 <= alive[replace] < |times| && step < times[alive[replace]]
    ensures Population(times + [step], edges + [Edge(0.0, 1.0, alive[replace], |times|)], alive[dead := |times|], step - 1, nsteps)
  {
    var times' := times + [step];
    var alive' := alive[dead := |times|];
    assert forall i :: 0 <= i < |alive| ==> times'[alive[i]] == times[alive[i]];
  }

  /** Standing still keeps a population one step on. */
  lemma StillKeepsPopulation(times: seq<int>, edges: seq<Edge>, alive: seq<NodeId>, step: int, nsteps: int)
    requires Population(times, edges, alive, step, nsteps)
    ensures Population(times, edges, alive, step - 1, nsteps)
  {
  }

  /** Honest simplification of a population maps every living node to a
      surviving node and keeps the result a population. */
  lemma SimplifyKeepsPopulation(times: seq<int>, edges: seq<Edge>, alive: seq<NodeId>, out: SimplifyOutcome, step: int, nsteps: int)
    requires Population(times, edges, alive, step, nsteps)
    requires SimplifyContract(times, edges, 1.0, alive, out)
    ensures out.Simplified? && IdsBelow(alive, |out.idmap|)
    ensures Population(out.nodes, out.edges, seq(|alive|, i requires 0 <= i < |alive| => out.idmap[alive[i]]), step, nsteps)
  {
    SimplifyKeepsTimesWithin(times, edges, 1.0, alive, out, nsteps);
    var alive' := seq(|alive|, i requires 0 <= i < |alive| => out.idmap[alive[i]]);
    forall i | 0 <= i < |alive|
      ensures out.idmap[alive[i]] != NULL
    {
    }
    forall i, j | 0 <= i < j < |alive'|
      ensures alive'[i] != alive'[j]
    {
      var a, b := alive[i], alive[j];
      if b < a {
        assert out.idmap[b] != out.idmap[a];
      } else {
        assert out.idmap[a] != out.idmap[b];
      }
    }
  }

  /** The simplification block of `moran`: simplify onto the living nodes,
      then rename them through the id map. Under an honest simplifier a
      population stays a population. */
  method SimplifyAlive(alive: array<NodeId>, tables: TableCollection, simplify: Simplifier, ghost step: int, ghost nsteps: int)
    returns (failure: Option<Panic>)
    modifies alive, tables
    ensures var out := simplify(old(tables.nodes), old(tables.edges), tables.sequenceLength, old(alive[..]));
      && (failure == Some(SimplifyFailed) <==> out.Failed?)
      && (failure == Some(IdOutsideMap) <==> out.Simplified? && !IdsBelow(old(alive[..]), |out.idmap|))
      && (failure.Some? ==> failure == Some(SimplifyFailed) || failure == Some(IdOutsideMap))
      && (failure.None? ==> && tables.nodes == out.nodes && tables.edges == out.edges
                            && forall i :: 0 <= i < alive.Length ==> alive[i] == out.idmap[old(alive[i])])
    ensures (HonestSimplifier(simplify) && tables.sequenceLength == 1.0
             && Population(old(tables.nodes), old(tables.edges), old(alive[..]), step, nsteps))
      ==> failure.None? && Population(tables.nodes, tables.edges, alive[..], step, nsteps)
  {
    ghost var samples := alive[..];
    ghost var out := simplify(tables.nodes, tables.edges, tables.sequenceLength, samples);
    if HonestSimplifier(simplify) && tables.sequenceLength == 1.0 && Population(tables.nodes, tables.edges, samples, step, nsteps) {
      SimplifyKeepsPopulation(tables.nodes, tables.edges, samples, out, step, nsteps);
    }
    var idmap := tables.Simplify(alive[..], simplify);
    if idmap.None? {
      return Some(SimplifyFailed);
    }
    var ok := RemapAlive(alive, idmap.value);
    if !ok {
      return Some(IdOutsideMap);
    }
    assert alive[..] == seq(|samples|, i requires 0 <= i < |samples| => out.idmap[samples[i]]);
    failure := None;
  }

  /** The body of the step loop of `moran`: draw `dead` and then `replace`,
      take the step (whose result is `midNodes`, `midEdges`, `midAlive`), and
      simplify that state exactly when `step % 100 == 0`; `simplified` says
      whether it did. From a population, with an honest simplifier, it never
      panics and leaves a population for the next step. */
  method MoranIteration(alive: array<NodeId>, tables: TableCollection, rng: Rng, simplify: Simplifier, step: int, ghost nsteps: int)
    returns (failure: Option<Panic>, ghost dead: nat, ghost replace: nat,
             ghost midNodes: seq<int>, ghost midEdges: seq<Edge>, ghost midAlive: seq<NodeId>, ghost simplified: bool)
    requires UnitDraws(rng.stream.unit) && 0 < alive.Length
    modifies alive, tables, rng
    ensures rng.pos == old(rng.pos) + 2
    ensures dead == PickFrom(rng.stream.unit(old(rng.pos)), alive.Length)
    ensures replace == PickFrom(rng.stream.unit(old(rng.pos) + 1), alive.Length)
    ensures failure == Some(BirthNotYounger) <==>
      dead != replace && !(0 <= old(alive[replace]) < |old(tables.nodes)| && step < old(tables.nodes)[old(alive[replace])])
    ensures failure != Some(BirthNotYounger) && dead == replace ==>
      midNodes == old(tables.nodes) && midEdges == old(tables.edges) && midAlive == old(alive[..])
    ensures failure != Some(BirthNotYounger) && dead != replace ==>
      && midNodes == old(tables.nodes) + [step]
      && midEdges == old(tables.edges) + [Edge(0.0, 1.0, old(alive[replace]), |old(tables.nodes)|)]
      && midAlive == old(alive[..])[dead := |old(tables.nodes)|]
    ensures simplified <==> failure != Some(BirthNotYounger) && step % Interval == 0
    ensures !simplified ==> failure.None? || failure == Some(BirthNotYounger)
    ensures failure.None? && !simplified ==> tables.nodes == midNodes && tables.edges == midEdges && alive[..] == midAlive
    ensures simplified ==> var out := simplify(midNodes, midEdges, tables.sequenceLength, midAlive);
      && (failure == Some(SimplifyFailed) <==> out.Failed?)
      && (failure == Some(IdOutsideMap) <==> out.Simplified? && !IdsBelow(midAlive, |out.idmap|))
      && (failure.None? ==> && out.Simplified? && tables.nodes == out.nodes && tables.edges == out.edges
                            && |midAlive| == alive.Length && IdsBelow(midAlive, |out.idmap|)
                            && forall i :: 0 <= i < alive.Length ==> alive[i] == out.idmap[midAlive[i]])
    ensures failure.Some? ==> failure.value in {BirthNotYounger, SimplifyFailed, IdOutsideMap}
    ensures (&& HonestSimplifier(simplify) && tables.sequenceLength == 1.0 && 0 <= step <= nsteps
             && old(Population(tables.nodes, tables.edges, alive[..], step, nsteps)))
      ==> failure.None? && Population(tables.nodes, tables.edges, alive[..], step - 1, nsteps)
  {
    var d := rng.Sample(alive.Length);
    var k := rng.Sample(alive.Length);
    dead, replace := d, k;
    var ok := MoranStep(alive, tables, d, k, step, nsteps);
    midNodes, midEdges, midAlive := tables.nodes, tables.edges, alive[..];
    simplified := false;
    if !ok {
      return Some(BirthNotYounger), dead, replace, midNodes, midEdges, midAlive, simplified;
    }
    failure := None;
    if step % Interval == 0 {
      simplified := true;
      failure := SimplifyAlive(alive, tables, simplify, step - 1, nsteps);
    }
  }

  /** One pass of the loop in `moran`: runs the iteration and, when it
      simplified, adds its step to the steps `done` so far. */
  method ScheduledIteration(alive: array<NodeId>, tables: TableCollection, rng: Rng, simplify: Simplifier, step: int,
                            ghost nsteps: int, ghost done: seq<int>)
    returns (failure: Option<Panic>, ghost done': seq<int>)
    requires UnitDraws(rng.stream.unit) && 0 < alive.Length && 0 <= step < nsteps
    requires done + Schedule(step, Interval) == Schedule(nsteps - 1, Interval)
    modifies alive, tables, rng
    ensures failure.Some? ==> failure.value in {BirthNotYounger, SimplifyFailed, IdOutsideMap}
    ensures failure.None? ==> done' + Schedule(step - 1, Interval) == Schedule(nsteps - 1, Interval)
    ensures (&& HonestSimplifier(simplify) && tables.sequenceLength == 1.0
             && old(Population(tables.nodes, tables.edges, alive[..], step, nsteps)))
      ==> failure.None? && Population(tables.nodes, tables.edges, alive[..], step - 1, nsteps)
  {
    ghost var dead, replace, midNodes, midEdges, midAlive, simplifiedNow;
    failure, dead, replace, midNodes, midEdges, midAlive, simplifiedNow := MoranIteration(alive, tables, rng, simplify, step, nsteps);
    done' := done;
    if failure.None? {
      ScheduleStep(done, step, Interval, Schedule(nsteps - 1, Interval));
      if simplifiedNow {
        done' := done + [step];
      }
    }
  }

  /** The step loop of `moran`: steps `nsteps - 1` down to 0, stopping at the
      first panic. */
  method MoranLoop(alive: array<NodeId>, tables: TableCollection, rng: Rng, simplify: Simplifier, nsteps: int, ghost honest: bool)
    returns (failure: Option<Panic>, ghost simplified: seq<int>)
    requires UnitDraws(rng.stream.unit) && 0 < alive.Length && tables.sequenceLength == 1.0
    requires honest ==> HonestSimplifier(simplify) && Population(tables.nodes, tables.edges, alive[..], nsteps - 1, nsteps)
    modifies alive, tables, rng
    ensures failure.Some? ==> failure.value in {BirthNotYounger, SimplifyFailed, IdOutsideMap}
    ensures failure.None? ==> simplified == Schedule(nsteps - 1, Interval)
    ensures nsteps <= 0 ==> failure.None?
    ensures honest ==> failure.None? && Population(tables.nodes, tables.edges, alive[..], -1, nsteps)
  {
    simplified := [];
    var step := nsteps - 1;
    while 0 <= step
      invariant step <= nsteps - 1
      invariant simplified + Schedule(step, Interval) == Schedule(nsteps - 1, Interval)
      invariant honest ==> Population(tables.nodes, tables.edges, alive[..], step, nsteps)
      decreases step + 1
    {
      failure, simplified := ScheduledIteration(alive, tables, rng, simplify, step, nsteps, simplified);
      if failure.Some? {
        return;
      }
      step := step - 1;
    }
    failure := None;
  }

  /** `moran(popsize, nsteps, seed)`, seeing the seed through the draws it
      yields. Steps run from `nsteps - 1` down to 0; each draws `dead` and then
      `replace`, then simplifies when `step % 100 == 0`. `simplified` lists the
      steps whose iteration simplified, in order: exactly the multiples of 100
      below `nsteps`, ending with step 0. With an honest simplifier and a
      positive population size nothing panics, and the returned tables hold
      a valid genealogy. */
  method Moran(popsize: int, nsteps: int, stream: Stream, simplify: Simplifier) returns (r: Result<TableCollection, Panic>, ghost simplified: seq<int>)
    requires UnitDraws(stream.unit)
    ensures popsize <= 0 ==> r == Failure(EmptyPickRange)
    ensures HonestSimplifier(simplify) && 0 < popsize ==> r.Success?
    ensures r.Success? ==> fresh(r.value) && r.value.sequenceLength == 1.0
    ensures r.Success? ==> simplified == Schedule(nsteps - 1, Interval)
    ensures r.Success? ==> forall x :: x in simplified <==> 0 <= x < nsteps && x % Interval == 0
    ensures r.Success? && 0 < nsteps ==> |simplified| > 0 && simplified[|simplified| - 1] == 0
    ensures r.Success? && HonestSimplifier(simplify) && 0 <= nsteps ==>
      ValidEdges(r.value.nodes, r.value.edges, 1.0) && TimesWithin(r.value.nodes, nsteps)
  {
    simplified := [];
    var rng := new Rng(stream);
    var tables := new TableCollection(1.0);
    var alive := Founders(tables, popsize, nsteps);
    if popsize <= 0 {
      return Failure(EmptyPickRange), simplified;
    }
    ghost var honest := HonestSimplifier(simplify) && 0 <= nsteps;
    if honest {
      assert [] + Repeat(nsteps, alive.Length) == Repeat(nsteps, alive.Length);
      FoundersPopulation(nsteps, alive[..]);
    }
    var failure;
    failure, simplified := MoranLoop(alive, tables, rng, simplify, nsteps, honest);
    if failure.Some? {
      return Failure(failure.value), simplified;
    }
    ScheduleMembers(nsteps - 1, Interval);
    if 0 < nsteps {
      ScheduleEndsAtZero(nsteps - 1, Interval);
    }
    r := Success(tables);
  }

  // ---------------------------------------------------------------------------
  // Output names

  function DigitChar(d: nat): (c: char)
    requires d < 10
    ensures '0' <= c <= '9' && (c == '0' <==> d == 0)
  {
    "0123456789"[d]
  }

  function DigitValue(c: char): (d: nat)
  {
    if '0' <= c <= '9' then c as int - '0' as int else 0
  }

  /** `usize::to_string`: decimal digits, no leading zero. */
  function NatToString(n: nat): (s: string)
    ensures |s| > 0 && forall i :: 0 <= i < |s| ==> '0' <= s[i] <= '9'
    ensures s[0] == '0' ==> n == 0
    decreases n
  {
    if n < 10 then [DigitChar(n)] else NatToString(n / 10) + [DigitChar(n % 10)]
  }

  /** Reading decimal digits back. */
  function ParseNat(s: string): (n: nat)
    decreases |s|
  {
    if s == [] then 0 else ParseNat(s[..|s| - 1]) * 10 + DigitValue(s[|s| - 1])
  }

  /** Printing a replicate id and reading it back gives the id: distinct ids print differently. */
  lemma {:induction false} ParseNatToString(n: nat)
    ensures ParseNat(NatToString(n)) == n
    decreases n
  {
    if n >= 10 {
      ParseNatToString(n / 10);
      var s := NatToString(n);
      assert s[..|s| - 1] == NatToString(n / 10);
    }
  }

  /** The name `finalise_tables_and_output` writes replicate `repid` to: the
      prefix, an underscore, the decimal id and `.trees`, with the id
      readable back from between them. */
  function OutputFileName(treefile: string, repid: nat): (name: string)
    ensures |name| == |treefile| + 1 + |NatToString(repid)| + 6
    ensures name[..|treefile|] == treefile && name[|treefile|] == '_' && name[|name| - 6..] == ".trees"
  {
    treefile + "_" + NatToString(repid) + ".trees"
  }

  /** The number between `_` and `.trees` reads back as the replicate id. */
  lemma OutputFileNameParsesBack(treefile: string, repid: nat)
    ensures var name := OutputFileName(treefile, repid);
      ParseNat(name[|treefile| + 1..|name| - 6]) == repid
  {
    var name := OutputFileName(treefile, repid);
    assert name[|treefile| + 1..|name| - 6] == NatToString(repid);
    ParseNatToString(repid);
  }

  /** Different replicates get different files. */
  lemma OutputFileNameInjective(treefile: string, a: nat, b: nat)
    requires OutputFileName(treefile, a) == OutputFileName(treefile, b)
    ensures a == b
  {
    var name := OutputFileName(treefile, a);
    OutputFileNameParsesBack(treefile, a);
    OutputFileNameParsesBack(treefile, b);
    assert name[|treefile| + 1..|name| - 6] == OutputFileName(treefile, b)[|treefile| + 1..|name| - 6];
  }

  // ---------------------------------------------------------------------------
  // Replicates

  /** One replicate: its id and its seed. */
  datatype Replicate = Replicate(repId: nat, seed: nat)

  /** The replicates `run_from_seeds(params, seeds, first)` runs, in order. */
  function Replicates(seeds: seq<nat>, first: nat): (r: seq<Replicate>)
    ensures |r| == |seeds| && forall i :: 0 <= i < |r| ==> r[i].seed == seeds[i]
    ensures forall i, j :: 0 <= i < j < |r| ==> r[i].repId < r[j].repId
  {
    seq(|seeds|, i requires 0 <= i < |seeds| => Replicate(first + i, seeds[i]))
  }

  lemma ReplicatesAppend(a: seq<nat>, b: seq<nat>, first: nat)
    ensures Replicates(a + b, first) == Replicates(a, first) + Replicates(b, first + |a|)
  {
  }

  /** What one replicate leaves behind: its output name, its seed and its tables. */
  datatype Output = Output(fileName: string, seed: nat, tables: TableCollection)

  /** `run_from_seeds(params, seeds, first_rep_id)`: runs `moran` on each seed
      in order; replicate `idx` gets id `first_rep_id + idx`. `streamOf`
      gives the draws each seed yields. */
  method RunFromSeeds(options: ProgramOptions, seeds: seq<nat>, firstRepId: nat, streamOf: nat -> Stream, simplify: Simplifier)
    returns (r: Result<seq<Output>, Panic>)
    requires forall seed :: UnitDraws(streamOf(seed).unit)
    ensures 0 < |seeds| && options.popsize <= 0 ==> r == Failure(EmptyPickRange)
    ensures HonestSimplifier(simplify) && 0 < options.popsize ==> r.Success?
    ensures r.Success? ==> |r.value| == |seeds|
    ensures r.Success? ==> forall i :: 0 <= i < |seeds| ==>
      && Replicate(firstRepId + i, r.value[i].seed) == Replicates(seeds, firstRepId)[i]
      && r.value[i].fileName == OutputFileName(options.treefile, firstRepId + i)
  {
    var outputs: seq<Output> := [];
    for idx := 0 to |seeds|
      invariant |outputs| == idx
      invariant 0 < idx ==> 0 < options.popsize
      invariant NamedRuns(outputs, seeds, options.treefile, firstRepId)
    {
      var one := RunReplicate(options, seeds[idx], firstRepId + idx, streamOf(seeds[idx]), simplify);
      if one.Failure? {
        return Failure(one.error);
      }
      NamedRunsAppend(outputs, one.value, seeds, options.treefile, firstRepId);
      outputs := outputs + [one.value];
    }
    r := Success(outputs);
  }

  /** The outputs so far belong, in order, to the first seeds, each named
      after its replicate id. */
  ghost predicate NamedRuns(outputs: seq<Output>, seeds: seq<nat>, treefile: string, first: nat)
  {
    && |outputs| <= |seeds|
    && forall i :: 0 <= i < |outputs| ==>
         outputs[i].seed == seeds[i] && outputs[i].fileName == OutputFileName(treefile, first + i)
  }

  lemma NamedRunsAppend(outputs: seq<Output>, o: Output, seeds: seq<nat>, treefile: string, first: nat)
    requires NamedRuns(outputs, seeds, treefile, first) && |outputs| < |seeds|
    requires o.seed == seeds[|outputs|] && o.fileName == OutputFileName(treefile, first + |outputs|)
    ensures NamedRuns(outputs + [o], seeds, treefile, first)
  {
    var next := outputs + [o];
    forall i | 0 <= i < |next|
      ensures next[i].seed == seeds[i] && next[i].fileName == OutputFileName(treefile, first + i)
    {
      if i < |outputs| {
        assert next[i] == outputs[i];
      }
    }
  }

  /** One pass of the loop in `run_from_seeds`: runs `moran` on one seed's
      draws and names its output after the replicate id. */
  method RunReplicate(options: ProgramOptions, seed: nat, repId: nat, stream: Stream, simplify: Simplifier)
    returns (r: Result<Output, Panic>)
    requires UnitDraws(stream.unit)
    ensures options.popsize <= 0 ==> r == Failure(EmptyPickRange)
    ensures HonestSimplifier(simplify) && 0 < options.popsize ==> r.Success?
    ensures r.Success? ==> 0 < options.popsize && r.value.seed == seed && r.value.fileName == OutputFileName(options.treefile, repId)
  {
    var run, _ := Moran(options.popsize, options.nsteps, stream, simplify);
    if run.Failure? {
      return Failure(run.error);
    }
    r := Success(Output(OutputFileName(options.treefile, repId), seed, run.value));
  }

  /** The work one thread is given: its first replicate id and its seeds. */
  datatype Job = Job(firstRepId: nat, seeds: seq<nat>)

  /** `n as usize` for an i32 `n`: the cast sign-extends to 64 bits, so a
      negative value wraps to `2^64 + n`. */
  function AsUsize(n: int): (r: nat)
    requires -0x8000_0000 <= n
    ensures n != 0 ==> 0 < r
    ensures 0 <= n ==> r == n
    ensures n < 0 ==> r == 0x1_0000_0000_0000_0000 + n && 0x1_0000_0000_0000_0000 - 0x8000_0000 <= r
    ensures (r - n) % 0x1_0000_0000_0000_0000 == 0
  {
    if n >= 0 then n else 0x1_0000_0000_0000_0000 + n
  }

  /** `seeds.len() / nthreads as usize` */
  function RepsPerThread(len: nat, nthreads: int): (rpt: nat)
    requires -0x8000_0000 <= nthreads && nthreads != 0
    ensures rpt * AsUsize(nthreads) <= len < (rpt + 1) * AsUsize(nthreads)
  {
    var d := AsUsize(nthreads);
    var q := len / d;
    assert q * d + len % d == len && 0 <= len % d < d;
    q
  }

  /** Each job starts where the previous one ends. */
  ghost predicate Contiguous(jobs: seq<Job>)
  {
    forall t :: 0 <= t < |jobs| - 1 ==> jobs[t + 1].firstRepId == jobs[t].firstRepId + |jobs[t].seeds|
  }

  /** Each job's seeds are the seeds at its offsets. */
  ghost predicate SlicesOf(jobs: seq<Job>, seeds: seq<nat>)
  {
    forall t :: 0 <= t < |jobs| ==>
      && jobs[t].firstRepId + |jobs[t].seeds| <= |seeds|
      && jobs[t].seeds == seeds[jobs[t].firstRepId..jobs[t].firstRepId + |jobs[t].seeds|]
  }

  /** The jobs cut `seeds[..end]` into contiguous slices from 0, each job's
      first id being its start offset. */
  ghost predicate Tiled(jobs: seq<Job>, seeds: seq<nat>, end: nat)
  {
    && end <= |seeds|
    && (jobs == [] ==> end == 0)
    && (jobs != [] ==> jobs[0].firstRepId == 0 && jobs[|jobs| - 1].firstRepId + |jobs[|jobs| - 1].seeds| == end)
    && Contiguous(jobs)
    && SlicesOf(jobs, seeds)
  }

  lemma ContiguousAppend(jobs: seq<Job>, job: Job)
    requires Contiguous(jobs)
    requires jobs != [] ==> jobs[|jobs| - 1].firstRepId + |jobs[|jobs| - 1].seeds| == job.firstRepId
    ensures Contiguous(jobs + [job])
  {
    var jobs' := jobs + [job];
    forall t | 0 <= t < |jobs'| - 1
      ensures jobs'[t + 1].firstRepId == jobs'[t].firstRepId + |jobs'[t].seeds|
    {
      assert jobs'[t] == jobs[t];
      if t + 1 < |jobs| {
        assert jobs'[t + 1] == jobs[t + 1];
      }
    }
  }

  lemma SlicesOfAppend(jobs: seq<Job>, seeds: seq<nat>, start: nat, end: nat)
    requires SlicesOf(jobs, seeds) && start <= end <= |seeds|
    ensures SlicesOf(jobs + [Job(start, seeds[start..end])], seeds)
  {
    var jobs' := jobs + [Job(start, seeds[start..end])];
    forall t | 0 <= t < |jobs'|
      ensures jobs'[t].firstRepId + |jobs'[t].seeds| <= |seeds|
      ensures jobs'[t].seeds == seeds[jobs'[t].firstRepId..jobs'[t].firstRepId + |jobs'[t].seeds|]
    {
      if t < |jobs| {
        assert jobs'[t] == jobs[t];
      }
    }
  }

  /** A job for the next slice keeps the jobs contiguous. */
  lemma TiledAppend(jobs: seq<Job>, seeds: seq<nat>, start: nat, end: nat)
    requires Tiled(jobs, seeds, start) && start <= end <= |seeds|
    ensures Tiled(jobs + [Job(start, seeds[start..end])], seeds, end)
  {
    ContiguousAppend(jobs, Job(start, seeds[start..end]));
    SlicesOfAppend(jobs, seeds, start, end);
  }

  /** Dropping the last job leaves the jobs tiling up to where it started. */
  lemma TiledInit(jobs: seq<Job>, seeds: seq<nat>, end: nat)
    requires Tiled(jobs, seeds, end) && jobs != []
    ensures Tiled(jobs[..|jobs| - 1], seeds, jobs[|jobs| - 1].firstRepId)
  {
    var n := |jobs| - 1;
    if n > 0 {
      assert jobs[n - 1].firstRepId + |jobs[n - 1].seeds| == jobs[n].firstRepId;
    }
  }

  /** The last job covers the seeds from its first id up to `end`. */
  lemma TiledLast(jobs: seq<Job>, seeds: seq<nat>, end: nat)
    requires Tiled(jobs, seeds, end) && jobs != []
    ensures var last := jobs[|jobs| - 1];
      last.firstRepId <= end && seeds[..end] == seeds[..last.firstRepId] + last.seeds
  {
    var last := jobs[|jobs| - 1];
    assert last.seeds == seeds[last.firstRepId..end];
  }

  /** All replicates the jobs run, job by job. */
  function JobReplicates(jobs: seq<Job>): (r: seq<Replicate>)
    decreases |jobs|
  {
    if jobs == [] then []
    else JobReplicates(jobs[..|jobs| - 1]) + Replicates(jobs[|jobs| - 1].seeds, jobs[|jobs| - 1].firstRepId)
  }

  /** Contiguous jobs run exactly the replicates a single run over the
      covered seeds would: every seed once, with its index as its id. */
  lemma {:induction false} TiledReplicates(jobs: seq<Job>, seeds: seq<nat>, end: nat)
    requires Tiled(jobs, seeds, end)
    ensures JobReplicates(jobs) == Replicates(seeds[..end], 0)
    decreases |jobs|
  {
    if jobs != [] {
      var n := |jobs| - 1;
      var start := jobs[n].firstRepId;
      var init := jobs[..n];
      TiledInit(jobs, seeds, end);
      TiledLast(jobs, seeds, end);
      TiledReplicates(init, seeds, start);
      ReplicatesAppend(seeds[..start], jobs[n].seeds, 0);
      calc {
        JobReplicates(jobs);
        JobReplicates(init) + Replicates(jobs[n].seeds, start);
        Replicates(seeds[..start], 0) + Replicates(jobs[n].seeds, 0 + |seeds[..start]|);
        Replicates(seeds[..start] + jobs[n].seeds, 0);
        Replicates(seeds[..end], 0);
      }
    } else {
      assert |Replicates(seeds[..end], 0)| == 0;
    }
  }

  /** Contiguous jobs of `rpt` seeds each, up to `end`. */
  ghost predicate Sliced(jobs: seq<Job>, seeds: seq<nat>, end: nat, rpt: nat)
  {
    Tiled(jobs, seeds, end) && forall t :: 0 <= t < |jobs| ==> |jobs[t].seeds| == rpt
  }

  /** The next job of the loop keeps the jobs contiguous and of equal size. */
  lemma SlicedAppend(jobs: seq<Job>, seeds: seq<nat>, start: nat, rpt: nat)
    requires Sliced(jobs, seeds, start, rpt) && start + rpt <= |seeds|
    ensures Sliced(jobs + [Job(start, seeds[start..start + rpt])], seeds, start + rpt, rpt)
  {
    TiledAppend(jobs, seeds, start, start + rpt);
    var jobs' := jobs + [Job(start, seeds[start..start + rpt])];
    forall t | 0 <= t < |jobs'|
      ensures |jobs'[t].seeds| == rpt
    {
      if t < |jobs| {
        assert jobs'[t] == jobs[t];
      }
    }
  }

  /** The last job takes the rest of the seeds. */
  lemma SlicedFinish(jobs: seq<Job>, seeds: seq<nat>, start: nat, rpt: nat)
    requires Sliced(jobs, seeds, start, rpt)
    ensures var jobs' := jobs + [Job(start, seeds[start..])];
      && Tiled(jobs', seeds, |seeds|)
      && forall t :: 0 <= t < |jobs'| - 1 ==> |jobs'[t].seeds| == rpt
  {
    TiledAppend(jobs, seeds, start, |seeds|);
    assert seeds[start..] == seeds[start..|seeds|];
    var jobs' := jobs + [Job(start, seeds[start..])];
    forall t | 0 <= t < |jobs'| - 1
      ensures |jobs'[t].seeds| == rpt
    {
      assert jobs'[t] == jobs[t];
    }
  }

  /** `t * k`, accumulated the way the loop accumulates `repid`. */
  function Times(t: nat, k: nat): (r: nat)
  {
    if t == 0 then 0 else Times(t - 1, k) + k
  }

  lemma {:induction false} TimesIsProduct(t: nat, k: nat)
    ensures Times(t, k) == t * k
  {
    if t > 0 {
      TimesIsProduct(t - 1, k);
    }
  }

  /** For `t < n - 1` threads done, the next slice still ends before the last seed. */
  lemma SliceFits(len: nat, n: nat, t: nat)
    requires 1 < n < 0x8000_0000 && t < n - 1
    ensures 0 < len ==> Times(t + 1, RepsPerThread(len, n)) < len
  {
    var rpt := RepsPerThread(len, n);
    assert rpt == len / n;
    TimesIsProduct(t + 1, rpt);
    MulMonotone(t + 1, n - 1, rpt);
    QuotientTimesDivisor(len, n);
    assert (n - 1) * rpt + rpt == n * rpt;
  }

  lemma MulMonotone(a: nat, b: nat, c: nat)
    requires a <= b
    ensures a * c <= b * c
  {
  }

  lemma QuotientTimesDivisor(a: nat, b: nat)
    requires 0 < b
    ensures b * (a / b) <= a
  {
  }

  /** `run_threaded(options, seeds)` up to spawning: the slices handed to the
      threads. The first `nthreads - 1` take `seeds.len() / nthreads` seeds
      each, the last takes the rest. It panics on `nthreads == 0` and, with
      more than one thread, exactly when there are no seeds. */
  method RunThreaded(nthreads: int, seeds: seq<nat>) returns (r: Result<seq<Job>, Panic>)
    requires -0x8000_0000 <= nthreads < 0x8000_0000
    ensures nthreads == 0 ==> r == Failure(DivisionByZero)
    ensures nthreads != 0 ==> (r.Success? <==> (nthreads <= 1 || 0 < |seeds|))
    ensures nthreads != 0 && r.Failure? ==> r.error == SliceOverrun
    ensures r.Success? ==> |r.value| == (if 1 < nthreads then nthreads else 1)
    ensures r.Success? ==> Tiled(r.value, seeds, |seeds|)
    ensures r.Success? ==> forall t :: 0 <= t < |r.value| - 1 ==> |r.value[t].seeds| == RepsPerThread(|seeds|, nthreads)
  {
    if nthreads == 0 {
      return Failure(DivisionByZero);
    }
    var repsPerThread := RepsPerThread(|seeds|, nthreads);
    var jobs: seq<Job> := [];
    var repid: nat := 0;
    var t := 0;
    while t < nthreads - 1
      invariant 0 <= t && (1 < nthreads ==> t <= nthreads - 1)
      invariant |jobs| == t && repid == Times(t, repsPerThread)
      invariant Sliced(jobs, seeds, repid, repsPerThread)
      invariant 0 < t ==> 0 < |seeds|
      invariant nthreads <= 1 ==> t == 0
    {
      SliceFits(|seeds|, nthreads, t);
      if !(repid + repsPerThread < |seeds|) {
        return Failure(SliceOverrun);
      }
      SlicedAppend(jobs, seeds, repid, repsPerThread);
      jobs, repid, t := jobs + [Job(repid, seeds[repid..repid + repsPerThread])], repid + repsPerThread, t + 1;
    }
    SlicedFinish(jobs, seeds, repid, repsPerThread);
    jobs := jobs + [Job(repid, seeds[repid..])];
    r := Success(jobs);
  }
}
