# Forward simulations recorded in tskit tables: a verified model

This project models the simulation logic of `example_tskit_rust_simulations`:
two forward-time population simulations that write their genealogies into a
tskit table collection, and the seed and replicate bookkeeping around them.

- `Diploids` (`diploid.dfy`) covers reproduction in the diploid
  overlapping-generations model:
  - survival and death sampling (`death_and_parents`);
  - the Mendel coin (`mendel`);
  - the crossover loop that cuts the genome `[0, L)` into edges from
    alternating parental strands (`crossover_and_record_edges_details`,
    `crossover_and_record_edges`);
  - offspring that overwrite dead slots (`births`);
  - the sample list and id remapping around tskit's simplification
    (`simplify`).
- `Seeding` (`seeding.dfy`) is `make_unique_seeds`, the rejection loop that
  draws distinct 64-bit seeds.
- `HaploidMoran` (`haploid_moran.dfy`) is the haploid Moran binary:
  - founders, the per-step death/birth rule and its time assertion;
  - simplification and remapping every 100 steps;
  - the output file name;
  - the replicate ids of `run_from_seeds` and the slices `run_threaded`
    hands to its threads.
- `Overlapping` (`overlapping_generations.dfy`) is the overlapping-generations
  binary: `validate`, the founders, and the step loop with its
  simplification schedule. `Schedules` (`schedule.dfy`) describes that
  schedule.

Supporting modules:
- `Tables` (`tables.dfy`) is an append-only stand-in for tskit's
  `TableCollection`:
  - a node is its birth time, and its id is its row;
  - edges are `(left, right, parent, child)` rows;
  - `simplify` is an external algorithm the caller supplies as a function.
    What tskit guarantees about it is stated once, as the predicate
    `HonestSimplifier`. Given a valid edge table and distinct existing
    samples, tskit returns a covering, injective id map, surviving nodes
    keep their times, and the simplified edges are valid again. Results that depend on it say so in their
    contracts. `KeepAll` shows the assumption can be met.
- `Random` (`random.dfy`) replaces the seeded `StdRng` with the stream of
  draws it yields. Each position carries a uniform double in `[0, 1)` and an
  exponential sample. Each sampling call consumes one position, so a run is a
  function of its stream.
- `Floats` (`floats.dfy`) models `f64::partial_cmp` with its unordered (NaN)
  outcome. That outcome decides several branches of the source.
- `Wrappers` (`wrappers.dfy`) holds `Option` and `Result`.

Panics are modelled explicitly:
- `ok: bool` results;
- `Option<Panic>`;
- `Result.Failure` with a `Panic` value naming the failing call.

Each driver states when it cannot panic: an honest simplifier and sane
parameters.

## Model

| member | source | states |
|---|---|---|
| Floats.PartialCmp | src/diploid.rs:49-61 | the comparison is unordered exactly when an operand is NaN; on finite values Less, Equal and Greater agree with the real order |
| Random.PickFrom | src/diploid.rs:46 | a pick from `Uniform::new(0, n)` lies in `[0, n)` |
| Random.Rng.Gen | src/diploid.rs:48 | `rng.gen()` yields the uniform draw at the current position and consumes exactly one position |
| Random.Rng.Sample | src/diploid.rs:51-52 | a uniform integer sample lies below `n` and consumes exactly one position |
| Random.Rng.SampleExp | src/diploid.rs:98 | an exponential sample is the draw at the current position and consumes exactly one position |
| Tables.TableCollection.constructor | src/bin/overlapping_generations.rs:144-147 | a new table collection has the given sequence length and no nodes or edges |
| Tables.TableCollection.AddNode | src/diploid.rs:152-165 | the new node's id is the old node count; one node with the given time is appended and the edges are untouched |
| Tables.TableCollection.AddEdge | src/diploid.rs:87-90 | exactly the given edge is appended, without validation, and the nodes are untouched |
| Tables.TableCollection.Time | src/bin/haploid_moran.rs:107-110 | a node's time is defined exactly for ids in the node table, and is that node's time |
| Tables.TableCollection.Simplify | src/diploid.rs:183-200 | on success the tables become the simplified tables and the id map is returned; on failure nothing changes and no map is returned |
| Tables.KeepAllIsHonest | src/diploid.rs:188 | the simplifier guarantees the model relies on can be met: keeping every node satisfies them |
| Tables.SimplifyKeepsTimesWithin | src/bin/haploid_moran.rs:122 | under the simplifier's guarantees, a bound on all node times before simplification bounds them after |
| Diploids.DeathRecordsWellFormed | src/diploid.rs:47-61 | at most one record per slot, in strictly increasing slot order, each slot inside `alive`, each parent one of the first `popsize` individuals; one to three draws per slot |
| Diploids.DeathRecords | src/diploid.rs:47-61 | the reference definition of the death loop: it only moves forward in the stream, and its records are for slots from the current index on |
| Diploids.FirstSlotDecision | src/diploid.rs:48-61 | a slot gets a record exactly when its draw compares Greater than `psurvival` |
| Diploids.NaNSurvivalKillsNobody | src/diploid.rs:49-60 | with a NaN `psurvival` no record is pushed, and one draw is consumed per slot |
| Diploids.CertainSurvival | src/diploid.rs:49-59 | with `psurvival >= 1` no record is pushed |
| Diploids.CertainDeath | src/diploid.rs:49-57 | with `psurvival < 0` every slot gets a record, in slot order |
| Diploids.DeathAndParents | src/diploid.rs:40-63 | only appends to `parents`, exactly the death records of the draws, leaves `alive` unchanged, and advances the stream past the draws used |
| Diploids.MendelOrder | src/diploid.rs:65-74 | the result is a permutation of the pair; it is swapped exactly when the draw is below one half and unchanged otherwise |
| Diploids.Mendel | src/diploid.rs:65-74 | consumes one draw and returns the Mendel order of the pair for that draw |
| Diploids.XoverTiles | src/diploid.rs:96-127 | with positive breakpoint lengths, the crossover edges tile `[from, L)` with contiguous non-empty spans and alternate strands from the first one, all to the offspring node |
| Diploids.XoverEdgeCount | src/diploid.rs:96-127 | the loop records one edge per exponential length it consumes |
| Diploids.XoverEdges | src/diploid.rs:96-127 | the crossover edges start at the current position on the first strand, end at `L`, and all go to the offspring node |
| Diploids.RecordedEdges | src/diploid.rs:83-127 | the edges one call records: at least one, starting at 0 on the post-Mendel first strand and ending at `L`, all to the offspring node |
| Diploids.RecordedIsTransmission | src/diploid.rs:83-127 | whatever the Mendel draw and the crossover rate, the recorded edges pass the whole genome from the two copies of the parent to the offspring |
| Diploids.RecordCrossovers | src/diploid.rs:96-127 | the loop consumes exactly the exponential lengths up to the first one that reaches `L`, all positive, and appends exactly the crossover edges for them; nodes are untouched |
| Diploids.CrossoverAndRecordEdgesDetails | src/diploid.rs:76-129 | succeeds exactly when the crossover rate is not negative (`Exp::new` panics otherwise); with rate 0 it records the single edge `[0, L)` from the post-Mendel first strand and draws no length; the appended edges are a transmission from the parent |
| Diploids.CrossoverAndRecordEdges | src/diploid.rs:131-140 | the first offspring node inherits from `parent0` and then the second from `parent1`, each by a transmission, and nothing else is appended |
| Diploids.Birth | src/diploid.rs:150-171 | one iteration of `births`: two nodes at the birth time, the dead slot overwritten with them, then the two transmissions |
| Diploids.Births | src/diploid.rs:142-173 | two nodes at the birth time per record; the population becomes `Replaced`; every offspring inherits from its parents; with parents older than the birth time the edge table stays valid |
| Diploids.Replaced | src/diploid.rs:169 | the population after births, as a reference definition: the population keeps its size (its slots are given by `ReplacedSlots`) |
| Diploids.ReplacedSlots | src/diploid.rs:169 | with records in increasing slot order, each dead slot holds its own offspring and every other slot is unchanged |
| Diploids.ReplacedFresh | src/diploid.rs:152-169 | filling slots with fresh node ids keeps all nodes distinct, each individual's two nodes different, and every individual either kept or new |
| Diploids.InheritedValid | src/diploid.rs:150-172 | a round of births into nodes younger than every parent keeps the edge table valid |
| Diploids.SampleNodes | src/diploid.rs:176-181 | the sample list has two entries per individual (their order is given by `SampleNodesLayout`) |
| Diploids.SampleNodesLayout | src/diploid.rs:176-181 | the sample list holds `node0, node1` of each individual, in order, and has length `2 * |alive|` |
| Diploids.CollectSamples | src/diploid.rs:176-181 | panics exactly when some individual has `node0 == node1`; otherwise returns the sample list |
| Diploids.Remapped | src/diploid.rs:191-196 | the population after remapping, as a reference definition: the same number of individuals, each with both nodes replaced by their images in the map |
| Diploids.RemapAlive | src/diploid.rs:191-196 | fails exactly when some stored id is outside the map or maps to NULL; otherwise every node of every individual is replaced by its image |
| Diploids.HonestRemap | src/diploid.rs:188-196 | under the simplifier's guarantees, with a valid edge table, a population of distinct existing nodes passes both NULL assertions; the remapped nodes are distinct, exist, and keep their times |
| Diploids.Simplify | src/diploid.rs:175-202 | succeeds exactly when both assertions pass and tskit returns a map; the new tables and population are the simplified ones; under the simplifier's guarantees, with a valid edge table, a population of distinct existing nodes never panics |
| Seeding.SeedDraw | src/seeding.rs:9 | a seed drawn from the half-open range never equals `u64::MAX` |
| Seeding.DedupDistinct | src/seeding.rs:15-20 | the reference sequence of first occurrences has no repeated value |
| Seeding.NextUnused | src/seeding.rs:15-18 | the rejection loop returns the first draw from the current position whose value is not yet used, and the extended first-occurrence sequence |
| Seeding.MakeUniqueSeeds | src/seeding.rs:8-23 | the result is exactly the first `nseeds` distinct values of the draw stream, in the order they first occur |
| Seeding.UniqueSeedsProperties | src/seeding.rs:14-22 | that result has exactly `nseeds` elements, pairwise distinct, each below `u64::MAX` |
| HaploidMoran.Founders | src/bin/haploid_moran.rs:88-94 | `popsize` nodes at time `nsteps` are appended, and `alive[i]` holds the i-th of them |
| HaploidMoran.MoranStep | src/bin/haploid_moran.rs:102-115 | `dead == replace` changes nothing. Otherwise the assertion holds exactly when the parent exists and is older than `step`; then one node at `step` and one edge `[0, 1)` from `alive[replace]` are appended and only `alive[dead]` changes. A population stays a population |
| HaploidMoran.FoundersPopulation | src/bin/haploid_moran.rs:88-94 | the founders are distinct existing nodes, all older than the first step |
| HaploidMoran.StepKeepsPopulation | src/bin/haploid_moran.rs:98-114 | when every living node is older than `step`, the time assertion holds and the step leaves every living node older than `step - 1` |
| HaploidMoran.RemapAlive | src/bin/haploid_moran.rs:125-127 | fails exactly at an id outside the map; otherwise every slot holds the image of its old id |
| HaploidMoran.SimplifyAlive | src/bin/haploid_moran.rs:117-133 | panics exactly when tskit fails or an id is outside the map; otherwise the tables are the simplified ones and `alive` is renamed; under the simplifier's guarantees a population never panics and stays a population |
| HaploidMoran.MoranIteration | src/bin/haploid_moran.rs:98-133 | one step draws `dead` from the first uniform draw and `replace` from the second, then births; it simplifies exactly when the birth assertion held and `step % 100 == 0`, and then the tables and `alive` are the simplifier's output for the post-birth state; otherwise that state is kept; from a population under an honest simplifier it never panics and leaves a population for the next step |
| HaploidMoran.MoranLoop | src/bin/haploid_moran.rs:98-134 | the steps whose iteration simplified are exactly the schedule of multiples of 100 from `nsteps - 1` down; from a population under an honest simplifier no step panics and a population remains |
| HaploidMoran.Moran | src/bin/haploid_moran.rs:83-137 | a population size of 0 or less panics at the picker; with a positive size and an honest simplifier nothing panics; the steps whose iteration simplified are exactly the multiples of 100 below `nsteps`, in decreasing order, ending with step 0; the result holds valid edges and times in `[0, nsteps]` |
| HaploidMoran.ParseNatToString | src/bin/haploid_moran.rs:154 | the decimal rendering of a replicate id reads back as that id |
| HaploidMoran.NatToString | src/bin/haploid_moran.rs:154 | `repid.to_string()` is a non-empty string of decimal digits with no leading zero unless the id is 0 |
| HaploidMoran.OutputFileName | src/bin/haploid_moran.rs:152-155 | the output name is the tree-file prefix, then `_`, then the decimal id, then `.trees`, with exactly those lengths |
| HaploidMoran.OutputFileNameParsesBack | src/bin/haploid_moran.rs:152-155 | the text between the prefix's `_` and `.trees` reads back as the replicate id |
| HaploidMoran.OutputFileNameInjective | src/bin/haploid_moran.rs:152-155 | different replicates write to different files |
| HaploidMoran.RunReplicate | src/bin/haploid_moran.rs:164-165 | one replicate: a population size of 0 or less panics; with a positive size and an honest simplifier it succeeds; its output carries the seed and the file name of its id |
| HaploidMoran.Replicates | src/bin/haploid_moran.rs:162-165 | the replicates `run_from_seeds` runs: one per seed, in seed order, with strictly increasing ids |
| HaploidMoran.RunFromSeeds | src/bin/haploid_moran.rs:162-167 | runs one replicate per seed, in order; replicate `idx` has id `first_rep_id + idx` and is written to that id's file; with at least one seed, a population size of 0 or less panics |
| HaploidMoran.AsUsize | src/bin/haploid_moran.rs:177 | the `i32` to `usize` cast keeps non-negative values, sign-extends a negative `n` to `2^64 + n`, is congruent to `n` modulo `2^64`, and maps only 0 to 0 |
| HaploidMoran.TiledReplicates | src/bin/haploid_moran.rs:162-165 | contiguous slices from 0 run every seed exactly once, each with its index as replicate id |
| HaploidMoran.RepsPerThread | src/bin/haploid_moran.rs:177 | `seeds.len() / nthreads as usize` is the largest count whose product with the cast thread count does not exceed the number of seeds |
| HaploidMoran.SliceFits | src/bin/haploid_moran.rs:179-180 | with more than one thread and at least one seed, the assertion `repid + reps_per_thread < seeds.len()` holds on every iteration |
| HaploidMoran.RunThreaded | src/bin/haploid_moran.rs:175-192 | `nthreads == 0` divides by zero; otherwise it panics exactly when there are several threads and no seeds; on success there are `max(nthreads, 1)` slices; they tile the seeds contiguously from 0, each slice's first id is its offset, and all but the last have `len / nthreads` seeds |
| Schedules.Schedule | src/bin/overlapping_generations.rs:168-175 | the steps a backward loop simplifies: none exactly when no step runs, and at most one per step |
| Schedules.ScheduleMembers | src/bin/overlapping_generations.rs:168-175 | a step is simplified exactly when it is run and a multiple of the interval, and the simplified steps are met in strictly decreasing order |
| Schedules.ScheduleEndsAtZero | src/bin/overlapping_generations.rs:168-175 | whenever any step runs, the last simplification is at step 0 |
| Overlapping.Validate | src/bin/overlapping_generations.rs:118-140 | accepts exactly `0 <= psurvival < 1` and NaN, and rejects every other value with the range message |
| Overlapping.RejectedSurvivalIsDegenerate | src/bin/overlapping_generations.rs:118-140 | every rejected survival probability is degenerate: with it nobody dies or everybody does, whatever the draws |
| Overlapping.Founders | src/bin/overlapping_generations.rs:151-164 | `2 * popsize` nodes at time `nsteps` are appended, and individual i holds the (2i)-th and (2i+1)-th of them |
| Overlapping.FoundersPopulation | src/bin/overlapping_generations.rs:151-164 | the founders' nodes are distinct, each individual's two nodes differ, and all are older than the first step |
| Overlapping.ParentsOlder | src/bin/overlapping_generations.rs:170-171 | parents drawn from the population are older than the step's birth time |
| Overlapping.BirthsKeepPopulation | src/bin/overlapping_generations.rs:170-171 | births at step `t` into a population, with parents drawn from it, leave a population for step `t - 1`: the new nodes, the refilled slots and the appended inherited tracts together, edge validity included |
| Overlapping.BirthsKeepNodes | src/bin/overlapping_generations.rs:170-171 | after births at step `t`, the individuals are distinct existing nodes older than `t - 1`, and all times stay within `[0, nsteps]` |
| Overlapping.SimplifyKeepsPopulation | src/bin/overlapping_generations.rs:173-175 | under the simplifier's guarantees, simplification of a population succeeds and leaves a population |
| Overlapping.Reproduce | src/bin/overlapping_generations.rs:169-171 | the records are drawn afresh from the pre-birth population, whatever `parents` held; the picker panics exactly when `popsize == 0`; births follow: two nodes per record, the population becomes `Replaced`, and the appended edges are two inherited tracts per record; a population stays a population |
| Overlapping.SimplifyPopulation | src/bin/overlapping_generations.rs:173-175 | the outcome of `simplify`; under the simplifier's guarantees a population does not panic and stays a population |
| Overlapping.Step | src/bin/overlapping_generations.rs:168-175 | one iteration: reproduction, then the remainder by the interval (which panics on interval 0), then simplification exactly on a 0 remainder, applied to the post-birth tables and samples; without it the post-birth state is kept; its panics are classified by cause |
| Overlapping.StepLoop | src/bin/overlapping_generations.rs:168-176 | the steps whose iteration simplified are exactly the schedule; the step loop panics only for the causes named; from a population it ends in a population |
| Overlapping.OverlappingGenerations | src/bin/overlapping_generations.rs:143-181 | a non-positive genome length panics at table creation and `popsize == 0` panics at the picker; under an honest simplifier with sane parameters nothing panics; the steps whose iteration simplified are exactly the multiples of the interval below `nsteps`, ending with step 0; the returned tables hold valid edges and times in `[0, nsteps]` |

## Left out

- tskit's own algorithms are not modelled: `full_sort`, simplification's graph reduction, `build_index`, `dump` and `add_provenance`. Simplification is an external function whose guarantees are an explicit assumption (`HonestSimplifier`). `full_sort` is folded into it, and its errors count as a simplify failure.
- `add_node` and `add_edge` never fail in the model. tskit validates neither at insertion, so the `unwrap`/`panic!` arms around them are not reachable here.
- `TableCollection::new` panics for a non-positive genome length. Of its checks only this one is modelled, as `BadSequenceLength`.
- The random-number algorithms (`StdRng::seed_from_u64`, `Uniform`, `Exp`) are not modelled. A seed is represented by the stream of draws it yields. `ValidStream` is an assumption about that stream: uniform draws lie in `[0, 1)`, exponential samples are positive, and their partial sums grow without bound. The last holds with probability 1 for a real generator and is what makes the crossover loop end.
- Floating point: positions, lengths and rates are reals without rounding. Only `psurvival` carries NaN and the infinities, because its comparisons are where the source branches on them. A NaN crossover rate or genome length is not modelled.
- Birth times are integers, so the `u32` to `f64` casts of the source are exact in the model.
- Diploids.Mendel: the `None` arm of `mendel`'s comparison panics in the source. A uniform draw is never NaN, so that arm is unreachable and has no panic value.
- Diploids.DeathAndParents: requires `0 < popsize <= alive.len()`. If `popsize` is 0, `Uniform::new` panics, and every caller checks for this first and reports `EmptyPickRange`. If `popsize` exceeds the population, the source may index out of bounds, and that panic is not modelled.
- Diploids.Births: requires every record's slot to lie inside `alive`. `death_and_parents` guarantees this, so the indexing panic in the source is not modelled.
- HaploidMoran.RunThreaded: for `nthreads == i32::MIN`, the subtraction `nthreads - 1` overflows in the source; the model treats it as an empty loop.
- Integer widths are not modelled apart from the `as usize` cast in `run_threaded`. Population sizes, step counts and ids are unbounded.
- Command-line parsing (`ProgramOptions::new` in both binaries) is not modelled. It is option plumbing done by the clap library. The option records and their defaults are modelled.
- `main` of both binaries is not modelled. It only wires parsing, seeding, the drivers and output together.
- Threads are not modelled: `thread::spawn`, `Arc`, `run_in_thread` and `join`. `run_threaded` is modelled up to the slices each thread receives, and `run_from_seeds` covers what each thread runs.
- File output and the provenance JSON string are not modelled. `finalise_tables_and_output` is modelled only as the output file name.
- Seeding.MakeUniqueSeeds: requires a finite prefix of the draw stream that holds at least `nseeds` distinct values. On a stream where the rejection loop at src/seeding.rs:16-18 never finds an unused value, the source does not terminate; that case is not modelled.
- Tables.HonestSimplifier: edge validity in the model covers bounds, existing nodes and parents older than children. The model does not assume that the edges of one child never overlap, and does not state tskit's own edge checks beyond these; births record each child's edges as one tiling of `[0, L)` (`RecordedIsTransmission`).
- `process.py` and `process_moran.py` are not part of this model. They are analysis scripts run downstream of the simulations.
