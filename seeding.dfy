/** `make_unique_seeds`: draw 64-bit seeds, rejecting any already drawn,
    until `nseeds` distinct ones have been collected. */
module Seeding {
  import opened Random

  const U64_MAX: nat := 0xFFFF_FFFF_FFFF_FFFF

  /** `Uniform::new(0_u64, u64::MAX)`: half-open, so u64::MAX itself never occurs. */
  function SeedDraw(u: real): (s: nat)
    requires 0.0 <= u < 1.0
    ensures s < U64_MAX
  {
    PickFrom(u, U64_MAX)
  }

  /** Every draw of a finite prefix of the stream lies in [0, 1). */
  ghost predicate UnitPrefix(draws: seq<real>)
  {
    forall k :: 0 <= k < |draws| ==> 0.0 <= draws[k] < 1.0
  }

  /** The seed values the successive draws produce. */
  function SeedValues(draws: seq<real>): (vs: seq<nat>)
    requires UnitPrefix(draws)
    ensures |vs| == |draws|
    ensures forall k :: 0 <= k < |vs| ==> vs[k] == SeedDraw(draws[k])
  {
    seq(|draws|, k requires 0 <= k < |draws| => SeedDraw(draws[k]))
  }

  /** The reference definition: the values of `s` in the order of their first occurrence. */
  function Dedup(s: seq<nat>): (d: seq<nat>)
  {
    if s == [] then []
    else
      var d := Dedup(s[..|s| - 1]);
      if s[|s| - 1] in d then d else d + [s[|s| - 1]]
  }

  lemma {:induction false} DedupElements(s: seq<nat>)
    ensures forall x :: x in Dedup(s) <==> x in s
    ensures |Dedup(s)| <= |s|
  {
    if s != [] {
      var init := s[..|s| - 1];
      DedupElements(init);
      assert s == init + [s[|s| - 1]];
    }
  }

  lemma {:induction false} DedupDistinct(s: seq<nat>)
    ensures forall i, j :: 0 <= i < j < |Dedup(s)| ==> Dedup(s)[i] != Dedup(s)[j]
  {
    if s != [] {
      DedupDistinct(s[..|s| - 1]);
    }
  }

  /** Deduplicating a prefix gives a prefix of the deduplicated whole. */
  lemma {:induction false} DedupPrefix(s: seq<nat>, n: nat)
    requires n <= |s|
    ensures Dedup(s[..n]) <= Dedup(s)
    decreases |s| - n
  {
    if n < |s| {
      DedupPrefix(s, n + 1);
      var t := s[..n + 1];
      assert t[..|t| - 1] == s[..n];
    } else {
      assert s[..n] == s;
    }
  }

  /** A value already seen adds nothing. */
  lemma RejectStep(s: seq<nat>, n: nat, d: seq<nat>)
    requires n < |s| && d == Dedup(s[..n]) && s[n] in d
    ensures Dedup(s[..n + 1]) == d
  {
    var t := s[..n + 1];
    assert t[..|t| - 1] == s[..n];
  }

  /** A new value is appended. */
  lemma AcceptStep(s: seq<nat>, n: nat, d: seq<nat>)
    requires n < |s| && d == Dedup(s[..n]) && s[n] !in d
    ensures Dedup(s[..n + 1]) == d + [s[n]]
  {
    var t := s[..n + 1];
    assert t[..|t| - 1] == s[..n];
  }

  /** While fewer distinct values than the whole stream holds have been
      seen, some draw is left. */
  lemma DrawsLeft(values: seq<nat>, pos: nat)
    requires pos <= |values| && |Dedup(values[..pos])| < |Dedup(values)|
    ensures pos < |values|
  {
    assert values[..|values|] == values;
  }

  /** The draw and the rejection loop of one iteration: from position `pos`,
      the first draw whose value is not among the seeds used so far
      (`usedSeeds`, the elements of `rv`), and the position after it. */
  method NextUnused(draws: seq<real>, pos: nat, usedSeeds: set<nat>, ghost rv: seq<nat>) returns (repseed: nat, pos': nat)
    requires UnitPrefix(draws) && pos <= |draws|
    requires rv == Dedup(SeedValues(draws)[..pos]) && |rv| < |Dedup(SeedValues(draws))|
    requires forall x :: x in usedSeeds <==> x in rv
    ensures pos < pos' <= |draws| && repseed == SeedValues(draws)[pos' - 1]
    ensures repseed !in usedSeeds
    ensures Dedup(SeedValues(draws)[..pos']) == rv + [repseed]
  {
    ghost var values := SeedValues(draws);
    DrawsLeft(values, pos);
    repseed := SeedDraw(draws[pos]);
    pos' := pos + 1;
    while repseed in usedSeeds
      invariant pos < pos' <= |draws|
      invariant repseed == values[pos' - 1]
      invariant rv == Dedup(values[..pos' - 1])
      decreases |draws| - pos'
    {
      RejectStep(values, pos' - 1, rv);
      DrawsLeft(values, pos');
      repseed := SeedDraw(draws[pos']);
      pos' := pos' + 1;
    }
    AcceptStep(values, pos' - 1, rv);
  }

  /** `make_unique_seeds(initial_seed, nseeds)`, where `draws` is (a long
      enough prefix of) the stream of uniform draws `initial_seed` yields. The
      result is the first `nseeds` distinct seed values of that stream, in order. */
  method MakeUniqueSeeds(draws: seq<real>, nseeds: nat) returns (rv: seq<nat>)
    requires UnitPrefix(draws)
    requires nseeds <= |Dedup(SeedValues(draws))|
    ensures rv == Dedup(SeedValues(draws))[..nseeds]
  {
    var pos := 0;
    rv := [];
    var usedSeeds: set<nat> := {};
    for i := 0 to nseeds
      invariant pos <= |draws|
      invariant rv == Dedup(SeedValues(draws)[..pos])
      invariant |rv| == i
      invariant forall x :: x in usedSeeds <==> x in rv
    {
      var repseed;
      repseed, pos := NextUnused(draws, pos, usedSeeds, rv);
      usedSeeds := usedSeeds + {repseed};
      rv := rv + [repseed];
    }
    DedupPrefix(SeedValues(draws), pos);
  }

  /** What the source promises of the result: exactly `nseeds` values,
      pairwise distinct, each below u64::MAX. */
  lemma UniqueSeedsProperties(draws: seq<real>, nseeds: nat)
    requires UnitPrefix(draws)
    requires nseeds <= |Dedup(SeedValues(draws))|
    ensures var rv := Dedup(SeedValues(draws))[..nseeds];
      && |rv| == nseeds
      && (forall i, j :: 0 <= i < j < nseeds ==> rv[i] != rv[j])
      && (forall i :: 0 <= i < nseeds ==> rv[i] < U64_MAX)
  {
    var values := SeedValues(draws);
    DedupDistinct(values);
    DedupElements(values);
    forall i | 0 <= i < nseeds
      ensures Dedup(values)[i] < U64_MAX
    {
      assert Dedup(values)[i] in values;
    }
  }
}
