/** The random-number capability, as the simulations consume it.

    A `StdRng` seeded from one 64-bit seed produces a fixed sequence of draws.
    The model does not implement the generator or its distributions: it is
    given, for every draw position k, the value that draw takes when sampled
    as a uniform double in [0, 1) (`unit(k)`) and when sampled from the
    exponential distribution (`exponential(k)`). Each sampling call consumes
    one position, in call order, so the whole run is a function of the stream. */
module Random {

  datatype Stream = Stream(unit: nat -> real, exponential: nat -> real)

  /** Sum of a finite sequence of lengths. */
  function Sum(w: seq<real>): real
  {
    if w == [] then 0.0 else w[0] + Sum(w[1..])
  }

  /** The draws at positions from, from + 1, ..., to - 1. */
  function Window(f: nat -> real, from: nat, to: nat): (w: seq<real>)
    requires from <= to
    ensures |w| == to - from
    ensures forall i :: 0 <= i < |w| ==> w[i] == f(from + i)
  {
    seq(to - from, i requires 0 <= i < to - from => f(from + i))
  }

  /** Some window of exponential draws starting at `from` adds up to at least `bound`. */
  ghost predicate Reaches(f: nat -> real, from: nat, bound: real)
  {
    exists to: nat :: from <= to && bound <= Sum(Window(f, from, to))
  }

  /** Every uniform draw lies in [0, 1). */
  ghost predicate UnitDraws(unit: nat -> real)
  {
    forall k :: 0.0 <= unit(k) < 1.0
  }

  /** What the distributions guarantee: uniform doubles lie in [0, 1),
      exponential samples are positive, and their partial sums are unbounded
      (the generator never produces a run of ever-shrinking lengths that stays
      below a bound forever; for a real generator this holds with probability 1). */
  ghost predicate ValidStream(s: Stream)
  {
    && UnitDraws(s.unit)
    && (forall k :: 0.0 < s.exponential(k))
    && (forall k, bound :: Reaches(s.exponential, k, bound))
  }

  /** `Uniform::new(0, n).sample(rng)`, seen through the uniform double `u` it consumes. */
  function PickFrom(u: real, n: nat): (k: nat)
    requires 0.0 <= u < 1.0 && 0 < n
    ensures k < n
  {
    var x := u * n as real;
    assert 0.0 <= x by { assert 0.0 <= u && 0.0 <= n as real; }
    assert x < n as real by { assert u * n as real < 1.0 * n as real; }
    x.Floor
  }

  /** A position by which the exponential draws from `from` have added up to `bound`. */
  lemma StopFor(s: Stream, from: nat, bound: real) returns (stop: nat)
    requires ValidStream(s)
    ensures from <= stop && bound <= Sum(Window(s.exponential, from, stop))
  {
    assert Reaches(s.exponential, from, bound);
    stop :| from <= stop && bound <= Sum(Window(s.exponential, from, stop));
  }

  lemma SumAppend(w: seq<real>, x: real)
    ensures Sum(w + [x]) == Sum(w) + x
  {
    if w == [] {
      assert w + [x] == [x];
    } else {
      assert (w + [x])[1..] == w[1..] + [x];
      SumAppend(w[1..], x);
    }
  }

  lemma WindowExtend(f: nat -> real, from: nat, to: nat)
    requires from <= to
    ensures Window(f, from, to + 1) == Window(f, from, to) + [f(to)]
  {
  }

  /** `StdRng`: a stream and the position of the next draw. */
  class Rng {
    const stream: Stream
    var pos: nat

    /** `StdRng::seed_from_u64(seed)`: `stream` is what that seed yields. */
    constructor (stream: Stream)
      ensures this.stream == stream && pos == 0
    {
      this.stream := stream;
      pos := 0;
    }

    /** `rng.gen::<f64>()` */
    method Gen() returns (u: real)
      modifies this
      ensures pos == old(pos) + 1
      ensures u == stream.unit(old(pos))
    {
      u := stream.unit(pos);
      pos := pos + 1;
    }

    /** `rng.sample(Uniform::new(0, n))` */
    method Sample(n: nat) returns (k: nat)
      requires 0 < n && UnitDraws(stream.unit)
      modifies this
      ensures pos == old(pos) + 1
      ensures k == PickFrom(stream.unit(old(pos)), n) && k < n
    {
      k := PickFrom(stream.unit(pos), n);
      pos := pos + 1;
    }

    /** `rng.sample(Exp::new(rate))` */
    method SampleExp() returns (x: real)
      modifies this
      ensures pos == old(pos) + 1
      ensures x == stream.exponential(old(pos))
    {
      x := stream.exponential(pos);
      pos := pos + 1;
    }
  }
}
