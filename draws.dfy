/** The random draws the engine makes through R's generator (`rexp`, `runif`,
    `rpois` and the ITL's outcome), modelled as a fixed stream of values read
    at an advancing position, so that every step is a deterministic function
    of the stream. */
module Draws {

  /** A source of draws. `expAt(p)` is a unit-rate exponential variate,
      `unifAt(p)` a uniform variate in (0, 1), `countAt(p, rate, tau)` a count
      with Poisson mean `rate * tau`, and `implicitAt(p, x, tau)` the state the
      implicit leap reaches from `x` over `tau`; `pos` is the next position. */
  class Rng {
    const expAt: nat -> real
    const unifAt: nat -> real
    const countAt: (nat, real, real) -> nat
    const implicitAt: (nat, seq<int>, real) -> seq<int>
    var pos: nat

    /** The ranges the source's samplers guarantee. */
    ghost predicate Valid() {
      && (forall p: nat :: expAt(p) >= 0.0)
      && (forall p: nat :: 0.0 < unifAt(p) < 1.0)
      && (forall p: nat, y: seq<int>, tau: real :: |implicitAt(p, y, tau)| == |y|)
    }

    constructor (expAt: nat -> real, unifAt: nat -> real, countAt: (nat, real, real) -> nat,
                 implicitAt: (nat, seq<int>, real) -> seq<int>)
      ensures this.expAt == expAt && this.unifAt == unifAt
      ensures this.countAt == countAt && this.implicitAt == implicitAt
      ensures pos == 0
    {
      this.expAt := expAt;
      this.unifAt := unifAt;
      this.countAt := countAt;
      this.implicitAt := implicitAt;
      pos := 0;
    }

    /** `rexp(1/rate)`: an exponential waiting time with the given rate. */
    method Exp(rate: real) returns (w: real)
      requires Valid() && rate > 0.0
      modifies this
      ensures Valid() && pos == old(pos) + 1
      ensures w == expAt(old(pos)) / rate && w >= 0.0
    {
      w := expAt(pos) / rate;
      pos := pos + 1;
    }

    /** `runif(0, 1)`. */
    method Unif() returns (u: real)
      requires Valid()
      modifies this
      ensures Valid() && pos == old(pos) + 1
      ensures u == unifAt(old(pos)) && 0.0 < u < 1.0
    {
      u := unifAt(pos);
      pos := pos + 1;
    }

    /** `rpois(rate * tau)` (with the source's normal approximation for large means
        folded into the stream). */
    method Count(rate: real, tau: real) returns (k: nat)
      modifies this
      ensures pos == old(pos) + 1 && k == countAt(old(pos), rate, tau)
    {
      k := countAt(pos, rate, tau);
      pos := pos + 1;
    }

    /** The rounded outcome of the implicit leap from `y` over `tau`. */
    method ImplicitOutcome(y: seq<int>, tau: real) returns (z: seq<int>)
      requires Valid()
      modifies this
      ensures Valid() && pos == old(pos) + 1
      ensures z == implicitAt(old(pos), y, tau) && |z| == |y|
    {
      z := implicitAt(pos, y, tau);
      pos := pos + 1;
    }
  }
}
