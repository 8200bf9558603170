/** Shared vocabulary of the adaptive tau-leaping engine: transition
    categories, step kinds, stoichiometry entries, extended reals, time points,
    the engine's error conditions and its tuning parameters. */
module Types {

  /** The category of one transition (ETransCat). Only `Normal`,
      `Deterministic` and `Halting` are ever stored per transition; `Critical`
      names the dynamic list that is rebuilt every step. */
  datatype Cat = Normal | Critical | Deterministic | Halting

  /** The kind of the previous controller step (EStepType). */
  datatype StepType = Exact | Explicit | Implicit

  /** Index of a step kind into the per-kind exact-burst counts. */
  function StepIndex(s: StepType): (k: nat)
    ensures k < 3
    ensures s == Exact <==> k == 0
    ensures s == Implicit <==> k == 2
  {
    match s
    case Exact => 0
    case Explicit => 1
    case Implicit => 2
  }

  /** One entry of a transition's sparse change list (SChange): firing the
      transition adds `mag` to state variable `state`. */
  datatype Change = Change(state: nat, mag: int)

  /** Every state index of a change list is below `n`. */
  predicate InBounds(cs: seq<Change>, n: nat) {
    forall i :: 0 <= i < |cs| ==> cs[i].state < n
  }

  /** Every change list of a transition table refers to an existing state variable. */
  predicate ValidTable(nu: seq<seq<Change>>, n: nat) {
    forall j :: 0 <= j < |nu| ==> InBounds(nu[j], n)
  }

  /** Every element of an index list is below `n`. */
  predicate IndicesBelow(js: seq<nat>, n: nat) {
    forall k :: 0 <= k < |js| ==> js[k] < n
  }

  /** A double that may be +infinity (the source's tau candidates and its
      default `maxtau`). */
  datatype ExtReal = Fin(v: real) | Inf

  predicate Less(a: ExtReal, b: ExtReal) {
    match (a, b)
    case (Fin(x), Fin(y)) => x < y
    case (Fin(_), Inf) => true
    case (Inf, _) => false
  }

  predicate AtMost(a: ExtReal, b: ExtReal) {
    !Less(b, a)
  }

  /** Multiplication by a positive finite factor, with inf * c == inf. */
  function Scale(a: ExtReal, c: real): (r: ExtReal)
    requires c > 0.0
    ensures r.Inf? <==> a.Inf?
  {
    match a
    case Fin(x) => Fin(x * c)
    case Inf => Inf
  }

  function MinExt(a: ExtReal, b: ExtReal): (r: ExtReal)
    ensures AtMost(r, a) && AtMost(r, b)
    ensures r == a || r == b
  {
    if Less(b, a) then b else a
  }

  /** One recorded point of the trajectory (STimePoint). */
  datatype TimePoint = TimePoint(t: real, x: seq<int>)

  /** The engine's error conditions, one per throwError site that the model keeps. */
  datatype Error =
    | InvalidTransitionMatrix
    | NonNumericTransition(j: nat)
    | UnnamedChange
    | UnknownStateVariable(name: string)
    | FlagVectorTooLong
    | FlagIndexOutOfRange(w: int)
    | AllDeterministic
    | NegativeInitialValue(i: nat)
    | InvalidParameter(name: string)
    | NegativeVariable(i: nat)
    | RateCountMismatch(count: nat)
    | NegativeRate(j: nat)
    | TauNotPositive
    | NegativeAfterCritical(state: nat, j: nat)

  datatype Option<T> = None | Some(value: T)

  datatype Result<T> = Ok(value: T) | Err(error: Error)

  /** The tuning parameters of the algorithm. Only `epsilon`, `delta`,
      `maxTau`, `extraChecks` and `verbose` can be changed after construction. */
  datatype Params = Params(
    epsilon: real,
    delta: real,
    maxTau: ExtReal,
    extraChecks: bool,
    verbose: int,
    nCritical: nat,
    nStiff: real,
    exactThreshold: real,
    numExactSteps: seq<nat>,
    itlConvergenceTol: real,
    maxSteps: nat)

  /** The largest `unsigned int`, the start value of the remaining-firings minimum. */
  const UINT_MAX: int := 0xFFFF_FFFF

  /** The defaults set by the constructor. */
  function DefaultParams(): (p: Params)
    ensures ParamsValid(p)
    ensures p.maxTau.Inf? && p.maxSteps == 0 && p.extraChecks
    ensures p.numExactSteps == [100, 100, 10]
  {
    Params(
      epsilon := 0.05,
      delta := 0.05,
      maxTau := Inf,
      extraChecks := true,
      verbose := 0,
      nCritical := 10,
      nStiff := 100.0,
      exactThreshold := 10.0,
      numExactSteps := [100, 100, 10],
      itlConvergenceTol := 0.01,
      maxSteps := 0)
  }

  /** What the controller relies on: positive stiffness ratio and exact-switch
      threshold, a critical bound that fits an unsigned int, three positive
      burst counts. */
  predicate ParamsValid(p: Params) {
    && p.nCritical <= UINT_MAX
    && p.nStiff > 0.0
    && p.exactThreshold > 0.0
    && |p.numExactSteps| == 3
    && (forall k :: 0 <= k < 3 ==> p.numExactSteps[k] > 0)
  }
}
