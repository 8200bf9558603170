/** The decisions x_SingleStepATL takes from the candidate taus
    (adaptivetau.cpp:1174-1276): implicit or explicit mode, the capped trial
    tau, the exact fallback, the sub-step kind and its tau, whether a critical
    transition fires, and the halving of a trial tau that was too big. */
module Controller {
  import opened Types

  /** The mode and trial tau: implicit, with `tauIm`, exactly when
      `tauEx * Nstiff < tauIm`; otherwise explicit, with `tauEx`. */
  function ChooseMode(tauEx: ExtReal, tauIm: ExtReal, nStiff: real): (r: (StepType, ExtReal))
    requires nStiff > 0.0
    ensures r.0 != Exact
    ensures r.0 == Implicit <==> Less(Scale(tauEx, nStiff), tauIm)
    ensures r.1 == if r.0 == Implicit then tauIm else tauEx
  {
    if Less(Scale(tauEx, nStiff), tauIm) then (Implicit, tauIm) else (Explicit, tauEx)
  }

  /** With a stiffness ratio of at least 1 and a nonnegative explicit tau, the
      mode choice never picks a trial tau shorter than the explicit one, and the implicit tau it picks is more
      than `Nstiff` times the explicit one. */
  lemma ModeNeverShortens(tauEx: ExtReal, tauIm: ExtReal, nStiff: real)
    requires nStiff >= 1.0 && (tauEx.Fin? ==> tauEx.v >= 0.0)
    ensures AtMost(tauEx, ChooseMode(tauEx, tauIm, nStiff).1)
    ensures ChooseMode(tauEx, tauIm, nStiff).0 == Implicit ==> Less(Scale(tauEx, nStiff), ChooseMode(tauEx, tauIm, nStiff).1)
  {
    if Less(Scale(tauEx, nStiff), tauIm) {
      match tauEx
      case Fin(v) =>
        assert v <= v * nStiff;
      case Inf =>
    }
  }

  /** The trial tau after capping: first at the time left, `tf - t`; then, if
      it still exceeds `maxtau`, at the user's max-tau value when there is a
      max-tau function (without applying `maxtau` itself), else at `maxtau`. */
  function CapTau(tau: ExtReal, remaining: real, maxTau: ExtReal, user: Option<real>): (r: real)
    ensures r <= remaining && AtMost(Fin(r), tau)
    ensures user.None? ==> AtMost(Fin(r), maxTau)
    ensures !Less(maxTau, Fin(Min(remaining, tau))) ==> r == Min(remaining, tau)
    ensures user.Some? && Less(maxTau, Fin(Min(remaining, tau))) ==> r == Min(Min(remaining, tau), Fin(user.value))
  {
    var t1 := Min(remaining, tau);
    if Less(maxTau, Fin(t1)) then
      match user
      case Some(u) => if u < t1 then u else t1
      case None => maxTau.v
    else t1
  }

  /** The smaller of a real and an extended real. */
  function Min(a: real, b: ExtReal): (r: real)
    ensures r <= a && AtMost(Fin(r), b)
    ensures r == a || Fin(r) == b
  {
    if Less(b, Fin(a)) then b.v else a
  }

  /** The capped tau is positive whenever the time left, the candidate, `maxtau`
      and the user's value are (so the source's `tau1 > 0` check can only fail
      on a nonpositive `maxtau` or max-tau value). */
  lemma CapTauPositive(tau: ExtReal, remaining: real, maxTau: ExtReal, user: Option<real>)
    requires remaining > 0.0 && Less(Fin(0.0), tau) && Less(Fin(0.0), maxTau)
    requires user.Some? ==> user.value > 0.0
    ensures CapTau(tau, remaining, maxTau, user) > 0.0
  {
  }

  /** A max-tau function replaces `maxtau`: the capped tau may exceed `maxtau`. */
  lemma UserMaxTauOverridesParameter()
    ensures CapTau(Inf, 10.0, Fin(1.0), Some(3.0)) == 3.0
    ensures CapTau(Inf, 10.0, Fin(1.0), None) == 1.0
  {
  }

  /** The sub-step is explicit in explicit mode, and in implicit mode when a
      critical transition is due before the trial tau but not after `tauEx`. */
  predicate ExplicitSubStep(stepType: StepType, tau1: real, tau2: ExtReal, tauEx: ExtReal) {
    stepType == Explicit || (Less(tau2, Fin(tau1)) && stepType == Implicit && AtMost(tau2, tauEx))
  }

  /** A critical transition fires exactly when its waiting time `tau2` is
      below the trial tau. */
  predicate FiresCritical(tau1: real, tau2: ExtReal) {
    Less(tau2, Fin(tau1))
  }

  /** The explicit leap's tau, `min(tau1, tau2)`. */
  function LeapTau(tau1: real, tau2: ExtReal): (r: real)
    ensures r <= tau1
  {
    Min(tau1, tau2)
  }

  /** An explicit leap with a critical firing ends exactly at the firing's
      time; without one it covers the whole trial tau. An implicit sub-step
      with a firing only happens when the firing is due after `tauEx`. */
  lemma SubStepTiming(stepType: StepType, tau1: real, tau2: ExtReal, tauEx: ExtReal)
    requires stepType != Exact
    ensures FiresCritical(tau1, tau2) ==> tau2.Fin? && LeapTau(tau1, tau2) == tau2.v < tau1
    ensures !FiresCritical(tau1, tau2) ==> LeapTau(tau1, tau2) == tau1
    ensures !ExplicitSubStep(stepType, tau1, tau2, tauEx) ==>
      stepType == Implicit && (FiresCritical(tau1, tau2) ==> Less(tauEx, tau2))
  {
  }

  /** Halving a trial tau that is at least the exact-step threshold `thr`
      lowers the floor of its ratio to `thr`: the halve-and-retry loop reaches
      the threshold after finitely many halvings. */
  lemma HalvingDecreases(tau: real, thr: real)
    requires thr > 0.0 && tau >= thr
    ensures 0 <= ((tau / 2.0) / thr).Floor < (tau / thr).Floor
  {
    var y := tau / thr;
    assert y >= 1.0 by {
      assert tau == y * thr;
    }
    assert (tau / 2.0) / thr == y / 2.0;
    if y < 2.0 {
      assert (y / 2.0).Floor == 0;
    } else {
      assert (y / 2.0).Floor as real <= y / 2.0 <= y - 1.0 < y.Floor as real;
    }
  }

  /** The trial tau after `k` passes of the retry loop, each halving it
      (adaptivetau.cpp:1271); halving keeps a positive tau positive and never
      raises it. */
  function Halved(tau: real, k: nat): (r: real)
    ensures tau > 0.0 ==> 0.0 < r <= tau
  {
    if k == 0 then tau else Halved(tau, k - 1) / 2.0
  }

  /** Halving after one more pass is halving the halved tau. */
  lemma {:induction false} HalvedOnce(tau: real, k: nat)
    ensures Halved(tau, k + 1) == Halved(tau / 2.0, k)
  {
    if k > 0 {
      HalvedOnce(tau, k - 1);
    }
  }

  /** How many halvings bring a trial tau below a positive threshold `thr`:
      the retry loop makes at most that many passes after the first. */
  function HalvingsBelow(tau: real, thr: real): (n: nat)
    requires thr > 0.0
    ensures Halved(tau, n) < thr
    decreases if tau < thr then 0 else (tau / thr).Floor
  {
    if tau < thr then 0
    else
      HalvingDecreases(tau, thr);
      var m := HalvingsBelow(tau / 2.0, thr);
      HalvedOnce(tau, m);
      m + 1
  }

  /** The outer loop's test (adaptivetau.cpp:312-314, 333-335): time is left,
      the step cap (0 meaning none) is not reached and the last transition
      did not halt the run. */
  predicate RunContinues(t: real, tF: real, maxSteps: nat, steps: nat, halted: bool) {
    t < tF && (maxSteps == 0 || steps < maxSteps) && !halted
  }
}
