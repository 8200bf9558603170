/** The simulation engine CStochasticEqns (adaptivetau.cpp:83-1367): a state
    buffer updated in place by exact (Gillespie) steps and by adaptive tau
    leaps, the per-step critical/normal partition, the controller's
    halve-and-retry loop, the two run loops that record the trajectory, and
    the two entry points. */
module Simulator {
  import opened Types
  import opened Stoichiometry
  import opened TransitionTable
  import opened Partition
  import opened Construction
  import opened Controller
  import opened Draws
  import opened Parameters
  import opened Output

  /** The callbacks into user code, each a function of what the source passes
      it: the rate function of state and time, the explicit and implicit tau
      candidates of the parameters in effect (their `epsilon` and `delta`),
      state, rates and normal list, the optional max-tau function, and the
      interrupt poll of the step count. */
  datatype Env = Env(
    rateFn: (seq<int>, real) -> seq<real>,
    tauExFn: (Params, seq<int>, seq<real>, seq<nat>) -> ExtReal,
    tauImFn: (Params, seq<int>, seq<real>, seq<nat>) -> ExtReal,
    maxTauFn: Option<(seq<int>, real) -> real>,
    interrupt: nat -> bool)

  /** How a run loop ended, with the number of steps it completed: its
      condition became false, the user interrupted it (the early exit the
      entry points turn into a warning), a step failed with an error, or the
      model's step bound ran out. */
  datatype RunEnd =
    | Finished(steps: nat)
    | Interrupted(steps: nat)
    | Failed(steps: nat, error: Error)
    | OutOfFuel(steps: nat)

  /** A rate vector the engine accepts: one nonnegative rate per transition. */
  predicate RatesAcceptable(rs: seq<real>, m: nat) {
    |rs| == m && forall j :: 0 <= j < |rs| ==> rs[j] >= 0.0
  }

  /** The recorded times never decrease. */
  predicate Nondecreasing(ts: seq<TimePoint>) {
    forall k1, k2 :: 0 <= k1 < k2 < |ts| ==> ts[k1].t <= ts[k2].t
  }

  /** Every recorded point is at time `t` or earlier and has `n` variables. */
  predicate RecordedBy(ts: seq<TimePoint>, t: real, n: nat) {
    forall k :: 0 <= k < |ts| ==> ts[k].t <= t && |ts[k].x| == n
  }

  /** Recording a point at a time no earlier than the current one keeps the
      record bounded by the new time and, if it was, in time order. */
  lemma RecordPoint(ts: seq<TimePoint>, t: real, t': real, xs: seq<int>, n: nat)
    requires RecordedBy(ts, t, n) && t <= t' && |xs| == n
    ensures RecordedBy(ts + [TimePoint(t', xs)], t', n)
    ensures Nondecreasing(ts) ==> Nondecreasing(ts + [TimePoint(t', xs)])
  {
  }

  /** The initial point at time 0 can be recorded at any nonnegative time;
      it starts a record in time order. */
  lemma RecordStart(ts: seq<TimePoint>, t: real, xs: seq<int>, n: nat)
    requires RecordedBy(ts, t, n) && 0.0 <= t && |xs| == n
    ensures RecordedBy(ts + [TimePoint(0.0, xs)], t, n)
    ensures ts == [] ==> Nondecreasing(ts + [TimePoint(0.0, xs)])
  {
  }

  /** The record stays bounded as time advances. */
  lemma RecordLater(ts: seq<TimePoint>, t: real, t': real, n: nat)
    requires RecordedBy(ts, t, n) && t <= t'
    ensures RecordedBy(ts, t', n)
  {
  }

  /** Appending a point keeps a prefix of the record. */
  lemma PrefixKept(ts: seq<TimePoint>, p: TimePoint, ts0: seq<TimePoint>)
    requires |ts0| <= |ts| && ts[..|ts0|] == ts0
    ensures (ts + [p])[..|ts0|] == ts0
  {
    assert (ts + [p])[..|ts0|] == ts[..|ts0|];
  }

  /** Recording a point after a run of points records them all in order. */
  lemma RecordAfter(ts: seq<TimePoint>, recs: seq<TimePoint>, p: TimePoint)
    ensures ts + (recs + [p]) == ts + recs + [p]
  {
  }

  /** The firing counts the explicit leap draws, one per normal transition in
      list order, from the stream position `pos` on, with mean `rate * tau`. */
  function DrawnCounts(countAt: (nat, real, real) -> nat, pos: nat, rates: seq<real>, js: seq<nat>, tau: real): (ks: seq<nat>)
    requires IndicesBelow(js, |rates|)
    ensures |ks| == |js|
  {
    if js == [] then []
    else
      var n := |js| - 1;
      DrawnCounts(countAt, pos, rates, js[..n], tau) + [countAt(pos + n, rates[js[n]], tau)]
  }

  /** The critical waiting time `tau2`: infinite at a zero critical rate,
      otherwise the exponential draw at `pos` for that rate. */
  function CritWait(expAt: nat -> real, pos: nat, critRate: real): ExtReal {
    if critRate == 0.0 then Inf else Fin(expAt(pos) / critRate)
  }

  // ---------------------------------------------------------------------
  // Loops over the state buffer and the rates

  /** Adds `k * mag` to the state for each entry of `cs`, in list order. */
  method ApplyInPlace(x: array<int>, cs: seq<Change>, k: int)
    requires InBounds(cs, x.Length)
    modifies x
    ensures x[..] == ApplyChanges(old(x[..]), cs, k)
  {
    var i := 0;
    while i < |cs|
      invariant 0 <= i <= |cs|
      invariant x[..] == ApplyChanges(old(x[..]), cs[..i], k)
    {
      assert cs[..i + 1][..i] == cs[..i];
      x[cs[i].state] := x[cs[i].state] + k * cs[i].mag;
      i := i + 1;
    }
    assert cs[..|cs|] == cs;
  }

  /** The negativity check after a leap: if some variable is negative, the
      snapshot `orig` is copied back and "tau too big" is signalled. */
  method CheckOrRestore(x: array<int>, orig: seq<int>) returns (tooBig: bool)
    requires |orig| == x.Length
    modifies x
    ensures tooBig <==> !Nonneg(old(x[..]))
    ensures tooBig ==> x[..] == orig
    ensures !tooBig ==> x[..] == old(x[..])
  {
    var i := 0;
    while i < x.Length
      invariant 0 <= i <= x.Length
      invariant forall i' :: 0 <= i' < i ==> x[i'] >= 0
    {
      if x[i] < 0 {
        forall i' | 0 <= i' < x.Length {
          x[i'] := orig[i'];
        }
        assert x[..] == orig;
        return true;
      }
      i := i + 1;
    }
    return false;
  }

  /** Leaping over one more transition of the list fires it the next drawn
      number of times. */
  lemma LeapStep(xs: seq<int>, nu: seq<seq<Change>>, countAt: (nat, real, real) -> nat, pos: nat, rates: seq<real>,
                 js: seq<nat>, p: nat, tau: real)
    requires ValidTable(nu, |xs|) && IndicesBelow(js, |nu|) && |rates| == |nu| && p < |js|
    ensures ApplyLeap(xs, nu, js[..p + 1], DrawnCounts(countAt, pos, rates, js[..p + 1], tau))
         == ApplyChanges(ApplyLeap(xs, nu, js[..p], DrawnCounts(countAt, pos, rates, js[..p], tau)),
                         nu[js[p]], countAt(pos + p, rates[js[p]], tau))
  {
    var ks := DrawnCounts(countAt, pos, rates, js[..p + 1], tau);
    var ks0 := DrawnCounts(countAt, pos, rates, js[..p], tau);
    var k := countAt(pos + p, rates[js[p]], tau);
    var js1 := js[..p + 1];
    assert ks == DrawnCounts(countAt, pos, rates, js1[..p], tau) + [countAt(pos + p, rates[js1[p]], tau)];
    assert js1[..p] == js[..p] && js1[p] == js[p];
    assert ks == ks0 + [k];
    assert ks[..p] == ks0 && ks[p] == k;
    assert ApplyLeap(xs, nu, js[..p + 1], ks) == ApplyChanges(ApplyLeap(xs, nu, js[..p], ks0), nu[js[p]], k);
  }

  /** One transition of the explicit leap (adaptivetau.cpp:1071-1086): draw
      its count and, when it is positive, apply its changes that many times. */
  method FireDrawn(x: array<int>, cs: seq<Change>, rate: real, tau: real, rng: Rng)
    requires InBounds(cs, x.Length)
    modifies x, rng
    ensures rng.pos == old(rng.pos) + 1
    ensures x[..] == ApplyChanges(old(x[..]), cs, rng.countAt(old(rng.pos), rate, tau))
  {
    var k := rng.Count(rate, tau);
    if k > 0 {
      ApplyInPlace(x, cs, k);
    } else {
      ApplyZero(x[..], cs);
    }
  }

  /** The firing loop of the explicit leap (adaptivetau.cpp:1069-1087): every
      transition of `js`, in list order, fires the number of times drawn for
      it (a zero count changes nothing and is skipped). */
  method LeapInPlace(x: array<int>, nu: seq<seq<Change>>, js: seq<nat>, rates: seq<real>, tau: real, rng: Rng)
    requires ValidTable(nu, x.Length) && IndicesBelow(js, |nu|) && |rates| == |nu|
    modifies x, rng
    ensures rng.pos == old(rng.pos) + |js|
    ensures x[..] == ApplyLeap(old(x[..]), nu, js, DrawnCounts(rng.countAt, old(rng.pos), rates, js, tau))
  {
    ghost var orig := x[..];
    ghost var pos0 := rng.pos;
    var p := 0;
    while p < |js|
      invariant 0 <= p <= |js|
      invariant rng.pos == pos0 + p
      invariant x[..] == ApplyLeap(orig, nu, js[..p], DrawnCounts(rng.countAt, pos0, rates, js[..p], tau))
    {
      LeapStep(orig, nu, rng.countAt, pos0, rates, js, p, tau);
      FireDrawn(x, nu[js[p]], rates[js[p]], tau, rng);
      p := p + 1;
    }
    assert js[..|js|] == js;
  }

  /** The critical firing (adaptivetau.cpp:1246-1254): the entries of
      transition `j` are added one by one, and the run fails as soon as the
      variable an entry changed is negative. */
  method FireInPlace(x: array<int>, cs: seq<Change>, j: nat) returns (err: Option<Error>)
    requires InBounds(cs, x.Length)
    modifies x
    ensures err.None? <==> StepwiseNonneg(old(x[..]), cs)
    ensures err.None? ==> x[..] == ApplyChanges(old(x[..]), cs, 1)
    ensures err.Some? ==> exists p: nat :: (1 <= p <= |cs| && x[..] == ApplyChanges(old(x[..]), cs[..p], 1)
      && err.value == NegativeAfterCritical(cs[p - 1].state, j) && x[cs[p - 1].state] < 0)
  {
    ghost var orig := x[..];
    var i := 0;
    while i < |cs|
      invariant 0 <= i <= |cs|
      invariant x[..] == ApplyChanges(orig, cs[..i], 1)
      invariant forall p :: 1 <= p <= i ==> ApplyChanges(orig, cs[..p], 1)[cs[p - 1].state] >= 0
    {
      assert cs[..i + 1][..i] == cs[..i];
      x[cs[i].state] := x[cs[i].state] + cs[i].mag;
      assert x[..] == ApplyChanges(orig, cs[..i + 1], 1);
      if x[cs[i].state] < 0 {
        return Some(NegativeAfterCritical(cs[i].state, j));
      }
      i := i + 1;
    }
    assert cs[..|cs|] == cs;
    return None;
  }

  /** `minTimes` of one transition (adaptivetau.cpp:1138-1145): the least
      remaining-firings count over the consuming entries, read off the state
      buffer. */
  method MinTimesOf(x: array<int>, cs: seq<Change>) returns (m: int)
    requires InBounds(cs, x.Length)
    ensures m == MinTimes(x[..], cs)
  {
    m := UINT_MAX;
    var i := 0;
    while i < |cs|
      invariant 0 <= i <= |cs|
      invariant m == MinTimes(x[..], cs[..i])
    {
      assert cs[..i + 1][..i] == cs[..i];
      var c := cs[i];
      if c.mag < 0 && x[c.state] / (0 - c.mag) < m {
        m := x[c.state] / (0 - c.mag);
      }
      i := i + 1;
    }
    assert cs[..|cs|] == cs;
  }

  /** The per-step partition: `normal` lists the statically normal
      transitions that are not critical in state `xs`, and `critical` the
      halting transitions followed by the critical normal ones, each in
      transition order. */
  ghost predicate Classification(xs: seq<int>, nu: seq<seq<Change>>, cats: seq<Cat>, nc: nat, haltList: seq<nat>,
                                 normal: seq<nat>, critical: seq<nat>)
    requires ValidTable(nu, |xs|) && |cats| == |nu|
  {
    && normal == DynList(xs, nu, cats, nc, false, |nu|)
    && critical == haltList + DynList(xs, nu, cats, nc, true, |nu|)
  }

  /** The sum of `rates[j]` over an index list, accumulated in list order
      (adaptivetau.cpp:1121-1130). */
  method SumOver(rates: seq<real>, js: seq<nat>) returns (s: real)
    requires IndicesBelow(js, |rates|)
    ensures s == SumRates(rates, js)
  {
    s := 0.0;
    var p := 0;
    while p < |js|
      invariant 0 <= p <= |js|
      invariant s == SumRates(rates, js[..p])
    {
      assert js[..p + 1][..p] == js[..p];
      s := s + rates[js[p]];
      p := p + 1;
    }
    assert js[..|js|] == js;
  }

  /** After the first `j` transitions: `crit` is the halting list followed
      by the critical normal transitions below `j`, and `cr` is its summed rate. */
  ghost predicate CritSoFar(xs: seq<int>, nu: seq<seq<Change>>, cats: seq<Cat>, nc: nat, rs: seq<real>,
                            haltList: seq<nat>, j: nat, crit: seq<nat>, cr: real)
    requires ValidTable(nu, |xs|) && |cats| == |nu| && |rs| == |nu| && j <= |nu|
  {
    && crit == haltList + DynList(xs, nu, cats, nc, true, j)
    && IndicesBelow(crit, |rs|)
    && cr == SumRates(rs, crit)
  }

  /** After the first `j` transitions: `norm` is the non-critical normal
      transitions below `j` and `ncr` the summed rate of the deterministic
      list and of `norm`. */
  ghost predicate NormSoFar(xs: seq<int>, nu: seq<seq<Change>>, cats: seq<Cat>, nc: nat, rs: seq<real>,
                            detList: seq<nat>, j: nat, norm: seq<nat>, ncr: real)
    requires ValidTable(nu, |xs|) && |cats| == |nu| && |rs| == |nu| && j <= |nu|
    requires IndicesBelow(detList, |rs|)
  {
    && norm == DynList(xs, nu, cats, nc, false, j)
    && IndicesBelow(norm, |rs|)
    && ncr == SumRates(rs, detList) + SumRates(rs, norm)
  }

  /** Transition `j` extends the critical list exactly when it is normal and critical. */
  lemma CritAdvance(xs: seq<int>, nu: seq<seq<Change>>, cats: seq<Cat>, nc: nat, rs: seq<real>,
                    haltList: seq<nat>, j: nat, crit: seq<nat>, cr: real)
    requires ValidTable(nu, |xs|) && |cats| == |nu| && |rs| == |nu| && j < |nu|
    requires CritSoFar(xs, nu, cats, nc, rs, haltList, j, crit, cr)
    ensures cats[j] == Normal && IsCritical(xs, nu[j], nc) ==>
      CritSoFar(xs, nu, cats, nc, rs, haltList, j + 1, crit + [j], cr + rs[j])
    ensures !(cats[j] == Normal && IsCritical(xs, nu[j], nc)) ==>
      CritSoFar(xs, nu, cats, nc, rs, haltList, j + 1, crit, cr)
  {
    var crit1 := crit + [j];
    assert crit1[..|crit1| - 1] == crit;
    assert haltList + (DynList(xs, nu, cats, nc, true, j) + [j]) == crit1;
    forall k | 0 <= k < |crit1| ensures crit1[k] < |rs| {
      if k < |crit| {
        assert crit1[k] == crit[k];
      }
    }
  }

  /** Transition `j` extends the normal list exactly when it is normal and not critical. */
  lemma NormAdvance(xs: seq<int>, nu: seq<seq<Change>>, cats: seq<Cat>, nc: nat, rs: seq<real>,
                    detList: seq<nat>, j: nat, norm: seq<nat>, ncr: real)
    requires ValidTable(nu, |xs|) && |cats| == |nu| && |rs| == |nu| && j < |nu|
    requires IndicesBelow(detList, |rs|)
    requires NormSoFar(xs, nu, cats, nc, rs, detList, j, norm, ncr)
    ensures cats[j] == Normal && !IsCritical(xs, nu[j], nc) ==>
      NormSoFar(xs, nu, cats, nc, rs, detList, j + 1, norm + [j], ncr + rs[j])
    ensures !(cats[j] == Normal && !IsCritical(xs, nu[j], nc)) ==>
      NormSoFar(xs, nu, cats, nc, rs, detList, j + 1, norm, ncr)
  {
    var norm1 := norm + [j];
    assert norm1[..|norm1| - 1] == norm;
    forall k | 0 <= k < |norm1| ensures norm1[k] < |rs| {
      if k < |norm| {
        assert norm1[k] == norm[k];
      }
    }
  }

  /** The loop over the transitions at the head of x_SingleStepATL
      (adaptivetau.cpp:1117-1153): starting from the halting transitions, each
      statically normal transition goes to the critical list when its
      `minTimes` is below `Ncritical` and to the normal list otherwise; the two
      rates accumulate alongside (the non-critical one starting from the
      deterministic transitions). */
  method SplitTransitions(x: array<int>, nu: seq<seq<Change>>, cats: seq<Cat>, nc: nat, rs: seq<real>,
                          detList: seq<nat>, haltList: seq<nat>)
    returns (crit: seq<nat>, norm: seq<nat>, cr: real, ncr: real)
    requires ValidTable(nu, x.Length) && |cats| == |nu| && |rs| == |nu|
    requires IndicesBelow(detList, |nu|) && IndicesBelow(haltList, |nu|)
    ensures norm == DynList(x[..], nu, cats, nc, false, |nu|)
    ensures crit == haltList + DynList(x[..], nu, cats, nc, true, |nu|)
    ensures IndicesBelow(norm, |nu|) && IndicesBelow(crit, |nu|)
    ensures cr == SumRates(rs, crit)
    ensures ncr == SumRates(rs, detList) + SumRates(rs, norm)
  {
    ghost var xs := x[..];
    ncr := SumOver(rs, detList);
    cr := SumOver(rs, haltList);
    crit := haltList;
    norm := [];
    assert haltList + [] == haltList;
    var j := 0;
    while j < |nu|
      invariant 0 <= j <= |nu|
      invariant CritSoFar(xs, nu, cats, nc, rs, haltList, j, crit, cr)
      invariant NormSoFar(xs, nu, cats, nc, rs, detList, j, norm, ncr)
    {
      CritAdvance(xs, nu, cats, nc, rs, haltList, j, crit, cr);
      NormAdvance(xs, nu, cats, nc, rs, detList, j, norm, ncr);
      if cats[j] == Normal {
        var m := MinTimesOf(x, nu[j]);
        if m < nc {
          cr := cr + rs[j];
          crit := crit + [j];
        } else {
          ncr := ncr + rs[j];
          norm := norm + [j];
        }
      }
      j := j + 1;
    }
  }

  /** `stochRate` of x_SingleStepExact (adaptivetau.cpp:766-773): the summed
      rate of the transitions that are not deterministic. */
  method StochasticRate(rates: seq<real>, cats: seq<Cat>) returns (s: real)
    requires |cats| == |rates|
    ensures s == StochRate(rates, cats, |rates|)
  {
    s := 0.0;
    var j := 0;
    while j < |rates|
      invariant 0 <= j <= |rates|
      invariant s == StochRate(rates, cats, j)
    {
      if cats[j] != Deterministic {
        s := s + rates[j];
      }
      j := j + 1;
    }
  }

  /** The roulette of x_SingleStepExact (adaptivetau.cpp:778-788): walk the
      transitions while the running sum of `rate / stochRate` over the
      stochastic ones is below the draw `r`; the last one walked is taken.
      The sum ends at 1, so the source's "logic error" cannot happen. */
  method Roulette(rates: seq<real>, cats: seq<Cat>, s: real, r: real) returns (j: nat)
    requires |cats| == |rates| && s > 0.0 && s == StochRate(rates, cats, |rates|)
    requires 0.0 < r < 1.0
    ensures ExactChoice(rates, cats, s, r, j)
  {
    var d := 0.0;
    var i := 0;
    while i < |rates| && d < r
      invariant 0 <= i <= |rates|
      invariant d == Cum(rates, cats, s, i)
      invariant i > 0 ==> Cum(rates, cats, s, i - 1) < r
    {
      if cats[i] != Deterministic {
        d := d + rates[i] / s;
      }
      i := i + 1;
    }
    if i == |rates| {
      CumReachesOne(rates, cats, s);
    }
    assert i > 0;
    j := i - 1;
  }

  /** The firing branch of x_SingleStepExact (adaptivetau.cpp:777-797): a
      uniform draw, the roulette, and one firing of the chosen transition. */
  method ExactFire(x: array<int>, nu: seq<seq<Change>>, rates: seq<real>, cats: seq<Cat>, s: real, rng: Rng)
    returns (j: nat)
    requires ValidTable(nu, x.Length) && |rates| == |nu| && |cats| == |nu|
    requires s > 0.0 && s == StochRate(rates, cats, |rates|) && rng.Valid()
    modifies x, rng
    ensures rng.Valid() && rng.pos == old(rng.pos) + 1
    ensures ExactChoice(rates, cats, s, rng.unifAt(old(rng.pos)), j)
    ensures x[..] == ApplyChanges(old(x[..]), nu[j], 1)
  {
    var r := rng.Unif();
    j := Roulette(rates, cats, s, r);
    ApplyInPlace(x, nu[j], 1);
  }

  /** What one exact step does (adaptivetau.cpp:762-805), from state `xs`
      at time `t0` with the draws from `pos0` on, to state `ys` at time `t1`
      with the stream at `pos1` and `last` the transition taken (-1 for none):
      with a zero stochastic rate, or a waiting time past `tf`, time jumps to
      `tf` and nothing fires; otherwise time advances by the waiting time and
      the transition the roulette chooses with the next uniform draw fires
      once. */
  ghost predicate ExactOutcome(nu: seq<seq<Change>>, rates: seq<real>, cats: seq<Cat>, rng: Rng, tf: real,
                               xs: seq<int>, t0: real, pos0: nat, ys: seq<int>, t1: real, pos1: nat, last: int)
    requires ValidTable(nu, |xs|) && |rates| == |nu| && |cats| == |nu|
  {
    var s := StochRate(rates, cats, |nu|);
    if s == 0.0 then t1 == tf && ys == xs && last == -1 && pos1 == pos0
    else if rng.expAt(pos0) / s > tf - t0 then t1 == tf && ys == xs && last == -1 && pos1 == pos0 + 1
    else
      && t1 == t0 + rng.expAt(pos0) / s
      && pos1 == pos0 + 2
      && 0 <= last < |nu|
      && ExactChoice(rates, cats, s, rng.unifAt(pos0 + 1), last as nat)
      && ys == ApplyChanges(xs, nu[last], 1)
  }

  /** x_SingleStepExact on the state buffer: returns the new time and the
      transition taken. */
  method ExactMove(x: array<int>, nu: seq<seq<Change>>, rates: seq<real>, cats: seq<Cat>, rng: Rng, t0: real, tf: real)
    returns (t1: real, last: int)
    requires ValidTable(nu, x.Length) && |cats| == |nu| && RatesAcceptable(rates, |nu|) && rng.Valid() && t0 < tf
    modifies x, rng
    ensures rng.Valid() && t0 <= t1 <= tf && -1 <= last < |nu|
    ensures ExactOutcome(nu, rates, cats, rng, tf, old(x[..]), t0, old(rng.pos), x[..], t1, rng.pos, last)
  {
    last := -1;
    var s := StochasticRate(rates, cats);
    StochRateNonneg(rates, cats, |nu|);
    var tau: real;
    if s == 0.0 {
      tau := tf - t0;
    } else {
      tau := rng.Exp(s);
      if tau > tf - t0 {
        tau := tf - t0;
      } else {
        last := ExactFire(x, nu, rates, cats, s, rng);
      }
    }
    t1 := t0 + tau;
  }

  /** The loop of x_PickCritical (adaptivetau.cpp:729-737): walk the critical
      list adding `rate / critRate` until the sum exceeds the draw `r`. The
      sum ends at 1, so the walk never runs off the end of the list. */
  method CritRoulette(rates: seq<real>, crit: seq<nat>, s: real, r: real) returns (p: nat)
    requires IndicesBelow(crit, |rates|) && s > 0.0 && s == SumRates(rates, crit)
    requires 0.0 < r < 1.0
    ensures CritPick(rates, crit, s, r, p)
  {
    var d := 0.0;
    p := 0;
    while p < |crit|
      invariant 0 <= p <= |crit|
      invariant d == CritCum(rates, crit, s, p)
      invariant d <= r
    {
      d := d + rates[crit[p]] / s;
      if d > r {
        return;
      }
      p := p + 1;
    }
    CritCumTotal(rates, crit, s);
    assert false;
  }

  /** The state a leap over `tau` from `xs` reaches before the negativity
      check, with the draws from `pos` on: the explicit leap's firings
      (x_SingleStepETL) or the implicit leap's outcome (x_SingleStepITL). */
  ghost function LeapTarget(nu: seq<seq<Change>>, rates: seq<real>, normal: seq<nat>, rng: Rng,
                            explicit: bool, tau: real, xs: seq<int>, pos: nat): seq<int>
    requires ValidTable(nu, |xs|) && |rates| == |nu| && IndicesBelow(normal, |nu|)
  {
    if explicit then ApplyLeap(xs, nu, normal, DrawnCounts(rng.countAt, pos, rates, normal, tau))
    else rng.implicitAt(pos, xs, tau)
  }

  /** x_SingleStepETL (adaptivetau.cpp:1061-1105) on the state buffer: every
      normal transition, in list order, fires a drawn number of times with
      mean `rate * tau`; if that leaves a variable negative the state is
      restored and the leap reports "tau too big". */
  method ExplicitLeap(x: array<int>, nu: seq<seq<Change>>, rates: seq<real>, normal: seq<nat>, tau: real, rng: Rng)
    returns (tooBig: bool)
    requires ValidTable(nu, x.Length) && |rates| == |nu| && IndicesBelow(normal, |nu|)
    modifies x, rng
    ensures rng.pos == old(rng.pos) + |normal|
    ensures var y := LeapTarget(nu, rates, normal, rng, true, tau, old(x[..]), old(rng.pos));
      && (tooBig <==> !Nonneg(y))
      && x[..] == (if tooBig then old(x[..]) else y)
  {
    var origX := x[..];
    LeapInPlace(x, nu, normal, rates, tau, rng);
    tooBig := CheckOrRestore(x, origX);
  }

  /** x_SingleStepITL (adaptivetau.cpp:812-1055) on the state buffer, with
      its Poisson draws and Newton solve folded into one draw of the rounded
      outcome: a negative outcome restores the state and reports "tau too
      big", otherwise the outcome becomes the state. */
  method ImplicitLeap(x: array<int>, nu: seq<seq<Change>>, rates: seq<real>, normal: seq<nat>, tau: real, rng: Rng)
    returns (tooBig: bool)
    requires ValidTable(nu, x.Length) && |rates| == |nu| && IndicesBelow(normal, |nu|) && rng.Valid()
    modifies x, rng
    ensures rng.Valid() && rng.pos == old(rng.pos) + 1
    ensures var y := LeapTarget(nu, rates, normal, rng, false, tau, old(x[..]), old(rng.pos));
      && (tooBig <==> !Nonneg(y))
      && x[..] == (if tooBig then old(x[..]) else y)
  {
    var origX := x[..];
    var y := rng.ImplicitOutcome(origX, tau);
    forall i | 0 <= i < x.Length {
      x[i] := y[i];
    }
    assert x[..] == y;
    tooBig := CheckOrRestore(x, origX);
  }

  /** The critical waiting time `tau2` (adaptivetau.cpp:1226-1229): an
      exponential draw when the critical rate is positive, else infinity. */
  method DrawWait(rng: Rng, critRate: real) returns (tau2: ExtReal)
    requires rng.Valid() && critRate >= 0.0
    modifies rng
    ensures rng.Valid() && rng.pos == old(rng.pos) + (if critRate == 0.0 then 0 else 1)
    ensures tau2 == CritWait(rng.expAt, old(rng.pos), critRate)
    ensures tau2.Fin? ==> tau2.v >= 0.0
  {
    tau2 := Inf;
    if critRate != 0.0 {
      var w := rng.Exp(critRate);
      tau2 := Fin(w);
    }
  }

  /** The explicit or the implicit leap over `tau` (adaptivetau.cpp:1236-1240). */
  method Leap(x: array<int>, nu: seq<seq<Change>>, rates: seq<real>, normal: seq<nat>, explicit: bool, tau: real,
              rng: Rng)
    returns (tooBig: bool)
    requires ValidTable(nu, x.Length) && |rates| == |nu| && IndicesBelow(normal, |nu|) && rng.Valid()
    modifies x, rng
    ensures rng.Valid() && rng.pos == old(rng.pos) + (if explicit then |normal| else 1)
    ensures var y := LeapTarget(nu, rates, normal, rng, explicit, tau, old(x[..]), old(rng.pos));
      && (tooBig <==> !Nonneg(y))
      && x[..] == (if tooBig then old(x[..]) else y)
  {
    if explicit {
      tooBig := ExplicitLeap(x, nu, rates, normal, tau, rng);
    } else {
      tooBig := ImplicitLeap(x, nu, rates, normal, tau, rng);
    }
  }

  /** x_PickCritical (adaptivetau.cpp:726-739): the critical transition at
      the first position whose running sum of `rate / critRate` exceeds a
      uniform draw. */
  method PickCritical(rates: seq<real>, critical: seq<nat>, critRate: real, rng: Rng) returns (j: nat)
    requires IndicesBelow(critical, |rates|) && critRate > 0.0 && critRate == SumRates(rates, critical)
    requires rng.Valid()
    modifies rng
    ensures rng.Valid() && rng.pos == old(rng.pos) + 1
    ensures exists p: nat :: CritPick(rates, critical, critRate, rng.unifAt(old(rng.pos)), p) && j == critical[p]
  {
    var r := rng.Unif();
    var p := CritRoulette(rates, critical, critRate, r);
    j := critical[p];
  }

  /** The tau a leap covers: `min(tau1, tau2)` for an explicit sub-step,
      `tau1` for an implicit one, with `tau2` the critical waiting time drawn
      at `pos0`. */
  ghost function LeapStepTau(rng: Rng, pos0: nat, critRate: real, stepType: StepType, tau1: real, tauEx: ExtReal): real {
    var tau2 := CritWait(rng.expAt, pos0, critRate);
    if ExplicitSubStep(stepType, tau1, tau2, tauEx) then LeapTau(tau1, tau2) else tau1
  }

  /** The critical firing (adaptivetau.cpp:1244-1254), from state `y` with
      the uniform draw at `pick`: the transition picked from the critical
      list fires entry by entry, and the run fails as soon as an entry
      leaves its variable negative. */
  ghost predicate FireOutcome(nu: seq<seq<Change>>, rates: seq<real>, critical: seq<nat>, critRate: real, rng: Rng,
                              y: seq<int>, pick: nat, ys: seq<int>, pos1: nat, last: int, err: Option<Error>)
    requires ValidTable(nu, |y|) && |rates| == |nu| && IndicesBelow(critical, |nu|) && critRate != 0.0
  {
    && pos1 == pick + 1
    && 0 <= last < |nu|
    && (exists p: nat :: CritPick(rates, critical, critRate, rng.unifAt(pick), p) && last == critical[p])
    && (err.None? <==> StepwiseNonneg(y, nu[last]))
    && (err.None? ==> ys == ApplyChanges(y, nu[last], 1))
    && (err.Some? ==> err.value.NegativeAfterCritical? && err.value.j == last
                      && err.value.state < |ys| && ys[err.value.state] < 0)
  }

  /** Picks and fires a critical transition on the state buffer. */
  method CritFire(x: array<int>, nu: seq<seq<Change>>, rates: seq<real>, critical: seq<nat>, critRate: real, rng: Rng)
    returns (last: nat, err: Option<Error>)
    requires ValidTable(nu, x.Length) && |rates| == |nu| && IndicesBelow(critical, |nu|)
    requires critRate > 0.0 && critRate == SumRates(rates, critical) && rng.Valid()
    modifies x, rng
    ensures rng.Valid() && last < |nu|
    ensures FireOutcome(nu, rates, critical, critRate, rng, old(x[..]), old(rng.pos), x[..], rng.pos, last, err)
  {
    last := PickCritical(rates, critical, critRate, rng);
    err := FireInPlace(x, nu[last], last);
  }

  /** What one pass of the try block of x_SingleStepATL
      (adaptivetau.cpp:1212-1258) does to the state, from `xs` with the
      draws from `pos0` on, ending at `ys` with the stream at `pos1`: the
      critical waiting time `tau2` is drawn when the critical rate is
      nonzero; the explicit or implicit leap aims at its target, and a
      negative target leaves the state as it was and reports "tau too big";
      otherwise, when `tau2 < tau1`, the critical transition picked with the
      next uniform draw fires entry by entry and the run fails if an entry
      leaves its variable negative. */
  ghost predicate LeapOutcome(nu: seq<seq<Change>>, rates: seq<real>, normal: seq<nat>, critical: seq<nat>,
                              critRate: real, rng: Rng, stepType: StepType, tau1: real, tauEx: ExtReal,
                              xs: seq<int>, pos0: nat, ys: seq<int>, pos1: nat, tooBig: bool,
                              last0: int, last: int, err: Option<Error>)
    requires ValidTable(nu, |xs|) && |rates| == |nu| && IndicesBelow(normal, |nu|) && IndicesBelow(critical, |nu|)
    requires rng.Valid()
  {
    var tau2 := CritWait(rng.expAt, pos0, critRate);
    var explicit := ExplicitSubStep(stepType, tau1, tau2, tauEx);
    var pos := pos0 + (if critRate == 0.0 then 0 else 1);
    var pick := pos + (if explicit then |normal| else 1);
    var y := LeapTarget(nu, rates, normal, rng, explicit, LeapStepTau(rng, pos0, critRate, stepType, tau1, tauEx), xs, pos);
    && |y| == |xs|
    && (tooBig <==> !Nonneg(y))
    && (tooBig ==> ys == xs && last == last0 && err.None? && pos1 == pick)
    && (!tooBig && !FiresCritical(tau1, tau2) ==> ys == y && last == last0 && err.None? && pos1 == pick)
    && (!tooBig && FiresCritical(tau1, tau2) ==> FireOutcome(nu, rates, critical, critRate, rng, y, pick, ys, pos1, last, err))
  }

  /** One pass of the try block of x_SingleStepATL on the state buffer:
      returns the tau the leap covers, whether it was too big, the last
      transition and the error of a failed critical firing. */
  method LeapMove(x: array<int>, nu: seq<seq<Change>>, rates: seq<real>, normal: seq<nat>, critical: seq<nat>,
                  critRate: real, rng: Rng, stepType: StepType, tau1: real, tauEx: ExtReal, last0: int)
    returns (tau: real, tooBig: bool, last: int, err: Option<Error>)
    requires ValidTable(nu, x.Length) && RatesAcceptable(rates, |nu|)
    requires IndicesBelow(normal, |nu|) && IndicesBelow(critical, |nu|)
    requires critRate == SumRates(rates, critical) && rng.Valid() && tau1 > 0.0 && -1 <= last0 < |nu|
    modifies x, rng
    ensures rng.Valid() && 0.0 <= tau <= tau1 && -1 <= last < |nu|
    ensures tau == LeapStepTau(rng, old(rng.pos), critRate, stepType, tau1, tauEx)
    ensures LeapOutcome(nu, rates, normal, critical, critRate, rng, stepType, tau1, tauEx,
                        old(x[..]), old(rng.pos), x[..], rng.pos, tooBig, last0, last, err)
  {
    SumRatesNonneg(rates, critical);
    var tau2 := DrawWait(rng, critRate);
    var explicit := ExplicitSubStep(stepType, tau1, tau2, tauEx);
    tau := if explicit then LeapTau(tau1, tau2) else tau1;
    ghost var pos := rng.pos;
    tooBig := Leap(x, nu, rates, normal, explicit, tau, rng);
    ghost var y := LeapTarget(nu, rates, normal, rng, explicit, tau, old(x[..]), pos);
    last, err := last0, None;
    if !tooBig && FiresCritical(tau1, tau2) {
      assert x[..] == y;
      last, err := CritFire(x, nu, rates, critical, critRate, rng);
    }
  }

  // ---------------------------------------------------------------------
  // The engine

  /** The exact steps of a burst: the points they recorded, the stream
      position before each step and after the last, and the transition each
      step took. */
  datatype Burst = Burst(recs: seq<TimePoint>, poss: seq<nat>, lasts: seq<int>)

  /** Where the engine stands: its state, time, record, last transition and
      stream position. */
  datatype Stand = Stand(x: seq<int>, t: real, ts: seq<TimePoint>, last: int, pos: nat)

  /** The whole of the engine a run changes: where it stands, its rates, its
      two category lists and its previous step kind. */
  datatype Snapshot = Snapshot(at: Stand, rates: seq<real>, normal: seq<nat>, critical: seq<nat>, prev: StepType)

  /** The ghost account of one adaptive step: its kind, how often its trial
      tau was halved, the stream position its final pass began at, and its
      exact burst. */
  datatype StepAccount = StepAccount(kind: StepType, halvings: nat, pos: nat, burst: Burst)

  /** One exact step of a burst, from point `from` with the stream at `p0` to
      point `to` with it at `p1`, taking transition `last`: the first step
      uses the rates `rates0` the burst began with; a later one first passes
      the state check (when `extra`) and recomputes the rates at `from`, and
      uses those. The step begins before `tf`. */
  ghost predicate BurstStep(nu: seq<seq<Change>>, cats: seq<Cat>, n: nat, rng: Rng, tf: real,
                            rateFn: (seq<int>, real) -> seq<real>, extra: bool, rates0: seq<real>, first: bool,
                            from: TimePoint, to: TimePoint, p0: nat, p1: nat, last: int)
  {
    var rs := if first then rates0 else rateFn(from.x, from.t);
    && (!first ==> (extra ==> Nonneg(from.x)) && RatesAcceptable(rs, |nu|))
    && ValidTable(nu, n) && |from.x| == n && |rs| == |nu| && |cats| == |nu|
    && from.t < tf
    && ExactOutcome(nu, rs, cats, rng, tf, from.x, from.t, p0, to.x, to.t, p1, last)
  }

  /** The burst `b` from point `start` with the stream at `pos0`: each step
      goes from the point the step before recorded (the first from `start`),
      with the stream where the step before left it, and no step but the
      last took a halting transition. */
  ghost predicate BurstChain(nu: seq<seq<Change>>, cats: seq<Cat>, n: nat, rng: Rng, tf: real,
                             rateFn: (seq<int>, real) -> seq<real>, extra: bool, rates0: seq<real>,
                             start: TimePoint, pos0: nat, b: Burst)
  {
    && |b.poss| == |b.recs| + 1 && |b.lasts| == |b.recs| && b.poss[0] == pos0
    && (forall j {:trigger b.lasts[j]} :: 0 <= j < |b.recs| ==>
          BurstStep(nu, cats, n, rng, tf, rateFn, extra, rates0, j == 0, if j == 0 then start else b.recs[j - 1],
                    b.recs[j], b.poss[j], b.poss[j + 1], b.lasts[j]))
    && (forall j :: 0 <= j < |b.recs| - 1 ==> !HaltingAt(cats, b.lasts[j]))
  }

  /** A further exact step from where the burst stands, after a step that
      did not halt, extends the burst. */
  lemma BurstExtend(nu: seq<seq<Change>>, cats: seq<Cat>, n: nat, rng: Rng, tf: real,
                    rateFn: (seq<int>, real) -> seq<real>, extra: bool, rates0: seq<real>,
                    start: TimePoint, pos0: nat, b: Burst, first: bool, from: TimePoint, p0: nat,
                    p: TimePoint, p1: nat, last: int)
    requires BurstChain(nu, cats, n, rng, tf, rateFn, extra, rates0, start, pos0, b)
    requires first == (|b.recs| == 0) && from == (if first then start else b.recs[|b.recs| - 1])
    requires p0 == b.poss[|b.recs|]
    requires BurstStep(nu, cats, n, rng, tf, rateFn, extra, rates0, first, from, p, p0, p1, last)
    requires |b.recs| > 0 ==> !HaltingAt(cats, b.lasts[|b.recs| - 1])
    ensures BurstChain(nu, cats, n, rng, tf, rateFn, extra, rates0, start, pos0,
                       Burst(b.recs + [p], b.poss + [p1], b.lasts + [last]))
  {
  }

  /** Transition `last` exists and is a halting one. */
  predicate HaltingAt(cats: seq<Cat>, last: int) {
    0 <= last < |cats| && cats[last] == Halting
  }

  /** No interrupt was signalled at any poll up to step `c`. */
  predicate NoInterruptBy(interrupt: nat -> bool, c: int) {
    forall k :: 0 < k <= c && k % 10 == 0 ==> !interrupt(k)
  }

  /** The step kind and its tau from the two tau candidates at state `xs`
      (adaptivetau.cpp:1169-1180). */
  function LeapMode(env: Env, p: Params, xs: seq<int>, rs: seq<real>, normal: seq<nat>): (r: (StepType, ExtReal))
    requires ParamsValid(p)
    ensures r.0 != Exact
  {
    ChooseMode(env.tauExFn(p, xs, rs, normal), env.tauImFn(p, xs, rs, normal), p.nStiff)
  }

  /** The trial tau of the leap phase (adaptivetau.cpp:1181-1190): the mode's
      tau capped at the time left and at `maxtau`, or at the user's max-tau
      value when a max-tau function is given. */
  function TrialTau(env: Env, p: Params, xs: seq<int>, rs: seq<real>, normal: seq<nat>, t: real, tf: real): (r: real)
    requires ParamsValid(p)
    ensures r <= tf - t
  {
    var user := if env.maxTauFn.Some? then Some(env.maxTauFn.value(xs, t)) else None;
    CapTau(LeapMode(env, p, xs, rs, normal).1, tf - t, p.maxTau, user)
  }

  /** The engine's invariant over its fields: a valid table, a buffer of the
      right size, accepted rates, category lists of existing transitions
      with the critical list starting with the halting list, valid
      parameters, a last transition that exists or is -1, and every recorded
      point no later than the current time. */
  ghost predicate EngineValid(tb: Table, len: nat, rates: seq<real>, normal: seq<nat>, critical: seq<nat>,
                              params: Params, last: int, t: real, ts: seq<TimePoint>) {
    && TableValid(tb)
    && len == tb.numStates
    && RatesAcceptable(rates, |tb.nu|)
    && IndicesBelow(normal, |tb.nu|) && IndicesBelow(critical, |tb.nu|)
    && |tb.haltList| <= |critical| && critical[..|tb.haltList|] == tb.haltList
    && ParamsValid(params)
    && -1 <= last < |tb.nu|
    && 0.0 <= t
    && RecordedBy(ts, t, tb.numStates)
  }

  class StochasticEqns {
    const numStates: nat
    const varNames: Option<seq<string>>
    const nu: seq<seq<Change>>
    const cats: seq<Cat>
    const detList: seq<nat>
    const haltList: seq<nat>
    const balancedPairs: seq<(nat, nat)>
    const realValued: seq<bool>
    /** The state vector m_X, one population count per state variable. */
    const x: array<int>
    var rates: seq<real>
    var normal: seq<nat>
    var critical: seq<nat>
    var params: Params
    var t: real
    var prevStepType: StepType
    var lastTransition: int
    var timeSeries: seq<TimePoint>

    /** The table the engine was built from. */
    ghost function TableOf(): Table {
      Table(numStates, varNames, nu, cats, detList, haltList, balancedPairs, realValued)
    }

    /** The engine's invariant, EngineValid over the fields. */
    ghost predicate Valid()
      reads this`rates, this`normal, this`critical, this`params, this`lastTransition, this`t, this`timeSeries
    {
      EngineValid(TableOf(), x.Length, rates, normal, critical, params, lastTransition, t, timeSeries)
    }

    /** The recorded times never decrease. */
    ghost predicate Chronological()
      reads this`timeSeries
    {
      Nondecreasing(timeSeries)
    }

    /** The last transition taken is a halting one. */
    predicate Halted()
      reads this`lastTransition
    {
      HaltingAt(cats, lastTransition)
    }

    /** The end of the constructor (adaptivetau.cpp:173-174, 195-209, 236-238):
        the built table, zero rates, the critical list seeded with the
        halting transitions, the default parameters, time 0, no last
        transition, previous step kind exact. */
    constructor (tb: Table, x0: seq<int>)
      requires TableValid(tb) && tb.numStates == |x0|
      ensures Valid() && Chronological()
      ensures TableOf() == tb
      ensures fresh(x) && x[..] == x0
      ensures rates == seq(|tb.nu|, _ => 0.0) && critical == tb.haltList && normal == []
      ensures params == DefaultParams() && t == 0.0 && prevStepType == Exact
      ensures lastTransition == -1 && timeSeries == []
    {
      numStates := tb.numStates;
      varNames := tb.varNames;
      nu := tb.nu;
      cats := tb.cats;
      detList := tb.detList;
      haltList := tb.haltList;
      balancedPairs := tb.pairs;
      realValued := tb.realValued;
      x := new int[|x0|](i requires 0 <= i < |x0| => x0[i]);
      rates := seq(|tb.nu|, _ => 0.0);
      critical := tb.haltList;
      normal := [];
      params := DefaultParams();
      t := 0.0;
      prevStepType := Exact;
      lastTransition := -1;
      timeSeries := [];
      new;
      assert critical[..|haltList|] == haltList;
    }

    /** SetTLParams (adaptivetau.cpp:254-305): the settings applied in order;
        on an invalid one the parameters are left as they were. */
    method SetTLParams(list: seq<Setting>) returns (err: Option<Error>)
      requires Valid()
      modifies this`params
      ensures Valid()
      ensures ApplyAll(old(params), list).Ok? ==> err.None? && params == ApplyAll(old(params), list).value
      ensures ApplyAll(old(params), list).Err? ==> err == Some(ApplyAll(old(params), list).error) && params == old(params)
    {
      var r := Parameters.SetTLParams(params, list);
      if r.Err? {
        return Some(r.error);
      }
      params := r.value;
      err := None;
    }

    /** GetResult (adaptivetau.cpp:349-364). */
    function GetResult(): (r: SimResult)
      reads this`timeSeries, this`lastTransition
      ensures r.Dynamics? <==> haltList == []
      ensures r.Dynamics? ==> r.series == timeSeries
      ensures r.WithHalting? ==> r.dynamics == timeSeries && (r.haltingTransition.Some? <==> Halted())
      ensures r.WithHalting? && r.haltingTransition.Some? ==> r.haltingTransition.value == lastTransition + 1
    {
      ResultOf(timeSeries, haltList, cats, lastTransition)
    }

    // -------------------------------------------------------------------
    // Rates and the per-step partition

    /** x_UpdateRates (adaptivetau.cpp:444-490): with extra checks on, reject
        a negative variable; then take the rate function's value at the
        current state and time, rejecting a vector of the wrong length or a
        negative rate. */
    method UpdateRates(env: Env) returns (err: Option<Error>)
      requires Valid()
      modifies this`rates
      ensures Valid()
      ensures var rs := env.rateFn(x[..], t);
        && (err.None? <==> (params.extraChecks ==> Nonneg(x[..])) && RatesAcceptable(rs, |nu|))
        && (err.None? ==> rates == rs)
        && (err.Some? ==> rates == old(rates))
        && (params.extraChecks && !Nonneg(x[..]) ==>
              err.Some? && err.value.NegativeVariable? && err.value.i < x.Length && x[err.value.i] < 0
              && forall i :: 0 <= i < err.value.i ==> x[i] >= 0)
        && ((params.extraChecks ==> Nonneg(x[..])) && |rs| != |nu| ==> err == Some(RateCountMismatch(|rs|)))
        && (err.Some? ==> err.value.NegativeVariable? || err.value.RateCountMismatch? || err.value.NegativeRate?)
        && (err.Some? && err.value.NegativeRate? ==>
              err.value.j < |rs| && rs[err.value.j] < 0.0 && forall j' :: 0 <= j' < err.value.j ==> rs[j'] >= 0.0)
    {
      if params.extraChecks {
        var i := 0;
        while i < x.Length
          invariant 0 <= i <= x.Length
          invariant forall i' :: 0 <= i' < i ==> x[i'] >= 0
        {
          if x[i] < 0 {
            return Some(NegativeVariable(i));
          }
          i := i + 1;
        }
      }
      var rs := env.rateFn(x[..], t);
      if |rs| != |nu| {
        return Some(RateCountMismatch(|rs|));
      }
      var j := 0;
      while j < |rs|
        invariant 0 <= j <= |rs|
        invariant forall j' :: 0 <= j' < j ==> rs[j'] >= 0.0
      {
        if rs[j] < 0.0 {
          return Some(NegativeRate(j));
        }
        j := j + 1;
      }
      rates := rs;
      err := None;
    }

    /** The classification at the head of x_SingleStepATL
        (adaptivetau.cpp:1117-1153): the critical list is cut back to the
        halting transitions and extended by the critical normal ones, the
        normal list rebuilt from the others; the critical rate sums the
        critical list, the non-critical rate the deterministic and normal
        lists. */
    method Classify() returns (critRate: real, noncritRate: real)
      requires Valid()
      modifies this`normal, this`critical
      ensures Valid()
      ensures Classification(x[..], nu, cats, params.nCritical, haltList, normal, critical)
      ensures critRate == SumRates(rates, critical)
      ensures noncritRate == SumRates(rates, detList) + SumRates(rates, normal)
    {
      var crit, norm;
      crit, norm, critRate, noncritRate := SplitTransitions(x, nu, cats, params.nCritical, rates, detList, haltList);
      assert crit[..|haltList|] == haltList;
      normal, critical := norm, crit;
    }

    // -------------------------------------------------------------------
    // Single steps

    /** x_SingleStepExact (adaptivetau.cpp:762-805): the exact step on the
        state buffer, after which the new point is recorded. */
    method ExactStep(rng: Rng, tf: real)
      requires Valid() && rng.Valid() && t < tf
      modifies x, this`t, this`lastTransition, this`timeSeries, rng
      ensures Valid() && rng.Valid()
      ensures old(Chronological()) ==> Chronological()
      ensures old(t) <= t <= tf
      ensures timeSeries == old(timeSeries) + [TimePoint(t, x[..])]
      ensures ExactOutcome(nu, rates, cats, rng, tf, old(x[..]), old(t), old(rng.pos), x[..], t, rng.pos, lastTransition)
    {
      var t1, last := ExactMove(x, nu, rates, cats, rng, t, tf);
      lastTransition := last;
      AdvanceTo(t1, true);
    }

    /** Where the engine stands: its state, time, record, last transition
        and stream position. */
    ghost function StandOf(rng: Rng): Stand
      reads this`t, this`timeSeries, this`lastTransition, x, rng
    {
      Stand(x[..], t, timeSeries, lastTransition, rng.pos)
    }

    /** What one pass of the try block begun at state `x0` and time `t0`,
        with the stream at `pos0`, the last transition `last0` and the record
        `ts0`, left behind: the leap's outcome over the current rates and
        lists; time advanced by the leap's tau unless the leap was too big;
        and the new point recorded unless the leap was too big or the
        critical firing failed; `s` is where the engine stands after it,
        with the rates and lists `rates`, `normal` and `critical`. */
    ghost predicate LeapDoneAt(rates: seq<real>, normal: seq<nat>, critical: seq<nat>, rng: Rng, stepType: StepType,
                               tau1: real, tauEx: ExtReal, critRate: real, x0: seq<int>, t0: real, pos0: nat,
                               ts0: seq<TimePoint>, last0: int, tooBig: bool, err: Option<Error>, s: Stand)
    {
      && ValidTable(nu, |x0|) && |rates| == |nu| && IndicesBelow(normal, |nu|) && IndicesBelow(critical, |nu|)
      && rng.Valid()
      && LeapOutcome(nu, rates, normal, critical, critRate, rng, stepType, tau1, tauEx, x0, pos0, s.x, s.pos,
                     tooBig, last0, s.last, err)
      && (tooBig ==> s.t == t0 && s.ts == ts0)
      && (!tooBig ==> s.t == t0 + LeapStepTau(rng, pos0, critRate, stepType, tau1, tauEx))
      && (!tooBig && err.None? ==> s.ts == ts0 + [TimePoint(s.t, s.x)])
      && (err.Some? ==> s.ts == ts0)
    }

    /** LeapDoneAt on the engine as it stands. */
    ghost predicate LeapDone(rng: Rng, stepType: StepType, tau1: real, tauEx: ExtReal, critRate: real,
                             x0: seq<int>, t0: real, pos0: nat, ts0: seq<TimePoint>, last0: int,
                             tooBig: bool, err: Option<Error>)
      reads this`rates, this`normal, this`critical, this`t, this`timeSeries, this`lastTransition, x, rng
    {
      LeapDoneAt(rates, normal, critical, rng, stepType, tau1, tauEx, critRate, x0, t0, pos0, ts0, last0, tooBig, err,
                 StandOf(rng))
    }

    /** One pass of the try block of x_SingleStepATL
        (adaptivetau.cpp:1212-1258) on the engine: the leap on the state
        buffer; unless it was too big, time advances by the leap's tau and,
        unless the critical firing failed, the new point is recorded. */
    method TryLeap(rng: Rng, stepType: StepType, tau1: real, tauEx: ExtReal, critRate: real, tf: real)
      returns (tooBig: bool, err: Option<Error>)
      requires Valid() && rng.Valid() && stepType != Exact
      requires tau1 > 0.0 && t + tau1 <= tf
      requires critRate == SumRates(rates, critical)
      modifies x, this`t, this`lastTransition, this`timeSeries, rng
      ensures Valid() && rng.Valid()
      ensures old(Chronological()) ==> Chronological()
      ensures old(t) <= t <= tf
      ensures LeapDone(rng, stepType, tau1, tauEx, critRate, old(x[..]), old(t), old(rng.pos), old(timeSeries),
                       old(lastTransition), tooBig, err)
    {
      var tau, last;
      tau, tooBig, last, err := LeapMove(x, nu, rates, normal, critical, critRate, rng, stepType, tau1, tauEx, lastTransition);
      lastTransition := last;
      if !tooBig {
        AdvanceTo(t + tau, err.None?);
      }
    }

    /** Time moves on to `t1` and, if `record`, the state at `t1` is recorded. */
    method AdvanceTo(t1: real, record: bool)
      requires Valid() && t <= t1
      modifies this`t, this`timeSeries
      ensures Valid() && t == t1
      ensures timeSeries == old(timeSeries) + (if record then [TimePoint(t1, x[..])] else [])
      ensures old(Chronological()) ==> Chronological()
    {
      if record {
        RecordPoint(timeSeries, t, t1, x[..], numStates);
        timeSeries := timeSeries + [TimePoint(t1, x[..])];
      } else {
        RecordLater(timeSeries, t, t1, numStates);
        assert timeSeries + [] == timeSeries;
      }
      t := t1;
    }

    /** What an exact burst begun at state `x0` and time `t0`, with the
        rates `rates0`, the stream at `pos0` and the record `ts0`, left
        behind: between one and `bound` chained exact steps, each of which
        recorded its point; the engine stands at the last point, with the
        stream after the last draw and the last step's transition; the burst
        ended on a halting transition, at `tf`, after `bound` steps, or on a
        failed state check or rate update before a further step; `s` is
        where the engine stands after it, under the parameters `p`. */
    ghost predicate BurstDoneAt(env: Env, rng: Rng, tf: real, p: Params, bound: nat, rates0: seq<real>, x0: seq<int>,
                                t0: real, pos0: nat, ts0: seq<TimePoint>, b: Burst, err: Option<Error>, halted: bool,
                                s: Stand)
    {
      && 1 <= |b.recs| <= bound
      && s.ts == ts0 + b.recs
      && BurstChain(nu, cats, numStates, rng, tf, env.rateFn, p.extraChecks, rates0, TimePoint(t0, x0), pos0, b)
      && s.x == b.recs[|b.recs| - 1].x && s.t == b.recs[|b.recs| - 1].t
      && s.pos == b.poss[|b.recs|] && s.last == b.lasts[|b.recs| - 1]
      && (halted <==> err.None? && HaltingAt(cats, s.last))
      && (err.None? && !halted ==> s.t == tf || |b.recs| == bound)
      && (err.Some? ==> |b.recs| < bound && s.t < tf && !HaltingAt(cats, s.last)
                        && !((p.extraChecks ==> Nonneg(s.x)) && RatesAcceptable(env.rateFn(s.x, s.t), |nu|)))
      && (err.Some? ==> err.value.NegativeVariable? || err.value.RateCountMismatch? || err.value.NegativeRate?)
    }

    /** BurstDoneAt on the engine as it stands. */
    ghost predicate BurstDone(env: Env, rng: Rng, tf: real, bound: nat, rates0: seq<real>, x0: seq<int>, t0: real,
                              pos0: nat, ts0: seq<TimePoint>, b: Burst, err: Option<Error>, halted: bool)
      reads this`t, this`timeSeries, this`lastTransition, this`params, x, rng
    {
      BurstDoneAt(env, rng, tf, params, bound, rates0, x0, t0, pos0, ts0, b, err, halted,
                  StandOf(rng))
    }

    /** The exact burst under way, begun at state `x0` and time `t0` with
        the rates `rates0`, the stream at `pos0` and the record `ts0`: the
        chained steps `b`, fewer than `bound` while they go on, each of which
        recorded its point; the engine stands at `s`, at the last point with
        the stream after the last draw and the last step's transition, or
        where the burst began before its first step; `halted` says that the
        last transition halts, and an error, which the first step cannot
        meet, is a failed state check or rate update at the last point. */
    ghost predicate BurstSoFar(env: Env, rng: Rng, tf: real, p: Params, bound: nat, rates0: seq<real>, x0: seq<int>,
                               t0: real, pos0: nat, ts0: seq<TimePoint>, b: Burst, err: Option<Error>, halted: bool,
                               s: Stand)
    {
      && |b.recs| <= bound && t0 <= s.t <= tf
      && s.ts == ts0 + b.recs
      && BurstChain(nu, cats, numStates, rng, tf, env.rateFn, p.extraChecks, rates0, TimePoint(t0, x0), pos0, b)
      && s.pos == b.poss[|b.recs|]
      && (|b.recs| == 0 ==> s.x == x0 && s.t == t0 && err.None? && !halted)
      && (|b.recs| > 0 ==>
            && s.x == b.recs[|b.recs| - 1].x && s.t == b.recs[|b.recs| - 1].t && s.last == b.lasts[|b.recs| - 1]
            && (halted <==> err.None? && HaltingAt(cats, s.last)))
      && (err.Some? ==> |b.recs| < bound && s.t < tf && !HaltingAt(cats, s.last)
                        && !((p.extraChecks ==> Nonneg(s.x)) && RatesAcceptable(env.rateFn(s.x, s.t), |nu|)))
      && (err.Some? ==> err.value.NegativeVariable? || err.value.RateCountMismatch? || err.value.NegativeRate?)
    }

    /** A burst under way that cannot go on, begun before `tf` with room for
        a step, is done. */
    lemma BurstEnds(env: Env, rng: Rng, tf: real, p: Params, bound: nat, rates0: seq<real>, x0: seq<int>, t0: real,
                    pos0: nat, ts0: seq<TimePoint>, b: Burst, err: Option<Error>, halted: bool, s: Stand)
      requires BurstSoFar(env, rng, tf, p, bound, rates0, x0, t0, pos0, ts0, b, err, halted, s)
      requires t0 < tf && bound >= 1 && !(|b.recs| < bound && s.t < tf && err.None? && !halted)
      ensures BurstDoneAt(env, rng, tf, p, bound, rates0, x0, t0, pos0, ts0, b, err, halted, s)
    {
    }

    /** The exact burst of x_SingleStepATL (adaptivetau.cpp:1196-1211): up to
        `numExactSteps[prevStepType]` exact steps while time is left, the
        rates recomputed before every step but the first; it ends early on a
        halting transition. `b` holds the steps taken; the ghost parameters
        name the rates, state, time, stream position and record it begins
        from. */
    method ExactBurst(env: Env, rng: Rng, tf: real, ghost rates0: seq<real>, ghost x0: seq<int>, ghost t0: real,
                      ghost pos0: nat, ghost ts0: seq<TimePoint>)
      returns (err: Option<Error>, halted: bool, ghost b: Burst)
      requires Valid() && rng.Valid() && t < tf
      requires rates0 == rates && x0 == x[..] && t0 == t && pos0 == rng.pos && ts0 == timeSeries
      modifies x, this`rates, this`t, this`lastTransition, this`timeSeries, rng
      ensures Valid() && rng.Valid()
      ensures old(Chronological()) ==> Chronological()
      ensures old(t) <= t <= tf
      ensures BurstDone(env, rng, tf, params.numExactSteps[StepIndex(prevStepType)], rates0, x0, t0, pos0, ts0, b, err,
                        halted)
    {
      var bound := params.numExactSteps[StepIndex(prevStepType)];
      b := Burst([], [rng.pos], []);
      err, halted := None, false;
      var i := 0;
      while i < bound && t < tf && err.None? && !halted
        invariant Valid() && rng.Valid()
        invariant old(Chronological()) ==> Chronological()
        invariant |b.recs| == i && (i == 0 ==> rates == rates0)
        invariant BurstSoFar(env, rng, tf, params, bound, rates0, x0, t0, pos0, ts0, b, err, halted, StandOf(rng))
        decreases bound - i + (if err.None? && !halted then 1 else 0)
      {
        err, b := BurstGrow(env, rng, tf, bound, i == 0, rates0, x0, t0, pos0, ts0, b);
        if err.None? {
          i := i + 1;
        }
        halted := err.None? && Halted();
      }
      BurstEnds(env, rng, tf, params, bound, rates0, x0, t0, pos0, ts0, b, err, halted, StandOf(rng));
    }

    /** One step of the exact burst (adaptivetau.cpp:1200-1208), extending
        the burst `b` under way, with room for a further step before `tf`,
        by one step: on an error nothing changes; otherwise `b'` is the
        longer burst. */
    method BurstGrow(env: Env, rng: Rng, tf: real, bound: nat, first: bool, ghost rates0: seq<real>, ghost x0: seq<int>,
                     ghost t0: real, ghost pos0: nat, ghost ts0: seq<TimePoint>, ghost b: Burst)
      returns (err: Option<Error>, ghost b': Burst)
      requires Valid() && rng.Valid() && t < tf && |b.recs| < bound && first == (|b.recs| == 0)
      requires first ==> rates == rates0
      requires BurstSoFar(env, rng, tf, params, bound, rates0, x0, t0, pos0, ts0, b, None, false, StandOf(rng))
      modifies x, this`rates, this`t, this`lastTransition, this`timeSeries, rng
      ensures Valid() && rng.Valid()
      ensures old(Chronological()) ==> Chronological()
      ensures err.Some? ==> b' == b && StandOf(rng) == old(StandOf(rng))
      ensures err.None? ==> b' == Burst(b.recs + [TimePoint(t, x[..])], b.poss + [rng.pos], b.lasts + [lastTransition])
      ensures BurstSoFar(env, rng, tf, params, bound, rates0, x0, t0, pos0, ts0, b', err, err.None? && Halted(),
                         StandOf(rng))
    {
      ghost var from := TimePoint(t, x[..]);
      b' := b;
      err := BurstMove(env, rng, tf, first, rates0, from, rng.pos);
      if err.None? {
        ghost var p := TimePoint(t, x[..]);
        RecordAfter(ts0, b.recs, p);
        BurstExtend(nu, cats, numStates, rng, tf, env.rateFn, params.extraChecks, rates0, TimePoint(t0, x0), pos0,
                    b, first, from, b.poss[|b.recs|], p, rng.pos, lastTransition);
        b' := Burst(b.recs + [p], b.poss + [rng.pos], b.lasts + [lastTransition]);
      }
    }

    /** One exact step of the burst from point `from` with the stream at
        `p0`: every step but the first recomputes the rates, and fails if
        that update fails; then one exact step is taken and its point
        recorded. */
    method BurstMove(env: Env, rng: Rng, tf: real, first: bool, ghost rates0: seq<real>, ghost from: TimePoint,
                     ghost p0: nat)
      returns (err: Option<Error>)
      requires Valid() && rng.Valid() && t < tf
      requires from == TimePoint(t, x[..]) && p0 == rng.pos && (first ==> rates == rates0)
      modifies x, this`rates, this`t, this`lastTransition, this`timeSeries, rng
      ensures Valid() && rng.Valid()
      ensures old(Chronological()) ==> Chronological()
      ensures old(t) <= t <= tf
      ensures err.Some? ==>
        && !first && x[..] == from.x && t == from.t && rng.pos == p0 && timeSeries == old(timeSeries)
        && lastTransition == old(lastTransition)
        && !((params.extraChecks ==> Nonneg(from.x)) && RatesAcceptable(env.rateFn(from.x, from.t), |nu|))
        && (err.value.NegativeVariable? || err.value.RateCountMismatch? || err.value.NegativeRate?)
      ensures err.None? ==>
        && timeSeries == old(timeSeries) + [TimePoint(t, x[..])]
        && BurstStep(nu, cats, numStates, rng, tf, env.rateFn, params.extraChecks, rates0, first, from,
                     TimePoint(t, x[..]), p0, rng.pos, lastTransition)
    {
      err := None;
      if !first {
        err := UpdateRates(env);
      }
      if err.None? {
        ExactStep(rng, tf);
      }
    }

    /** One pass of the do-while loop of x_SingleStepATL
        (adaptivetau.cpp:1185-1270): a nonpositive trial tau is an error;
        below `thr` (`exactThreshold / totalRate`) the exact burst is taken
        instead; otherwise a leap is tried, and `retry` reports that it was
        too big. Returns the kind of step taken and whether a halting
        transition ended the burst; the ghost parameters name the state the
        pass begins from. */
    method ControlPass(env: Env, rng: Rng, tf: real, stepType0: StepType, tau1: real, tauEx: ExtReal,
                       critRate: real, thr: real, ghost rates0: seq<real>, ghost x0: seq<int>, ghost t0: real,
                       ghost pos0: nat, ghost ts0: seq<TimePoint>, ghost last0: int)
      returns (err: Option<Error>, stepType: StepType, halted: bool, retry: bool, ghost burst: Burst)
      requires Valid() && rng.Valid() && t < tf && stepType0 != Exact && thr > 0.0
      requires rates0 == rates && x0 == x[..] && t0 == t && pos0 == rng.pos && ts0 == timeSeries
      requires last0 == lastTransition
      requires tau1 <= tf - t && critRate == SumRates(rates, critical)
      modifies x, this`rates, this`t, this`lastTransition, this`timeSeries, rng
      ensures Valid() && rng.Valid()
      ensures old(Chronological()) ==> Chronological()
      ensures old(t) <= t <= tf
      ensures retry ==> (err.None? && stepType == stepType0 && tau1 >= thr && x[..] == x0 && t == t0
                         && timeSeries == ts0 && rates == rates0 && lastTransition == last0)
      ensures retry ==> LeapDone(rng, stepType0, tau1, tauEx, critRate, x0, t0, pos0, ts0, last0, true, err)
      ensures !retry ==> ControlDone(x0, t0, ts0, stepType0, err, stepType, halted)
      ensures !retry ==>
        PassDoneAt(env, rng, tf, params, params.numExactSteps[StepIndex(prevStepType)], stepType0, tau1, tauEx,
                   critRate, thr, rates0, x0, t0, pos0, ts0, last0, burst, err, stepType, halted, rates, normal,
                   critical, StandOf(rng))
    {
      stepType, halted, retry := stepType0, false, false;
      burst := Burst([], [rng.pos], []);
      if !(tau1 > 0.0) {
        err := Some(TauNotPositive);
      } else if tau1 < thr {
        stepType := Exact;
        err, halted, burst := ExactBurst(env, rng, tf, rates0, x0, t0, pos0, ts0);
      } else {
        var tooBig;
        tooBig, err := TryLeap(rng, stepType, tau1, tauEx, critRate, tf);
        retry := tooBig;
      }
    }

    /** How a pass of the control loop with the trial tau `tau` ended when
        it was not retried: a nonpositive tau is an error; below `thr`, the
        exact burst of at most `bound` steps; otherwise the leap of the mode
        `stepType0` with the rates unchanged, not too big; the engine stands
        at `s` after it, with the rates and lists `rates`, `normal` and
        `critical`, under the parameters `p`. */
    ghost predicate PassDoneAt(env: Env, rng: Rng, tf: real, p: Params, bound: nat, stepType0: StepType, tau: real,
                               tauEx: ExtReal, critRate: real, thr: real, rates0: seq<real>, x0: seq<int>, t0: real,
                               pos: nat, ts0: seq<TimePoint>, last0: int, b: Burst, err: Option<Error>,
                               stepType: StepType, halted: bool, rates: seq<real>, normal: seq<nat>,
                               critical: seq<nat>, s: Stand)
    {
      && (!(tau > 0.0) ==> err == Some(TauNotPositive))
      && (0.0 < tau < thr ==>
            stepType == Exact && BurstDoneAt(env, rng, tf, p, bound, rates0, x0, t0, pos, ts0, b, err, halted, s))
      && (tau >= thr ==>
            && stepType == stepType0 && rates == rates0
            && LeapDoneAt(rates, normal, critical, rng, stepType0, tau, tauEx, critRate, x0, t0, pos, ts0, last0, false,
                          err, s))
    }

    /** How the control loop ended: the step kind is the mode's or exact; a
        leap records exactly one point, a burst at least one; a halting
        transition can only end a burst; a nonpositive trial tau changes
        nothing; and only the listed errors occur. */
    ghost predicate ControlDone(xs: seq<int>, t0: real, ts: seq<TimePoint>, stepType0: StepType,
                                err: Option<Error>, stepType: StepType, halted: bool)
      reads this`t, this`timeSeries, this`lastTransition, x
    {
      && (stepType == Exact || stepType == stepType0)
      && |ts| <= |timeSeries| && timeSeries[..|ts|] == ts
      && (err.None? ==> |ts| < |timeSeries|)
      && (err.None? && stepType != Exact ==> |timeSeries| == |ts| + 1 && !halted)
      && (halted ==> stepType == Exact && err.None? && Halted())
      && (err.None? && stepType == Exact ==> (halted <==> Halted()))
      && (err == Some(TauNotPositive) ==> x[..] == xs && t == t0 && timeSeries == ts)
      && (err.Some? ==> (err.value.TauNotPositive? || err.value.NegativeAfterCritical? ||
            err.value.NegativeVariable? || err.value.RateCountMismatch? || err.value.NegativeRate?))
    }

    /** The do-while loop of x_SingleStepATL (adaptivetau.cpp:1185-1270):
        passes with the trial tau halved after each leap that was too big,
        `halvings` times, down to the final trial tau `tau`; the ghost
        parameters name the state the loop begins from. */
    method ControlLoop(env: Env, rng: Rng, tf: real, stepType0: StepType, tau1Start: real, tauEx: ExtReal,
                       critRate: real, thr: real, ghost rates0: seq<real>, ghost x0: seq<int>, ghost t0: real,
                       ghost ts0: seq<TimePoint>, ghost last0: int)
      returns (err: Option<Error>, stepType: StepType, halted: bool, ghost halvings: nat, ghost tau: real,
               ghost pos: nat, ghost burst: Burst)
      requires Valid() && rng.Valid() && t < tf && stepType0 != Exact && thr > 0.0
      requires rates0 == rates && x0 == x[..] && t0 == t && ts0 == timeSeries && last0 == lastTransition
      requires tau1Start <= tf - t && critRate == SumRates(rates, critical)
      modifies x, this`rates, this`t, this`lastTransition, this`timeSeries, rng
      ensures Valid() && rng.Valid()
      ensures old(Chronological()) ==> Chronological()
      ensures old(t) <= t <= tf
      ensures ControlDone(x0, t0, ts0, stepType0, err, stepType, halted)
      ensures forall i :: 0 <= i < halvings ==> Halved(tau1Start, i) >= thr
      ensures tau == Halved(tau1Start, halvings)
      ensures PassDoneAt(env, rng, tf, params, params.numExactSteps[StepIndex(prevStepType)], stepType0, tau, tauEx,
                         critRate, thr, rates0, x0, t0, pos, ts0, last0, burst, err, stepType, halted, rates, normal,
                         critical, StandOf(rng))
    {
      var tau1 := tau1Start;
      halvings := 0;
      ghost var most := HalvingsBelow(tau1Start, thr);
      while true
        invariant Valid() && rng.Valid()
        invariant x[..] == x0 && t == t0 && timeSeries == ts0
        invariant rates == rates0 && lastTransition == last0 && tau1 <= tf - t
        invariant tau1 == Halved(tau1Start, halvings)
        invariant forall i :: 0 <= i < halvings ==> Halved(tau1Start, i) >= thr
        invariant halvings <= most
        decreases most - halvings
      {
        var retry;
        pos := rng.pos;
        err, stepType, halted, retry, burst :=
          ControlPass(env, rng, tf, stepType0, tau1, tauEx, critRate, thr, rates0, x0, t0, pos, ts0, last0);
        if !retry {
          tau := tau1;
          return;
        }
        tau1 := tau1 / 2.0;
        halvings := halvings + 1;
      }
    }

    /** What the leap phase begun at state `x0` and time `t0`, with the
        rates `rates0`, the record `ts0`, the previous step kind `prev0` and
        the last transition `last0`, left behind, with `total` the total rate
        and `critRate` the critical one: with `tau1` the trial tau and `thr`
        the exact threshold over the total rate, every tau halved away was
        at or above `thr`; the final tau decides: not positive, the error;
        below `thr`, the exact burst from the stream at `pos`; otherwise the
        mode's leap from there, over the unchanged rates; the engine stands
        at `s` after it, with the rates and lists `rates`, `normal` and
        `critical`, under the parameters `p`. */
    ghost predicate PhaseDoneAt(env: Env, rng: Rng, tf: real, p: Params, total: real, critRate: real,
                                rates0: seq<real>, x0: seq<int>, t0: real, ts0: seq<TimePoint>, prev0: StepType,
                                last0: int, halvings: nat, pos: nat, b: Burst, err: Option<Error>, stepType: StepType,
                                rates: seq<real>, normal: seq<nat>, critical: seq<nat>, s: Stand)
      requires ParamsValid(p) && total > 0.0
    {
      var tau1 := TrialTau(env, p, x0, rates0, normal, t0, tf);
      var thr := p.exactThreshold / total;
      var tau := Halved(tau1, halvings);
      && (forall i :: 0 <= i < halvings ==> Halved(tau1, i) >= thr)
      && (!(tau > 0.0) ==> err == Some(TauNotPositive))
      && (0.0 < tau < thr ==>
            && stepType == Exact
            && BurstDoneAt(env, rng, tf, p, p.numExactSteps[StepIndex(prev0)], rates0, x0, t0, pos, ts0, b, err,
                           err.None? && HaltingAt(cats, s.last), s))
      && (tau >= thr ==>
            && stepType == LeapMode(env, p, x0, rates0, normal).0
            && rates == rates0
            && LeapDoneAt(rates, normal, critical, rng, stepType, tau, env.tauExFn(p, x0, rates0, normal), critRate,
                          x0, t0, pos, ts0, last0, false, err, s))
    }

    /** The step kind is remembered as the previous one `prev`
        (adaptivetau.cpp:1276) unless the pass failed or a halting
        transition, the last one `last`, ended the exact burst (the early
        return at 1216), which leave `prev0`. */
    ghost predicate KindRememberedAt(prev0: StepType, err: Option<Error>, stepType: StepType, prev: StepType,
                                     last: int)
    {
      prev == if err.None? && !(stepType == Exact && HaltingAt(cats, last)) then stepType else prev0
    }

    /** The final pass of the control loop, begun from the trial tau of the
        phase halved `halvings` times past taus at or above the threshold,
        completes the phase. */
    lemma PhaseFromPass(env: Env, rng: Rng, tf: real, p: Params, total: real, critRate: real, rates0: seq<real>,
                        x0: seq<int>, t0: real, ts0: seq<TimePoint>, prev0: StepType, last0: int, halvings: nat,
                        pos: nat, b: Burst, err: Option<Error>, stepType: StepType, halted: bool, rates: seq<real>,
                        normal: seq<nat>, critical: seq<nat>, s: Stand, bound: nat, mode: StepType, tauEx: ExtReal,
                        thr: real, tau1: real, tau: real)
      requires ParamsValid(p) && total > 0.0 && bound == p.numExactSteps[StepIndex(prev0)]
      requires mode == LeapMode(env, p, x0, rates0, normal).0 && tauEx == env.tauExFn(p, x0, rates0, normal)
      requires thr == p.exactThreshold / total && tau1 == TrialTau(env, p, x0, rates0, normal, t0, tf)
      requires (forall i :: 0 <= i < halvings ==> Halved(tau1, i) >= thr) && tau == Halved(tau1, halvings)
      requires PassDoneAt(env, rng, tf, p, bound, mode, tau, tauEx, critRate, thr, rates0, x0, t0, pos, ts0, last0, b,
                          err, stepType, halted, rates, normal, critical, s)
      ensures PhaseDoneAt(env, rng, tf, p, total, critRate, rates0, x0, t0, ts0, prev0, last0, halvings, pos, b, err,
                          stepType, rates, normal, critical, s)
    {
    }

    /** The leap phase of x_SingleStepATL (adaptivetau.cpp:1155-1275), once
        the total rate is known to be positive: the mode and trial tau from
        the tau candidates, the trial tau capped at the time left and at
        `maxtau` or the user's max-tau value, then the control loop. The step
        kind is remembered unless a halting transition ended the burst. The
        ghost parameters name the state the phase begins from. */
    method LeapPhase(env: Env, rng: Rng, tf: real, critRate: real, total: real, ghost rates0: seq<real>,
                     ghost x0: seq<int>, ghost t0: real, ghost ts0: seq<TimePoint>, ghost prev0: StepType)
      returns (err: Option<Error>, stepType: StepType, ghost halvings: nat, ghost pos: nat, ghost burst: Burst,
               ghost s: Stand)
      requires Valid() && rng.Valid() && t < tf && total > 0.0 && critRate == SumRates(rates, critical)
      requires rates0 == rates && x0 == x[..] && t0 == t && ts0 == timeSeries && prev0 == prevStepType
      modifies x, this`rates, this`t, this`prevStepType, this`lastTransition, this`timeSeries, rng
      ensures Valid() && rng.Valid()
      ensures old(Chronological()) ==> Chronological()
      ensures old(t) <= t <= tf
      ensures |old(timeSeries)| <= |timeSeries| && timeSeries[..|old(timeSeries)|] == old(timeSeries)
      ensures err.None? ==> |old(timeSeries)| < |timeSeries|
      ensures err.None? && stepType != Exact ==> |timeSeries| == |old(timeSeries)| + 1
      ensures s == StandOf(rng)
      ensures PhaseDoneAt(env, rng, tf, params, total, critRate, rates0, x0, t0, ts0, prev0, old(lastTransition),
                          halvings, pos, burst, err, stepType, rates, normal, critical, s)
      ensures KindRememberedAt(prev0, err, stepType, prevStepType, s.last)
      ensures err == Some(TauNotPositive) ==> x[..] == old(x[..]) && t == old(t) && timeSeries == old(timeSeries)
      ensures err.Some? ==> (err.value.TauNotPositive? || err.value.NegativeAfterCritical? ||
        err.value.NegativeVariable? || err.value.RateCountMismatch? || err.value.NegativeRate?)
    {
      var xs := x[..];
      var tauEx := env.tauExFn(params, xs, rates, normal);
      var mode := LeapMode(env, params, xs, rates, normal);
      var tau1 := TrialTau(env, params, xs, rates, normal, t, tf);
      var thr := params.exactThreshold / total;
      var halted;
      ghost var last0, tau, bound := lastTransition, tau1, params.numExactSteps[StepIndex(prevStepType)];
      err, stepType, halted, halvings, tau, pos, burst :=
        ControlLoop(env, rng, tf, mode.0, tau1, tauEx, critRate, thr, rates0, x0, t0, ts0, last0);
      s := StandOf(rng);
      PhaseFromPass(env, rng, tf, params, total, critRate, rates0, x0, t0, ts0, prev0, last0, halvings, pos, burst,
                    err, stepType, halted, rates, normal, critical, s, bound, mode.0, tauEx, thr, tau1, tau);
      if err.None? && !halted {
        prevStepType := stepType;
      }
    }

    /** What one adaptive step begun at state `x0` and time `t0`, with the
        rates `rates0`, the record `ts0` and the previous step kind `prev0`,
        left behind: the transitions classified at `x0`; with no rate at all,
        time jumped to `tf` and the point was recorded; otherwise the leap
        phase, with no last transition before it; `s` is the engine after
        the step, under the parameters `p`. */
    ghost predicate StepDoneAt(env: Env, rng: Rng, tf: real, p: Params, rates0: seq<real>, x0: seq<int>, t0: real,
                               ts0: seq<TimePoint>, prev0: StepType, halvings: nat, pos: nat, b: Burst,
                               err: Option<Error>, stepType: StepType, s: Snapshot)
      requires ParamsValid(p) && ValidTable(nu, |x0|) && |cats| == |nu| && |rates0| == |nu|
      requires IndicesBelow(s.normal, |nu|) && IndicesBelow(s.critical, |nu|) && IndicesBelow(detList, |nu|)
    {
      var critRate := SumRates(rates0, s.critical);
      var total := critRate + (SumRates(rates0, detList) + SumRates(rates0, s.normal));
      && Classification(x0, nu, cats, p.nCritical, haltList, s.normal, s.critical)
      && (total == 0.0 ==>
            && err.None? && s.at.t == tf && s.at.x == x0 && s.at.last == -1
            && s.at.ts == ts0 + [TimePoint(tf, s.at.x)] && s.prev == prev0)
      && (total > 0.0 ==>
            && PhaseDoneAt(env, rng, tf, p, total, critRate, rates0, x0, t0, ts0, prev0, -1, halvings, pos, b, err,
                           stepType, s.rates, s.normal, s.critical, s.at)
            && KindRememberedAt(prev0, err, stepType, s.prev, s.at.last))
    }

    /** The whole engine as it stands. */
    ghost function SnapshotOf(rng: Rng): Snapshot
      reads this`rates, this`normal, this`critical, this`t, this`prevStepType, this`lastTransition, this`timeSeries,
            x, rng
    {
      Snapshot(StandOf(rng), rates, normal, critical, prevStepType)
    }

    /** A leap phase begun at positive total rate from a classified state completes the step. */
    lemma PhaseCompletesStep(env: Env, rng: Rng, tf: real, p: Params, total: real, critRate: real,
                             rates0: seq<real>, x0: seq<int>, t0: real, ts0: seq<TimePoint>, prev0: StepType,
                             halvings: nat, pos: nat, b: Burst, err: Option<Error>, stepType: StepType, s: Snapshot)
      requires ParamsValid(p) && ValidTable(nu, |x0|) && |cats| == |nu| && |rates0| == |nu|
      requires IndicesBelow(s.normal, |nu|) && IndicesBelow(s.critical, |nu|) && IndicesBelow(detList, |nu|)
      requires Classification(x0, nu, cats, p.nCritical, haltList, s.normal, s.critical)
      requires critRate == SumRates(rates0, s.critical)
      requires total == critRate + (SumRates(rates0, detList) + SumRates(rates0, s.normal)) > 0.0
      requires PhaseDoneAt(env, rng, tf, p, total, critRate, rates0, x0, t0, ts0, prev0, -1, halvings, pos, b, err,
                           stepType, s.rates, s.normal, s.critical, s.at)
      requires KindRememberedAt(prev0, err, stepType, s.prev, s.at.last)
      ensures StepDoneAt(env, rng, tf, p, rates0, x0, t0, ts0, prev0, halvings, pos, b, err, stepType, s)
    { }

    /** x_SingleStepATL (adaptivetau.cpp:1111-1276): classify the
        transitions; with no rate at all jump to `tf` and record the point;
        otherwise take the leap phase. */
    method SingleStepATL(env: Env, rng: Rng, tf: real)
      returns (err: Option<Error>, ghost stepType: StepType, ghost halvings: nat, ghost pos: nat, ghost burst: Burst,
               ghost s1: Snapshot)
      requires Valid() && rng.Valid() && t < tf
      modifies x, this`rates, this`normal, this`critical, this`t, this`prevStepType, this`lastTransition,
               this`timeSeries, rng
      ensures Valid() && rng.Valid()
      ensures old(Chronological()) ==> Chronological()
      ensures old(t) <= t <= tf
      ensures |old(timeSeries)| <= |timeSeries| && timeSeries[..|old(timeSeries)|] == old(timeSeries)
      ensures err.None? ==> |old(timeSeries)| < |timeSeries|
      ensures s1 == SnapshotOf(rng)
      ensures StepDoneAt(env, rng, tf, params, old(rates), old(x[..]), old(t), old(timeSeries), old(prevStepType),
                         halvings, pos, burst, err, stepType, s1)
      ensures err == Some(TauNotPositive) ==> x[..] == old(x[..]) && t == old(t) && timeSeries == old(timeSeries)
      ensures err.Some? ==> (err.value.TauNotPositive? || err.value.NegativeAfterCritical? ||
        err.value.NegativeVariable? || err.value.RateCountMismatch? || err.value.NegativeRate?)
    {
      lastTransition := -1;
      var critRate, noncritRate := Classify();
      assert x[..] == old(x[..]) && rates == old(rates) && t == old(t);
      assert timeSeries == old(timeSeries) && prevStepType == old(prevStepType);
      SumRatesNonneg(rates, critical);
      SumRatesNonneg(rates, detList);
      SumRatesNonneg(rates, normal);
      var total := critRate + noncritRate;
      halvings, pos, burst, stepType := 0, rng.pos, Burst([], [rng.pos], []), Exact;
      if total == 0.0 {
        AdvanceTo(tf, true);
        err := None;
        s1 := SnapshotOf(rng);
      } else {
        var kind; ghost var s;
        err, kind, halvings, pos, burst, s := LeapPhase(env, rng, tf, critRate, total, old(rates), old(x[..]), old(t),
                                                        old(timeSeries), old(prevStepType));
        stepType := kind;
        s1 := SnapshotOf(rng);
        PhaseCompletesStep(env, rng, tf, params, total, critRate, old(rates), old(x[..]), old(t), old(timeSeries),
                           old(prevStepType), halvings, pos, burst, err, stepType, s1);
      }
    }

    // -------------------------------------------------------------------
    // Run loops

    /** The state check and rate update at state `xs` and time `t0` succeed
        under the parameters `p`: with extra checks on, no variable is
        negative, and the rate function gives one nonnegative rate per
        transition. */
    ghost predicate RatesUpdate(env: Env, p: Params, xs: seq<int>, t0: real)
    {
      (p.extraChecks ==> Nonneg(xs)) && RatesAcceptable(env.rateFn(xs, t0), |nu|)
    }

    /** One pass of EvaluateATLUntil's loop (adaptivetau.cpp:315-316) took
        the engine from `s0` to `s1` under the parameters `p`, with `w` the
        account of its step: a failed rate update is an error and changes
        nothing; otherwise the adaptive step from the new rates. */
    ghost predicate AdaptiveStepped(env: Env, rng: Rng, tF: real, p: Params, s0: Snapshot, w: StepAccount,
                                    e: Option<Error>, s1: Snapshot)
    {
      && (!RatesUpdate(env, p, s0.at.x, s0.at.t) ==>
            && e.Some? && (e.value.NegativeVariable? || e.value.RateCountMismatch? || e.value.NegativeRate?)
            && s1 == s0)
      && (RatesUpdate(env, p, s0.at.x, s0.at.t) ==>
            && ParamsValid(p) && ValidTable(nu, |s0.at.x|) && |cats| == |nu|
            && IndicesBelow(s1.normal, |nu|) && IndicesBelow(s1.critical, |nu|) && IndicesBelow(detList, |nu|)
            && StepDoneAt(env, rng, tF, p, env.rateFn(s0.at.x, s0.at.t), s0.at.x, s0.at.t, s0.at.ts, s0.prev,
                          w.halvings, w.pos, w.burst, e, w.kind, s1))
    }

    /** One pass of EvaluateExactUntil's loop (adaptivetau.cpp:336-337) took
        the engine from `s0` to `s1` under the parameters `p`: it fails
        exactly when the rate update does, and then changes nothing;
        otherwise the new rates are the rate function's at `s0`, and one
        exact step from them recorded its point. */
    ghost predicate ExactStepped(env: Env, rng: Rng, tF: real, p: Params, s0: Snapshot, e: Option<Error>,
                                 s1: Snapshot)
    {
      && (e.None? <==> RatesUpdate(env, p, s0.at.x, s0.at.t))
      && (e.Some? ==>
            && (e.value.NegativeVariable? || e.value.RateCountMismatch? || e.value.NegativeRate?)
            && s1 == s0)
      && (e.None? ==>
            && s1.rates == env.rateFn(s0.at.x, s0.at.t)
            && s1.normal == s0.normal && s1.critical == s0.critical && s1.prev == s0.prev
            && s1.at.ts == s0.at.ts + [TimePoint(s1.at.t, s1.at.x)]
            && ValidTable(nu, |s0.at.x|) && |cats| == |nu|
            && ExactOutcome(nu, s1.rates, cats, rng, tF, s0.at.x, s0.at.t, s0.at.pos, s1.at.x, s1.at.t, s1.at.pos,
                            s1.at.last))
    }

    /** The adaptive run so far under the parameters `p`: the engine went
        through the snapshots `run`, one more than the steps accounted for in
        `acts`; every step began with the loop's test true at the snapshot
        before it (time left, the step cap not reached, no halting
        transition last), and took the engine to the next snapshot; only the
        last step may fail, with the error `err`. */
    ghost predicate AdaptiveRun(env: Env, rng: Rng, tF: real, p: Params, run: seq<Snapshot>, acts: seq<StepAccount>,
                                err: Option<Error>)
    {
      && |run| == |acts| + 1
      && forall k :: 0 <= k < |acts| ==>
           && RunContinues(run[k].at.t, tF, p.maxSteps, k, HaltingAt(cats, run[k].at.last))
           && AdaptiveStepped(env, rng, tF, p, run[k], acts[k], if k == |acts| - 1 then err else None, run[k + 1])
    }

    /** The exact run so far, as AdaptiveRun, with exact passes. */
    ghost predicate ExactRun(env: Env, rng: Rng, tF: real, p: Params, run: seq<Snapshot>, err: Option<Error>)
    {
      && |run| >= 1
      && forall k :: 0 <= k < |run| - 1 ==>
           && RunContinues(run[k].at.t, tF, p.maxSteps, k, HaltingAt(cats, run[k].at.last))
           && ExactStepped(env, rng, tF, p, run[k], if k == |run| - 2 then err else None, run[k + 1])
    }

    /** A step begun with the loop's test true at the last snapshot of an
        adaptive run that has not failed extends the run. */
    lemma {:induction false} AdaptiveRunExtend(env: Env, rng: Rng, tF: real, p: Params, run: seq<Snapshot>,
                                               acts: seq<StepAccount>, w: StepAccount, e: Option<Error>,
                                               s1: Snapshot)
      requires AdaptiveRun(env, rng, tF, p, run, acts, None)
      requires RunContinues(run[|acts|].at.t, tF, p.maxSteps, |acts|, HaltingAt(cats, run[|acts|].at.last))
      requires AdaptiveStepped(env, rng, tF, p, run[|acts|], w, e, s1)
      ensures AdaptiveRun(env, rng, tF, p, run + [s1], acts + [w], e)
    {
      var run', acts' := run + [s1], acts + [w];
      forall k | 0 <= k < |acts'|
        ensures RunContinues(run'[k].at.t, tF, p.maxSteps, k, HaltingAt(cats, run'[k].at.last))
        ensures AdaptiveStepped(env, rng, tF, p, run'[k], acts'[k], if k == |acts'| - 1 then e else None, run'[k + 1])
      {
        assert run'[k] == run[k] && run'[k + 1] == (if k < |acts| then run[k + 1] else s1);
        if k < |acts| {
          assert acts'[k] == acts[k];
          assert AdaptiveStepped(env, rng, tF, p, run[k], acts[k], if k == |acts| - 1 then None else None, run[k + 1]);
        }
      }
    }

    /** A step begun with the loop's test true at the last snapshot of an
        exact run that has not failed extends the run. */
    lemma {:induction false} ExactRunExtend(env: Env, rng: Rng, tF: real, p: Params, run: seq<Snapshot>,
                                            e: Option<Error>, s1: Snapshot)
      requires ExactRun(env, rng, tF, p, run, None)
      requires RunContinues(run[|run| - 1].at.t, tF, p.maxSteps, |run| - 1, HaltingAt(cats, run[|run| - 1].at.last))
      requires ExactStepped(env, rng, tF, p, run[|run| - 1], e, s1)
      ensures ExactRun(env, rng, tF, p, run + [s1], e)
    {
      var run' := run + [s1];
      forall k | 0 <= k < |run'| - 1
        ensures RunContinues(run'[k].at.t, tF, p.maxSteps, k, HaltingAt(cats, run'[k].at.last))
        ensures ExactStepped(env, rng, tF, p, run'[k], if k == |run'| - 2 then e else None, run'[k + 1])
      {
        assert run'[k] == run[k] && run'[k + 1] == (if k < |run| - 1 then run[k + 1] else s1);
        if k < |run| - 1 {
          assert ExactStepped(env, rng, tF, p, run[k], if k == |run| - 2 then None else None, run[k + 1]);
        }
      }
    }

    /** One pass of EvaluateATLUntil's loop (adaptivetau.cpp:315-316): the
        rates, then one adaptive step; `s0` names the engine before it, and
        the pass takes it to `s1`, with `w` the account of its step. */
    method AdaptiveIteration(env: Env, rng: Rng, tF: real, ghost s0: Snapshot)
      returns (e: Option<Error>, ghost w: StepAccount, ghost s1: Snapshot)
      requires Valid() && rng.Valid() && t < tF && s0 == SnapshotOf(rng)
      modifies x, this`rates, this`normal, this`critical, this`t, this`prevStepType, this`lastTransition,
               this`timeSeries, rng
      ensures Valid() && rng.Valid()
      ensures old(Chronological()) ==> Chronological()
      ensures old(t) <= t <= tF
      ensures old(timeSeries) <= timeSeries
      ensures s1 == SnapshotOf(rng)
      ensures AdaptiveStepped(env, rng, tF, params, s0, w, e, s1)
    {
      w := StepAccount(Exact, 0, rng.pos, Burst([], [rng.pos], []));
      e := UpdateRates(env);
      if e.None? {
        ghost var kind, halvings, pos, burst;
        e, kind, halvings, pos, burst, s1 := SingleStepATL(env, rng, tF);
        w := StepAccount(kind, halvings, pos, burst);
      } else {
        s1 := SnapshotOf(rng);
      }
    }

    /** One pass of EvaluateExactUntil's loop (adaptivetau.cpp:336-337): the
        rates, then one exact step; `s0` names the engine before it, and the
        pass takes it to `s1`. */
    method ExactIteration(env: Env, rng: Rng, tF: real, ghost s0: Snapshot)
      returns (e: Option<Error>, ghost s1: Snapshot)
      requires Valid() && rng.Valid() && t < tF && s0 == SnapshotOf(rng)
      modifies x, this`rates, this`t, this`lastTransition, this`timeSeries, rng
      ensures Valid() && rng.Valid()
      ensures old(Chronological()) ==> Chronological()
      ensures old(t) <= t <= tF
      ensures old(timeSeries) <= timeSeries
      ensures s1 == SnapshotOf(rng)
      ensures ExactStepped(env, rng, tF, params, s0, e, s1)
    {
      e := UpdateRates(env);
      if e.None? {
        ExactStep(rng, tF);
      }
      s1 := SnapshotOf(rng);
    }

    /** A pass of EvaluateATLUntil's loop as the loop keeps its record: a
        pass begun with the loop's test true at the last snapshot of the run
        `run`, `acts` extends the run by the snapshot it leaves. */
    method AdaptivePass(env: Env, rng: Rng, tF: real, ghost run: seq<Snapshot>, ghost acts: seq<StepAccount>)
      returns (e: Option<Error>, ghost run': seq<Snapshot>, ghost acts': seq<StepAccount>)
      requires Valid() && rng.Valid()
      requires AdaptiveRun(env, rng, tF, params, run, acts, None) && run[|acts|] == SnapshotOf(rng)
      requires RunContinues(t, tF, params.maxSteps, |acts|, Halted())
      modifies x, this`rates, this`normal, this`critical, this`t, this`prevStepType, this`lastTransition,
               this`timeSeries, rng
      ensures Valid() && rng.Valid()
      ensures old(Chronological()) ==> Chronological()
      ensures old(t) <= t <= tF
      ensures old(timeSeries) <= timeSeries
      ensures run' == run + [SnapshotOf(rng)] && |acts'| == |acts| + 1 && acts'[..|acts|] == acts
      ensures AdaptiveRun(env, rng, tF, params, run', acts', e)
    {
      ghost var w, s1;
      e, w, s1 := AdaptiveIteration(env, rng, tF, run[|acts|]);
      AdaptiveRunExtend(env, rng, tF, params, run, acts, w, e, s1);
      run', acts' := run + [s1], acts + [w];
    }

    /** A pass of EvaluateExactUntil's loop as the loop keeps its record, as
        AdaptivePass. */
    method ExactPass(env: Env, rng: Rng, tF: real, ghost run: seq<Snapshot>)
      returns (e: Option<Error>, ghost run': seq<Snapshot>)
      requires Valid() && rng.Valid()
      requires ExactRun(env, rng, tF, params, run, None) && run[|run| - 1] == SnapshotOf(rng)
      requires RunContinues(t, tF, params.maxSteps, |run| - 1, Halted())
      modifies x, this`rates, this`t, this`lastTransition, this`timeSeries, rng
      ensures Valid() && rng.Valid()
      ensures old(Chronological()) ==> Chronological()
      ensures old(t) <= t <= tF
      ensures old(timeSeries) <= timeSeries
      ensures e.Some? ==> e.value.NegativeVariable? || e.value.RateCountMismatch? || e.value.NegativeRate?
      ensures run' == run + [SnapshotOf(rng)]
      ensures ExactRun(env, rng, tF, params, run', e)
    {
      ghost var s1;
      e, s1 := ExactIteration(env, rng, tF, run[|run| - 1]);
      ExactRunExtend(env, rng, tF, params, run, e, s1);
      run' := run + [s1];
    }

    /** EvaluateATLUntil (adaptivetau.cpp:307-327): record the initial point
        at time 0, then run the adaptive loop; the run starts from the engine
        with that point recorded. */
    method EvaluateATLUntil(env: Env, rng: Rng, tF: real, fuel: nat)
      returns (end: RunEnd, ghost run: seq<Snapshot>, ghost acts: seq<StepAccount>)
      requires Valid() && rng.Valid()
      modifies x, this`rates, this`normal, this`critical, this`t, this`prevStepType, this`lastTransition,
               this`timeSeries, rng
      ensures Valid() && rng.Valid()
      ensures old(timeSeries) == [] ==> Chronological()
      ensures |old(timeSeries)| < |timeSeries| && timeSeries[|old(timeSeries)|] == TimePoint(0.0, old(x[..]))
      ensures old(t) <= t && (old(t) < tF ==> t <= tF)
      ensures end.steps <= fuel
      ensures end.Finished? ==> !RunContinues(t, tF, params.maxSteps, end.steps, Halted())
      ensures end.Interrupted? ==> end.steps % 10 == 0 && env.interrupt(end.steps)
      ensures end.OutOfFuel? ==> end.steps == fuel && RunContinues(t, tF, params.maxSteps, end.steps, Halted())
      ensures |acts| == end.steps + (if end.Failed? then 1 else 0)
      ensures AdaptiveRun(env, rng, tF, params, run, acts, if end.Failed? then Some(end.error) else None)
      ensures run[0] == Snapshot(Stand(old(x[..]), old(t), old(timeSeries) + [TimePoint(0.0, old(x[..]))],
                                       old(lastTransition), old(rng.pos)),
                                 old(rates), old(normal), old(critical), old(prevStepType))
      ensures run[|run| - 1] == SnapshotOf(rng)
      ensures NoInterruptBy(env.interrupt, if end.Interrupted? then end.steps - 1 else end.steps)
      ensures !RunContinues(old(t), tF, params.maxSteps, 0, old(Halted())) ==>
        end == Finished(0) && x[..] == old(x[..]) && t == old(t) && |timeSeries| == |old(timeSeries)| + 1
    {
      timeSeries := timeSeries + [TimePoint(0.0, x[..])];
      RecordStart(old(timeSeries), t, old(x[..]), numStates);
      ghost var ts := timeSeries;
      end, run, acts := AdaptiveLoop(env, rng, tF, fuel);
      assert timeSeries[|old(timeSeries)|] == timeSeries[..|ts|][|old(timeSeries)|];
    }

    /** EvaluateATLUntil's loop (adaptivetau.cpp:312-325): while time is left,
        the step cap is not reached and no halting transition fired, recompute
        the rates and take one adaptive step, polling for an interrupt every
        tenth step. `run` holds the engine before each pass and after the
        last, and `acts` the account of each pass's step. */
    method AdaptiveLoop(env: Env, rng: Rng, tF: real, fuel: nat)
      returns (end: RunEnd, ghost run: seq<Snapshot>, ghost acts: seq<StepAccount>)
      requires Valid() && rng.Valid()
      modifies x, this`rates, this`normal, this`critical, this`t, this`prevStepType, this`lastTransition,
               this`timeSeries, rng
      ensures Valid() && rng.Valid()
      ensures old(Chronological()) ==> Chronological()
      ensures old(timeSeries) <= timeSeries
      ensures old(t) <= t && (old(t) < tF ==> t <= tF)
      ensures end.steps <= fuel
      ensures end.Finished? ==> !RunContinues(t, tF, params.maxSteps, end.steps, Halted())
      ensures end.Interrupted? ==> end.steps % 10 == 0 && env.interrupt(end.steps)
      ensures end.OutOfFuel? ==> end.steps == fuel && RunContinues(t, tF, params.maxSteps, end.steps, Halted())
      ensures |acts| == end.steps + (if end.Failed? then 1 else 0)
      ensures AdaptiveRun(env, rng, tF, params, run, acts, if end.Failed? then Some(end.error) else None)
      ensures run[0] == old(SnapshotOf(rng)) && run[|run| - 1] == SnapshotOf(rng)
      ensures NoInterruptBy(env.interrupt, if end.Interrupted? then end.steps - 1 else end.steps)
      ensures !RunContinues(old(t), tF, params.maxSteps, 0, old(Halted())) ==>
        end == Finished(0) && x[..] == old(x[..]) && t == old(t) && timeSeries == old(timeSeries)
    {
      var c: nat := 0;
      ghost var s0 := SnapshotOf(rng);
      run, acts := [s0], [];
      end := Finished(0);
      while t < tF && (params.maxSteps == 0 || c < params.maxSteps) && !Halted()
        invariant Valid() && rng.Valid()
        invariant c <= fuel
        invariant old(Chronological()) ==> Chronological()
        invariant old(timeSeries) <= timeSeries
        invariant old(t) <= t && (old(t) < tF ==> t <= tF)
        invariant |acts| == c && |run| == c + 1 && run[0] == s0 && run[c] == SnapshotOf(rng)
        invariant AdaptiveRun(env, rng, tF, params, run, acts, None) && NoInterruptBy(env.interrupt, c)
        invariant end == Finished(0)
        decreases fuel - c
      {
        if c == fuel {
          end := OutOfFuel(c);
          break;
        }
        var e;
        e, run, acts := AdaptivePass(env, rng, tF, run, acts);
        if e.Some? {
          end := Failed(c, e.value);
          break;
        }
        c := c + 1;
        if c % 10 == 0 && env.interrupt(c) {
          end := Interrupted(c);
          break;
        }
      }
      if end.Finished? {
        end := Finished(c);
      }
    }

    /** EvaluateExactUntil (adaptivetau.cpp:328-348): record the initial point
        at time 0, reset the last transition, then run the exact loop; the
        run starts from the engine with that point recorded and no last
        transition. */
    method EvaluateExactUntil(env: Env, rng: Rng, tF: real, fuel: nat)
      returns (end: RunEnd, ghost run: seq<Snapshot>)
      requires Valid() && rng.Valid()
      modifies x, this`rates, this`t, this`lastTransition, this`timeSeries, rng
      ensures Valid() && rng.Valid()
      ensures old(timeSeries) == [] ==> Chronological()
      ensures |old(timeSeries)| < |timeSeries| && timeSeries[|old(timeSeries)|] == TimePoint(0.0, old(x[..]))
      ensures old(t) <= t && (old(t) < tF ==> t <= tF)
      ensures end.steps <= fuel
      ensures end.Finished? ==> !RunContinues(t, tF, params.maxSteps, end.steps, Halted())
      ensures end.Interrupted? ==> end.steps % 10 == 0 && env.interrupt(end.steps)
      ensures end.OutOfFuel? ==> end.steps == fuel && RunContinues(t, tF, params.maxSteps, end.steps, Halted())
      ensures end.Failed? ==> end.error.NegativeVariable? || end.error.RateCountMismatch? || end.error.NegativeRate?
      ensures |run| == end.steps + (if end.Failed? then 1 else 0) + 1
      ensures ExactRun(env, rng, tF, params, run, if end.Failed? then Some(end.error) else None)
      ensures run[0] == Snapshot(Stand(old(x[..]), old(t), old(timeSeries) + [TimePoint(0.0, old(x[..]))], -1,
                                       old(rng.pos)),
                                 old(rates), old(normal), old(critical), old(prevStepType))
      ensures run[|run| - 1] == SnapshotOf(rng)
      ensures NoInterruptBy(env.interrupt, if end.Interrupted? then end.steps - 1 else end.steps)
      ensures !RunContinues(old(t), tF, params.maxSteps, 0, false) ==>
        end == Finished(0) && x[..] == old(x[..]) && t == old(t) && |timeSeries| == |old(timeSeries)| + 1
    {
      timeSeries := timeSeries + [TimePoint(0.0, x[..])];
      RecordStart(old(timeSeries), t, old(x[..]), numStates);
      lastTransition := -1;
      ghost var ts := timeSeries;
      end, run := ExactLoop(env, rng, tF, fuel);
      assert timeSeries[|old(timeSeries)|] == timeSeries[..|ts|][|old(timeSeries)|];
    }

    /** EvaluateExactUntil's loop (adaptivetau.cpp:333-346): as AdaptiveLoop,
        with one exact step per pass; only a rate update can fail. */
    method ExactLoop(env: Env, rng: Rng, tF: real, fuel: nat)
      returns (end: RunEnd, ghost run: seq<Snapshot>)
      requires Valid() && rng.Valid()
      modifies x, this`rates, this`t, this`lastTransition, this`timeSeries, rng
      ensures Valid() && rng.Valid()
      ensures old(Chronological()) ==> Chronological()
      ensures old(timeSeries) <= timeSeries
      ensures old(t) <= t && (old(t) < tF ==> t <= tF)
      ensures end.steps <= fuel
      ensures end.Finished? ==> !RunContinues(t, tF, params.maxSteps, end.steps, Halted())
      ensures end.Interrupted? ==> end.steps % 10 == 0 && env.interrupt(end.steps)
      ensures end.OutOfFuel? ==> end.steps == fuel && RunContinues(t, tF, params.maxSteps, end.steps, Halted())
      ensures end.Failed? ==> end.error.NegativeVariable? || end.error.RateCountMismatch? || end.error.NegativeRate?
      ensures |run| == end.steps + (if end.Failed? then 1 else 0) + 1
      ensures ExactRun(env, rng, tF, params, run, if end.Failed? then Some(end.error) else None)
      ensures run[0] == old(SnapshotOf(rng)) && run[|run| - 1] == SnapshotOf(rng)
      ensures NoInterruptBy(env.interrupt, if end.Interrupted? then end.steps - 1 else end.steps)
      ensures !RunContinues(old(t), tF, params.maxSteps, 0, old(Halted())) ==>
        end == Finished(0) && x[..] == old(x[..]) && t == old(t) && timeSeries == old(timeSeries)
    {
      var c: nat := 0;
      ghost var s0 := SnapshotOf(rng);
      run := [s0];
      end := Finished(0);
      while t < tF && (params.maxSteps == 0 || c < params.maxSteps) && !Halted()
        invariant Valid() && rng.Valid()
        invariant c <= fuel
        invariant old(Chronological()) ==> Chronological()
        invariant old(timeSeries) <= timeSeries
        invariant old(t) <= t && (old(t) < tF ==> t <= tF)
        invariant |run| == c + 1 && run[0] == s0 && run[c] == SnapshotOf(rng)
        invariant ExactRun(env, rng, tF, params, run, None) && NoInterruptBy(env.interrupt, c)
        invariant end == Finished(0)
        decreases fuel - c
      {
        if c == fuel {
          end := OutOfFuel(c);
          break;
        }
        var e;
        e, run := ExactPass(env, rng, tF, run);
        if e.Some? {
          end := Failed(c, e.value);
          break;
        }
        c := c + 1;
        if c % 10 == 0 && env.interrupt(c) {
          end := Interrupted(c);
          break;
        }
      }
      if end.Finished? {
        end := Finished(c);
      }
    }
  }

  // ---------------------------------------------------------------------
  // Entry points

  /** The trajectory a result carries. */
  function SeriesOf(r: SimResult): seq<TimePoint> {
    match r
    case Dynamics(series) => series
    case WithHalting(dynamics, _) => dynamics
  }

  /** The trajectory of a run that was not cut short by an error: it starts
      at time 0 with the initial state, is in time order and, for a positive
      final time, ends no later than it. */
  ghost predicate Trajectory(ts: seq<TimePoint>, x0: seq<int>, tf: real) {
    && |ts| >= 1 && ts[0] == TimePoint(0.0, x0)
    && Nondecreasing(ts)
    && (0.0 < tf ==> forall k :: 0 <= k < |ts| ==> ts[k].t <= tf)
  }

  /** A record that starts with the initial point, is in time order and is
      bounded by a current time no later than a positive final time is a
      trajectory. */
  lemma RecordIsTrajectory(ts: seq<TimePoint>, x0: seq<int>, t: real, tf: real, n: nat)
    requires |ts| >= 1 && ts[0] == TimePoint(0.0, x0)
    requires Nondecreasing(ts) && RecordedBy(ts, t, n)
    requires 0.0 < tf ==> t <= tf
    ensures Trajectory(ts, x0, tf)
  {
  }

  /** The CStochasticEqns constructor (adaptivetau.cpp:83-233): the table
      built from the inputs, or the error the first failing check throws;
      a new engine at time 0 in the initial state with the default
      parameters and an empty trajectory. */
  method NewEngine(x0: seq<int>, names: Option<seq<string>>, input: NuInput, det: Flags, halt: Flags)
    returns (r: Result<StochasticEqns>)
    requires input.Dense? ==> IsMatrix(input.rows, input.ncol) && |input.rows| == |x0|
    requires FlagsPositive(det) && FlagsPositive(halt)
    ensures r.Ok? <==> Buildable(x0, names, input, det, halt)
    ensures r.Ok? ==>
      var e := r.value;
      && fresh(e) && fresh(e.x) && e.Valid() && e.Chronological()
      && e.x[..] == x0 && e.t == 0.0 && e.timeSeries == [] && e.lastTransition == -1
      && e.params == DefaultParams() && e.prevStepType == Exact
      && NuMatches(input, names, |x0|, e.nu)
      && e.detList == FlagList(det) && e.haltList == FlagList(halt)
  {
    var built := Build(x0, names, input, det, halt);
    if built.Err? {
      return Err(built.error);
    }
    var e := new StochasticEqns(built.value, x0);
    r := Ok(e);
  }

  /** The adaptive run of a new engine and the result it returns (the
      second half of simAdaptiveTau, adaptivetau.cpp:1318-1330): the error
      that stopped the run, or the recorded trajectory. */
  method RunAdaptive(eqns: StochasticEqns, x0: seq<int>, env: Env, rng: Rng, tf: real, fuel: nat)
    returns (r: Result<SimResult>)
    requires eqns.Valid() && eqns.Chronological() && rng.Valid()
    requires eqns.x[..] == x0 && eqns.t == 0.0 && eqns.timeSeries == []
    modifies eqns, eqns.x, rng
    ensures r.Ok? ==> Trajectory(SeriesOf(r.value), x0, tf)
    ensures r.Ok? ==> (r.value.Dynamics? <==> eqns.haltList == [])
  {
    var end; ghost var run, acts;
    end, run, acts := eqns.EvaluateATLUntil(env, rng, tf, fuel);
    if end.Failed? {
      return Err(end.error);
    }
    RecordIsTrajectory(eqns.timeSeries, x0, eqns.t, tf, eqns.numStates);
    r := Ok(eqns.GetResult());
  }

  /** The exact run of a new engine and its result (simExact,
      adaptivetau.cpp:1351-1362). */
  method RunExact(eqns: StochasticEqns, x0: seq<int>, env: Env, rng: Rng, tf: real, fuel: nat)
    returns (r: Result<SimResult>)
    requires eqns.Valid() && eqns.Chronological() && rng.Valid()
    requires eqns.x[..] == x0 && eqns.t == 0.0 && eqns.timeSeries == []
    modifies eqns, eqns.x, rng
    ensures r.Ok? ==> Trajectory(SeriesOf(r.value), x0, tf)
    ensures r.Ok? ==> (r.value.Dynamics? <==> eqns.haltList == [])
    ensures r.Err? ==> r.error.NegativeVariable? || r.error.RateCountMismatch? || r.error.NegativeRate?
  {
    var end; ghost var run;
    end, run := eqns.EvaluateExactUntil(env, rng, tf, fuel);
    if end.Failed? {
      return Err(end.error);
    }
    RecordIsTrajectory(eqns.timeSeries, x0, eqns.t, tf, eqns.numStates);
    r := Ok(eqns.GetResult());
  }

  /** simAdaptiveTau (adaptivetau.cpp:1282-1331): a dense transition matrix
      must have one row per state variable; then the engine is built, the
      optional settings applied and the adaptive run taken. An interrupt
      ends the run with its result (the source's warning); any other
      failure is the error R reports. */
  method SimAdaptiveTau(x0: seq<int>, names: Option<seq<string>>, input: NuInput, det: Flags, halt: Flags,
                        tlParams: Option<seq<Setting>>, env: Env, rng: Rng, tf: real, fuel: nat)
    returns (r: Result<SimResult>)
    requires input.Dense? ==> IsMatrix(input.rows, input.ncol)
    requires FlagsPositive(det) && FlagsPositive(halt) && rng.Valid()
    modifies rng
    ensures input.Dense? && |input.rows| != |x0| ==> r == Err(InvalidTransitionMatrix)
    ensures !(input.Dense? && |input.rows| != |x0|) && !Buildable(x0, names, input, det, halt) ==> r.Err?
    ensures r.Ok? ==> Buildable(x0, names, input, det, halt)
    ensures r.Ok? && tlParams.Some? ==> ApplyAll(DefaultParams(), tlParams.value).Ok?
    ensures r.Ok? ==> Trajectory(SeriesOf(r.value), x0, tf)
    ensures r.Ok? ==> (r.value.Dynamics? <==> FlagList(halt) == [])
  {
    if input.Dense? && |input.rows| != |x0| {
      return Err(InvalidTransitionMatrix);
    }
    var made := NewEngine(x0, names, input, det, halt);
    if made.Err? {
      return Err(made.error);
    }
    var eqns := made.value;
    if tlParams.Some? {
      var e := eqns.SetTLParams(tlParams.value);
      if e.Some? {
        return Err(e.value);
      }
    }
    r := RunAdaptive(eqns, x0, env, rng, tf, fuel);
  }

  /** simExact (adaptivetau.cpp:1335-1363): as simAdaptiveTau without
      deterministic or halting transitions and settings, with the exact run. */
  method SimExact(x0: seq<int>, names: Option<seq<string>>, input: NuInput, env: Env, rng: Rng, tf: real, fuel: nat)
    returns (r: Result<SimResult>)
    requires input.Dense? ==> IsMatrix(input.rows, input.ncol)
    requires rng.Valid()
    modifies rng
    ensures input.Dense? && |input.rows| != |x0| ==> r == Err(InvalidTransitionMatrix)
    ensures !(input.Dense? && |input.rows| != |x0|) && !Buildable(x0, names, input, NoFlags, NoFlags) ==> r.Err?
    ensures r.Ok? ==> Buildable(x0, names, input, NoFlags, NoFlags)
    ensures r.Ok? ==> r.value.Dynamics? && Trajectory(r.value.series, x0, tf)
    ensures r.Err? && !(input.Dense? && |input.rows| != |x0|) && Buildable(x0, names, input, NoFlags, NoFlags) ==>
      r.error.NegativeVariable? || r.error.RateCountMismatch? || r.error.NegativeRate?
  {
    if input.Dense? && |input.rows| != |x0| {
      return Err(InvalidTransitionMatrix);
    }
    var made := NewEngine(x0, names, input, NoFlags, NoFlags);
    if made.Err? {
      return Err(made.error);
    }
    var eqns := made.value;
    r := RunExact(eqns, x0, env, rng, tf, fuel);
  }
}
