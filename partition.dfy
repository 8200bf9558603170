/** The per-step classification of x_SingleStepATL (adaptivetau.cpp:1117-1153)
    and the roulette sums of the exact step (adaptivetau.cpp:778-790) and of
    the critical pick (adaptivetau.cpp:726-739), as functions of the state and
    the rates. */
module Partition {
  import opened Types
  import opened Stoichiometry

  // ---------------------------------------------------------------------
  // Critical transitions

  /** `minTimes` of the source: starting at the largest unsigned int, the
      least `x[s] / |mag|` over the entries with a negative magnitude, in list
      order. The source divides doubles and stores the quotient in an unsigned
      int; for a nonnegative state that is the floor, Dafny's `/` here. */
  function MinTimes(x: seq<int>, cs: seq<Change>): (m: int)
    requires InBounds(cs, |x|)
    ensures m <= UINT_MAX
  {
    if cs == [] then UINT_MAX
    else
      var m0 := MinTimes(x, cs[..|cs| - 1]);
      var c := cs[|cs| - 1];
      if c.mag < 0 && x[c.state] / (0 - c.mag) < m0 then x[c.state] / (0 - c.mag) else m0
  }

  /** How many more times entry `c` lets its transition fire before its
      state variable would go negative. */
  function Headroom(x: seq<int>, c: Change): int
    requires c.state < |x| && c.mag < 0
  {
    x[c.state] / (0 - c.mag)
  }

  /** `MinTimes` is the minimum of the headrooms of the negative entries,
      or the start value when there are none. */
  lemma {:induction false} MinTimesIsMinimum(x: seq<int>, cs: seq<Change>)
    requires InBounds(cs, |x|)
    ensures forall i :: 0 <= i < |cs| && cs[i].mag < 0 ==> MinTimes(x, cs) <= Headroom(x, cs[i])
    ensures MinTimes(x, cs) == UINT_MAX ||
            exists i :: 0 <= i < |cs| && cs[i].mag < 0 && MinTimes(x, cs) == Headroom(x, cs[i])
  {
    if cs != [] {
      var n := |cs| - 1;
      MinTimesIsMinimum(x, cs[..n]);
      var m0 := MinTimes(x, cs[..n]);
      forall i | 0 <= i < |cs| && cs[i].mag < 0 ensures MinTimes(x, cs) <= Headroom(x, cs[i]) {
        if i < n {
          assert cs[..n][i] == cs[i];
        }
      }
      if MinTimes(x, cs) != UINT_MAX {
        if MinTimes(x, cs) == m0 {
          var i :| 0 <= i < n && cs[..n][i].mag < 0 && m0 == Headroom(x, cs[..n][i]);
          assert cs[i] == cs[..n][i];
        } else {
          assert MinTimes(x, cs) == Headroom(x, cs[n]);
        }
      }
    }
  }

  /** The source's test `minTimes < Ncritical`. */
  predicate IsCritical(x: seq<int>, cs: seq<Change>, nCritical: nat)
    requires InBounds(cs, |x|)
  {
    MinTimes(x, cs) < nCritical
  }

  /** A transition is critical exactly when one of its consuming entries
      leaves room for fewer than `Ncritical` firings; so a transition that
      consumes nothing is never critical. */
  lemma CriticalIff(x: seq<int>, cs: seq<Change>, nCritical: nat)
    requires InBounds(cs, |x|) && nCritical <= UINT_MAX
    ensures IsCritical(x, cs, nCritical) <==>
            exists i :: 0 <= i < |cs| && cs[i].mag < 0 && Headroom(x, cs[i]) < nCritical
  {
    MinTimesIsMinimum(x, cs);
  }

  // ---------------------------------------------------------------------
  // The dynamic lists

  /** The statically normal transitions below `m` whose criticality is
      `crit`, in increasing order (the push_back loop over `j`). */
  function DynList(x: seq<int>, nu: seq<seq<Change>>, cats: seq<Cat>, nCritical: nat, crit: bool, m: nat): seq<nat>
    requires ValidTable(nu, |x|) && |cats| == |nu| && m <= |nu|
  {
    if m == 0 then []
    else
      DynList(x, nu, cats, nCritical, crit, m - 1) +
      (if cats[m - 1] == Normal && IsCritical(x, nu[m - 1], nCritical) == crit then [m - 1] else [])
  }

  /** Strictly increasing index list. */
  predicate Increasing(js: seq<nat>) {
    forall k1, k2 :: 0 <= k1 < k2 < |js| ==> js[k1] < js[k2]
  }

  /** A dynamic list holds exactly the normal transitions of the given
      criticality, each once, in increasing order. */
  lemma {:induction false} DynListExact(x: seq<int>, nu: seq<seq<Change>>, cats: seq<Cat>, nCritical: nat, crit: bool, m: nat)
    requires ValidTable(nu, |x|) && |cats| == |nu| && m <= |nu|
    ensures var r := DynList(x, nu, cats, nCritical, crit, m);
      && IndicesBelow(r, m)
      && Increasing(r)
      && (forall j :: 0 <= j < m ==> (j in r <==> cats[j] == Normal && IsCritical(x, nu[j], nCritical) == crit))
  {
    if m > 0 {
      DynListExact(x, nu, cats, nCritical, crit, m - 1);
      var r0 := DynList(x, nu, cats, nCritical, crit, m - 1);
      var r := DynList(x, nu, cats, nCritical, crit, m);
      if cats[m - 1] == Normal && IsCritical(x, nu[m - 1], nCritical) == crit {
        assert r == r0 + [m - 1];
        assert r[|r0|] == m - 1;
        forall k1, k2 | 0 <= k1 < k2 < |r| ensures r[k1] < r[k2] {
          assert r[k1] == r0[k1];
        }
      } else {
        assert r == r0;
      }
      forall j | 0 <= j < m ensures j in r <==> cats[j] == Normal && IsCritical(x, nu[j], nCritical) == crit {
        if j < m - 1 {
          assert j in r0 ==> j in r;
          assert j in r ==> j in r0 || j == m - 1;
        }
      }
    }
  }

  /** Every statically normal transition lands in exactly one of the two
      lists; deterministic and halting transitions land in neither. */
  lemma PartitionExact(x: seq<int>, nu: seq<seq<Change>>, cats: seq<Cat>, nCritical: nat, j: nat)
    requires ValidTable(nu, |x|) && |cats| == |nu| && j < |nu|
    ensures var normal := DynList(x, nu, cats, nCritical, false, |nu|);
      var critical := DynList(x, nu, cats, nCritical, true, |nu|);
      && (cats[j] == Normal ==> (j in normal <==> j !in critical))
      && (cats[j] != Normal ==> j !in normal && j !in critical)
  {
    DynListExact(x, nu, cats, nCritical, false, |nu|);
    DynListExact(x, nu, cats, nCritical, true, |nu|);
  }

  // ---------------------------------------------------------------------
  // Roulette of the exact step

  /** The summed rate of the transitions below `m` that are not deterministic
      (`stochRate` of x_SingleStepExact). */
  function StochRate(rates: seq<real>, cats: seq<Cat>, m: nat): real
    requires |cats| == |rates| && m <= |rates|
  {
    if m == 0 then 0.0
    else StochRate(rates, cats, m - 1) + (if cats[m - 1] != Deterministic then rates[m - 1] else 0.0)
  }

  /** With nonnegative rates the stochastic rate is nonnegative. */
  lemma {:induction false} StochRateNonneg(rates: seq<real>, cats: seq<Cat>, m: nat)
    requires |cats| == |rates| && m <= |rates|
    requires forall j :: 0 <= j < |rates| ==> rates[j] >= 0.0
    ensures StochRate(rates, cats, m) >= 0.0
  {
    if m > 0 {
      StochRateNonneg(rates, cats, m - 1);
    }
  }

  /** The roulette's running sum `d` after the first `m` transitions: the sum
      of `rate / stochRate` over the non-deterministic ones. */
  function Cum(rates: seq<real>, cats: seq<Cat>, s: real, m: nat): real
    requires |cats| == |rates| && m <= |rates| && s != 0.0
  {
    if m == 0 then 0.0
    else Cum(rates, cats, s, m - 1) + (if cats[m - 1] != Deterministic then rates[m - 1] / s else 0.0)
  }

  /** Summing the ratios is dividing the sum: the running sum reaches 1 at the end. */
  lemma {:induction false} CumIsRatio(rates: seq<real>, cats: seq<Cat>, s: real, m: nat)
    requires |cats| == |rates| && m <= |rates| && s != 0.0
    ensures Cum(rates, cats, s, m) == StochRate(rates, cats, m) / s
  {
    if m > 0 {
      CumIsRatio(rates, cats, s, m - 1);
    }
  }

  /** Over all the transitions the running sum of `rate / stochRate` is 1. */
  lemma CumReachesOne(rates: seq<real>, cats: seq<Cat>, s: real)
    requires |cats| == |rates| && s > 0.0 && s == StochRate(rates, cats, |rates|)
    ensures Cum(rates, cats, s, |rates|) == 1.0
  {
    CumIsRatio(rates, cats, s, |rates|);
    assert s / s == 1.0;
  }

  /** With nonnegative rates the running sum never decreases. */
  lemma {:induction false} CumMonotone(rates: seq<real>, cats: seq<Cat>, s: real, m1: nat, m2: nat)
    requires |cats| == |rates| && m1 <= m2 <= |rates| && s > 0.0
    requires forall j :: 0 <= j < |rates| ==> rates[j] >= 0.0
    ensures Cum(rates, cats, s, m1) <= Cum(rates, cats, s, m2)
  {
    if m1 < m2 {
      CumMonotone(rates, cats, s, m1, m2 - 1);
    }
  }

  /** The transition the roulette lands on: the sum first reaches `r` at it. */
  predicate ExactChoice(rates: seq<real>, cats: seq<Cat>, s: real, r: real, j: nat)
    requires |cats| == |rates| && s != 0.0
  {
    j < |rates| && Cum(rates, cats, s, j) < r <= Cum(rates, cats, s, j + 1)
  }

  /** The chosen transition is a stochastic one with a positive rate, the
      set of draws `r` that choose it is an interval of length
      `rate / stochRate`, and no other transition is chosen by the same draw. */
  lemma ExactChoiceProperties(rates: seq<real>, cats: seq<Cat>, s: real, r: real, j: nat)
    requires |cats| == |rates| && s > 0.0
    requires forall j' :: 0 <= j' < |rates| ==> rates[j'] >= 0.0
    requires ExactChoice(rates, cats, s, r, j)
    ensures cats[j] != Deterministic && rates[j] > 0.0
    ensures Cum(rates, cats, s, j + 1) - Cum(rates, cats, s, j) == rates[j] / s
    ensures forall j' :: 0 <= j' < |rates| && ExactChoice(rates, cats, s, r, j') ==> j' == j
  {
    forall j' | 0 <= j' < |rates| && ExactChoice(rates, cats, s, r, j') ensures j' == j {
      if j' < j {
        CumMonotone(rates, cats, s, j' + 1, j);
      } else if j < j' {
        CumMonotone(rates, cats, s, j + 1, j');
      }
    }
  }

  // ---------------------------------------------------------------------
  // Roulette of the critical pick

  /** The running sum of x_PickCritical after the first `p` critical
      transitions: the sum of `rate / critRate`. */
  function CritCum(rates: seq<real>, crit: seq<nat>, s: real, p: nat): real
    requires IndicesBelow(crit, |rates|) && p <= |crit| && s != 0.0
  {
    if p == 0 then 0.0 else CritCum(rates, crit, s, p - 1) + rates[crit[p - 1]] / s
  }

  /** The running sum is the summed rate of the prefix over `critRate`. */
  lemma {:induction false} CritCumIsRatio(rates: seq<real>, crit: seq<nat>, s: real, p: nat)
    requires IndicesBelow(crit, |rates|) && p <= |crit| && s != 0.0
    ensures CritCum(rates, crit, s, p) == SumRates(rates, crit[..p]) / s
  {
    if p > 0 {
      CritCumIsRatio(rates, crit, s, p - 1);
      assert crit[..p][..p - 1] == crit[..p - 1];
    }
  }

  /** When `critRate` is the summed rate of the critical list, the running
      sum ends at exactly 1. */
  lemma CritCumTotal(rates: seq<real>, crit: seq<nat>, s: real)
    requires IndicesBelow(crit, |rates|) && s != 0.0 && s == SumRates(rates, crit)
    ensures CritCum(rates, crit, s, |crit|) == 1.0
  {
    CritCumIsRatio(rates, crit, s, |crit|);
    assert crit[..|crit|] == crit;
  }

  /** With nonnegative rates the critical running sum never decreases. */
  lemma {:induction false} CritCumMonotone(rates: seq<real>, crit: seq<nat>, s: real, p1: nat, p2: nat)
    requires IndicesBelow(crit, |rates|) && p1 <= p2 <= |crit| && s > 0.0
    requires forall j :: 0 <= j < |rates| ==> rates[j] >= 0.0
    ensures CritCum(rates, crit, s, p1) <= CritCum(rates, crit, s, p2)
  {
    if p1 < p2 {
      CritCumMonotone(rates, crit, s, p1, p2 - 1);
    }
  }

  /** The position the critical pick stops at: the first one whose running
      sum exceeds the draw `r` (the `d > r` break). */
  predicate CritPick(rates: seq<real>, crit: seq<nat>, s: real, r: real, p: nat)
    requires IndicesBelow(crit, |rates|) && s != 0.0
  {
    p < |crit| && CritCum(rates, crit, s, p) <= r < CritCum(rates, crit, s, p + 1)
  }

  /** The picked transition has a positive rate, the draws that pick position
      `p` form an interval of length `rate / critRate`, and no other position
      is picked by the same draw. */
  lemma CritPickProperties(rates: seq<real>, crit: seq<nat>, s: real, r: real, p: nat)
    requires IndicesBelow(crit, |rates|) && s > 0.0
    requires forall j :: 0 <= j < |rates| ==> rates[j] >= 0.0
    requires CritPick(rates, crit, s, r, p)
    ensures rates[crit[p]] > 0.0
    ensures CritCum(rates, crit, s, p + 1) - CritCum(rates, crit, s, p) == rates[crit[p]] / s
    ensures forall p' :: 0 <= p' < |crit| && CritPick(rates, crit, s, r, p') ==> p' == p
  {
    forall p' | 0 <= p' < |crit| && CritPick(rates, crit, s, r, p') ensures p' == p {
      if p' < p {
        CritCumMonotone(rates, crit, s, p' + 1, p);
      } else if p < p' {
        CritCumMonotone(rates, crit, s, p + 1, p');
      }
    }
  }
}
