/** Applying stoichiometry to a state vector: one change list applied k times,
    a leap that applies several transitions with their firing counts, and sums
    of rates over index lists. Each operation is defined in the order the
    source's loops run and is related to a closed form by a lemma. */
module Stoichiometry {
  import opened Types

  /** The state after adding `k * mag` for every entry of `cs`, entry by entry
      in list order (the inner loops at adaptivetau.cpp:794-796, 1082-1084,
      1246-1248). */
  function ApplyChanges(x: seq<int>, cs: seq<Change>, k: int): (r: seq<int>)
    requires InBounds(cs, |x|)
    ensures |r| == |x|
  {
    if cs == [] then x
    else
      var c := cs[|cs| - 1];
      var y := ApplyChanges(x, cs[..|cs| - 1], k);
      y[c.state := y[c.state] + k * c.mag]
  }

  /** The net change a single firing makes to state variable `s`: the sum of
      the magnitudes of the entries of `cs` that name `s`. */
  function NetChange(cs: seq<Change>, s: nat): int {
    if cs == [] then 0
    else NetChange(cs[..|cs| - 1], s) + (if cs[|cs| - 1].state == s then cs[|cs| - 1].mag else 0)
  }

  /** Applying a change list `k` times adds `k` times its net change to every variable. */
  lemma {:induction false} ApplyChangesAt(x: seq<int>, cs: seq<Change>, k: int, s: nat)
    requires InBounds(cs, |x|) && s < |x|
    ensures ApplyChanges(x, cs, k)[s] == x[s] + k * NetChange(cs, s)
  {
    if cs != [] {
      var init := cs[..|cs| - 1];
      ApplyChangesAt(x, init, k, s);
      var c := cs[|cs| - 1];
      var d := if c.state == s then c.mag else 0;
      assert k * NetChange(cs, s) == k * NetChange(init, s) + k * d;
    }
  }

  /** A change list applied zero times leaves the state as it was (why the
      source may skip transitions with k == 0). */
  lemma ApplyZero(x: seq<int>, cs: seq<Change>)
    requires InBounds(cs, |x|)
    ensures ApplyChanges(x, cs, 0) == x
  {
    forall s | 0 <= s < |x| ensures ApplyChanges(x, cs, 0)[s] == x[s] {
      ApplyChangesAt(x, cs, 0, s);
    }
  }

  /** Variables no entry of `cs` names are not touched. */
  lemma {:induction false} ApplyChangesUntouched(x: seq<int>, cs: seq<Change>, k: int, s: nat)
    requires InBounds(cs, |x|) && s < |x|
    requires forall i :: 0 <= i < |cs| ==> cs[i].state != s
    ensures ApplyChanges(x, cs, k)[s] == x[s]
  {
    if cs != [] {
      ApplyChangesUntouched(x, cs[..|cs| - 1], k, s);
    }
  }

  /** `js[i]` are transitions of `nu` and `ks[i]` their firing counts. */
  predicate LeapShape(nu: seq<seq<Change>>, js: seq<nat>, ks: seq<int>) {
    |js| == |ks| && IndicesBelow(js, |nu|)
  }

  /** The state after applying, in list order, transition `js[i]` `ks[i]` times
      (the outer loop at adaptivetau.cpp:1069-1087). */
  function ApplyLeap(x: seq<int>, nu: seq<seq<Change>>, js: seq<nat>, ks: seq<int>): (r: seq<int>)
    requires ValidTable(nu, |x|) && LeapShape(nu, js, ks)
    ensures |r| == |x|
  {
    if js == [] then x
    else
      var n := |js| - 1;
      ApplyChanges(ApplyLeap(x, nu, js[..n], ks[..n]), nu[js[n]], ks[n])
  }

  /** The closed form of a leap on one variable: the sum over the firing
      transitions of count times net change. */
  function LeapNet(nu: seq<seq<Change>>, js: seq<nat>, ks: seq<int>, s: nat): int
    requires LeapShape(nu, js, ks)
  {
    if js == [] then 0
    else
      var n := |js| - 1;
      LeapNet(nu, js[..n], ks[..n], s) + ks[n] * NetChange(nu[js[n]], s)
  }

  /** A leap adds Σ k_j · ν_j to the state, whatever the order of the list. */
  lemma {:induction false} LeapAt(x: seq<int>, nu: seq<seq<Change>>, js: seq<nat>, ks: seq<int>, s: nat)
    requires ValidTable(nu, |x|) && LeapShape(nu, js, ks) && s < |x|
    ensures ApplyLeap(x, nu, js, ks)[s] == x[s] + LeapNet(nu, js, ks, s)
  {
    if js != [] {
      var n := |js| - 1;
      LeapAt(x, nu, js[..n], ks[..n], s);
      ApplyChangesAt(ApplyLeap(x, nu, js[..n], ks[..n]), nu[js[n]], ks[n], s);
    }
  }

  /** Sum of `rates[j]` over the transitions `j` of an index list. */
  function SumRates(rates: seq<real>, js: seq<nat>): real
    requires IndicesBelow(js, |rates|)
  {
    if js == [] then 0.0 else SumRates(rates, js[..|js| - 1]) + rates[js[|js| - 1]]
  }

  lemma {:induction false} SumRatesConcat(rates: seq<real>, a: seq<nat>, b: seq<nat>)
    requires IndicesBelow(a, |rates|) && IndicesBelow(b, |rates|)
    ensures IndicesBelow(a + b, |rates|)
    ensures SumRates(rates, a + b) == SumRates(rates, a) + SumRates(rates, b)
  {
    if b != [] {
      var n := |b| - 1;
      assert (a + b)[..|a + b| - 1] == a + b[..n];
      SumRatesConcat(rates, a, b[..n]);
    } else {
      assert a + b == a;
    }
  }

  /** Nonnegative rates have a nonnegative sum. */
  lemma {:induction false} SumRatesNonneg(rates: seq<real>, js: seq<nat>)
    requires IndicesBelow(js, |rates|)
    requires forall j :: 0 <= j < |rates| ==> rates[j] >= 0.0
    ensures SumRates(rates, js) >= 0.0
  {
    if js != [] {
      SumRatesNonneg(rates, js[..|js| - 1]);
    }
  }

  predicate Nonneg(x: seq<int>) {
    forall i :: 0 <= i < |x| ==> x[i] >= 0
  }

  /** The condition the critical firing checks entry by entry
      (adaptivetau.cpp:1246-1254): right after the p-th entry is added, the
      variable it names is not negative. */
  predicate StepwiseNonneg(x: seq<int>, cs: seq<Change>)
    requires InBounds(cs, |x|)
  {
    forall p :: 1 <= p <= |cs| ==> ApplyChanges(x, cs[..p], 1)[cs[p - 1].state] >= 0
  }

  /** Checking each touched variable right after it changes is enough: from a
      nonnegative state, a firing that passes every check ends nonnegative. */
  lemma {:induction false} StepwiseNonnegEnds(x: seq<int>, cs: seq<Change>)
    requires InBounds(cs, |x|) && Nonneg(x) && StepwiseNonneg(x, cs)
    ensures Nonneg(ApplyChanges(x, cs, 1))
  {
    if cs != [] {
      var n := |cs| - 1;
      assert InBounds(cs[..n], |x|);
      forall p | 1 <= p <= n ensures ApplyChanges(x, cs[..n][..p], 1)[cs[..n][p - 1].state] >= 0 {
        assert cs[..n][..p] == cs[..p];
      }
      StepwiseNonnegEnds(x, cs[..n]);
      assert cs[..|cs|] == cs;
    }
  }
}
