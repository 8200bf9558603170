/** The named tuning parameters SetTLParams reads (adaptivetau.cpp:254-305):
    `epsilon`, `delta` and `maxtau` (each one double), `extraChecks` (one
    logical) and `verbose` (one integer). Any other name is ignored; a known
    name with a value of the wrong type or length is an error. */
module Parameters {
  import opened Types

  /** An R value as far as the parser distinguishes it. */
  datatype ParamValue =
    | RealVec(rs: seq<real>)
    | IntVec(zs: seq<int>)
    | LogicalVec(bs: seq<bool>)
    | OtherValue

  /** One named element of the parameter list. */
  datatype Setting = Setting(name: string, value: ParamValue)


  /** A setting the parser accepts: a known name with a value of the
      expected type and length one, or an unknown name (ignored). */
  predicate Acceptable(s: Setting) {
    if s.name == "epsilon" || s.name == "delta" || s.name == "maxtau" then s.value.RealVec? && |s.value.rs| == 1
    else if s.name == "extraChecks" then s.value.LogicalVec? && |s.value.bs| == 1
    else if s.name == "verbose" then s.value.IntVec? && |s.value.zs| == 1
    else true
  }

  /** The effect of one accepted setting. */
  function ApplySetting(p: Params, s: Setting): Params
    requires Acceptable(s)
  {
    if s.name == "epsilon" then p.(epsilon := s.value.rs[0])
    else if s.name == "delta" then p.(delta := s.value.rs[0])
    else if s.name == "maxtau" then p.(maxTau := Fin(s.value.rs[0]))
    else if s.name == "extraChecks" then p.(extraChecks := s.value.bs[0])
    else if s.name == "verbose" then p.(verbose := s.value.zs[0])
    else p
  }

  /** The fields SetTLParams never writes. */
  predicate FixedFieldsSame(p: Params, q: Params) {
    && q.nCritical == p.nCritical && q.nStiff == p.nStiff
    && q.exactThreshold == p.exactThreshold && q.numExactSteps == p.numExactSteps
    && q.itlConvergenceTol == p.itlConvergenceTol && q.maxSteps == p.maxSteps
  }

  /** The list applied in order, stopping at the first unacceptable entry. */
  function ApplyAll(p: Params, list: seq<Setting>): (r: Result<Params>)
    ensures r.Ok? ==> FixedFieldsSame(p, r.value)
    ensures r.Ok? && ParamsValid(p) ==> ParamsValid(r.value)
  {
    if list == [] then Ok(p)
    else
      var s := list[|list| - 1];
      match ApplyAll(p, list[..|list| - 1])
      case Err(e) => Err(e)
      case Ok(q) => if Acceptable(s) then Ok(ApplySetting(q, s)) else Err(InvalidParameter(s.name))
  }

  /** The last real given under `name`, or `default` when there is none. */
  function LastReal(list: seq<Setting>, name: string, default: real): real {
    if list == [] then default
    else
      var s := list[|list| - 1];
      if s.name == name && s.value.RealVec? && |s.value.rs| == 1 then s.value.rs[0]
      else LastReal(list[..|list| - 1], name, default)
  }

  /** The last logical given under `name`, or `default`. */
  function LastBool(list: seq<Setting>, name: string, default: bool): bool {
    if list == [] then default
    else
      var s := list[|list| - 1];
      if s.name == name && s.value.LogicalVec? && |s.value.bs| == 1 then s.value.bs[0]
      else LastBool(list[..|list| - 1], name, default)
  }

  /** The last integer given under `name`, or `default`. */
  function LastInt(list: seq<Setting>, name: string, default: int): int {
    if list == [] then default
    else
      var s := list[|list| - 1];
      if s.name == name && s.value.IntVec? && |s.value.zs| == 1 then s.value.zs[0]
      else LastInt(list[..|list| - 1], name, default)
  }

  /** Whether some entry carries `name`. */
  predicate Mentions(list: seq<Setting>, name: string) {
    exists k :: 0 <= k < |list| && list[k].name == name
  }

  /** The list is rejected exactly when one of its entries is unacceptable,
      and the error names the first such entry. */
  lemma {:induction false} ApplyAllRejects(p: Params, list: seq<Setting>)
    ensures ApplyAll(p, list).Err? <==> exists k :: 0 <= k < |list| && !Acceptable(list[k])
    ensures ApplyAll(p, list).Err? ==>
      exists k :: 0 <= k < |list| && !Acceptable(list[k])
        && (forall k' :: 0 <= k' < k ==> Acceptable(list[k']))
        && ApplyAll(p, list).error == InvalidParameter(list[k].name)
  {
    if list != [] {
      var n := |list| - 1;
      var pre := list[..n];
      ApplyAllRejects(p, pre);
      assert forall k :: 0 <= k < n ==> pre[k] == list[k];
      if ApplyAll(p, pre).Err? {
        var k :| 0 <= k < n && !Acceptable(pre[k]) && (forall k' :: 0 <= k' < k ==> Acceptable(pre[k'])) && ApplyAll(p, pre).error == InvalidParameter(pre[k].name);
        assert !Acceptable(list[k]) && (forall k' :: 0 <= k' < k ==> Acceptable(list[k']));
      } else if !Acceptable(list[n]) {
        assert forall k' :: 0 <= k' < n ==> Acceptable(list[k']);
      } else {
        forall k | 0 <= k < |list| ensures Acceptable(list[k]) {
          if k < n {
            assert pre[k] == list[k];
          }
        }
      }
    }
  }

  /** An accepted list sets each known parameter to the last value given for
      it and keeps the others. */
  lemma {:induction false} ApplyAllLastWins(p: Params, list: seq<Setting>)
    requires ApplyAll(p, list).Ok?
    ensures var q := ApplyAll(p, list).value;
      && q.epsilon == LastReal(list, "epsilon", p.epsilon)
      && q.delta == LastReal(list, "delta", p.delta)
      && q.maxTau == (if Mentions(list, "maxtau") then Fin(LastReal(list, "maxtau", 0.0)) else p.maxTau)
      && q.extraChecks == LastBool(list, "extraChecks", p.extraChecks)
      && q.verbose == LastInt(list, "verbose", p.verbose)
  {
    if list != [] {
      var n := |list| - 1;
      var pre := list[..n];
      ApplyAllLastWins(p, pre);
      if Mentions(list, "maxtau") && list[n].name != "maxtau" {
        var k :| 0 <= k < |list| && list[k].name == "maxtau";
        assert pre[k] == list[k];
      }
    }
  }

  /** SetTLParams: apply the named entries in order. */
  method SetTLParams(p: Params, list: seq<Setting>) returns (r: Result<Params>)
    ensures r == ApplyAll(p, list)
  {
    var q := p;
    var i := 0;
    while i < |list|
      invariant 0 <= i <= |list|
      invariant ApplyAll(p, list[..i]) == Ok(q)
    {
      var s := list[i];
      assert list[..i + 1][..i] == list[..i];
      if s.name == "epsilon" {
        if !(s.value.RealVec? && |s.value.rs| == 1) {
          r := Err(InvalidParameter(s.name));
          ApplyAllStops(p, list, i + 1);
          return;
        }
        q := q.(epsilon := s.value.rs[0]);
      } else if s.name == "delta" {
        if !(s.value.RealVec? && |s.value.rs| == 1) {
          r := Err(InvalidParameter(s.name));
          ApplyAllStops(p, list, i + 1);
          return;
        }
        q := q.(delta := s.value.rs[0]);
      } else if s.name == "maxtau" {
        if !(s.value.RealVec? && |s.value.rs| == 1) {
          r := Err(InvalidParameter(s.name));
          ApplyAllStops(p, list, i + 1);
          return;
        }
        q := q.(maxTau := Fin(s.value.rs[0]));
      } else if s.name == "extraChecks" {
        if !(s.value.LogicalVec? && |s.value.bs| == 1) {
          r := Err(InvalidParameter(s.name));
          ApplyAllStops(p, list, i + 1);
          return;
        }
        q := q.(extraChecks := s.value.bs[0]);
      } else if s.name == "verbose" {
        if !(s.value.IntVec? && |s.value.zs| == 1) {
          r := Err(InvalidParameter(s.name));
          ApplyAllStops(p, list, i + 1);
          return;
        }
        q := q.(verbose := s.value.zs[0]);
      }
      i := i + 1;
    }
    assert list[..|list|] == list;
    r := Ok(q);
  }

  /** Once a prefix is rejected, so is the whole list, with the same error. */
  lemma {:induction false} ApplyAllStops(p: Params, list: seq<Setting>, i: nat)
    requires i <= |list| && ApplyAll(p, list[..i]).Err?
    ensures ApplyAll(p, list) == ApplyAll(p, list[..i])
    decreases |list| - i
  {
    if i == |list| {
      assert list[..i] == list;
    } else {
      assert list[..i + 1][..i] == list[..i];
      ApplyAllStops(p, list, i + 1);
    }
  }
}
