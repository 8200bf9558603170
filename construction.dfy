/** The constructor of the engine (adaptivetau.cpp:83-233): it builds the
    transition table, flags deterministic and halting transitions, rejects a
    table without a stochastic transition, seeds the critical list, finds
    balanced pairs and real-valued variables, and checks the initial values,
    failing with the first error in that order. */
module Construction {
  import opened Types
  import opened Stoichiometry
  import opened TransitionTable

  /** The constant members the constructor fills in. */
  datatype Table = Table(
    numStates: nat,
    varNames: Option<seq<string>>,
    nu: seq<seq<Change>>,
    cats: seq<Cat>,
    detList: seq<nat>,
    haltList: seq<nat>,
    pairs: seq<(nat, nat)>,
    realValued: seq<bool>)

  /** What the simulation steps rely on: change lists within the state, one
      fixed category per transition (never `Critical`), category lists of
      existing transitions, every halting-list entry of category `Halting`,
      at least one transition that is not deterministic. */
  predicate TableValid(tb: Table) {
    && ValidTable(tb.nu, tb.numStates)
    && |tb.cats| == |tb.nu|
    && (forall j :: 0 <= j < |tb.cats| ==> tb.cats[j] != Critical)
    && IndicesBelow(tb.detList, |tb.nu|)
    && IndicesBelow(tb.haltList, |tb.nu|)
    && (forall k :: 0 <= k < |tb.haltList| ==> tb.cats[tb.haltList[k]] == Halting)
    && (exists j :: 0 <= j < |tb.cats| && tb.cats[j] != Deterministic)
    && |tb.realValued| == tb.numStates
  }

  /** The number of transitions the stoichiometry input describes. */
  function TransitionCount(input: NuInput): nat {
    match input
    case Dense(ncol, _) => ncol
    case Sparse(cols) => |cols|
  }

  /** Every sparse column is numeric and every one of its names resolves. */
  predicate NuResolvable(input: NuInput, names: Option<seq<string>>, n: nat) {
    input.Sparse? ==> forall j :: 0 <= j < |input.cols| ==> ColumnResolves(input.cols[j], names, n)
  }

  /** `nu` is the change-list table of the input. */
  predicate NuMatches(input: NuInput, names: Option<seq<string>>, n: nat, nu: seq<seq<Change>>) {
    match input
    case Dense(ncol, rows) =>
      && |nu| == ncol
      && IsMatrix(rows, ncol)
      && (forall j :: 0 <= j < ncol ==> nu[j] == Column(rows, j, |rows|))
    case Sparse(cols) =>
      && |nu| == |cols|
      && (forall j :: 0 <= j < |cols| ==> ColumnResolves(cols[j], names, n) && ColumnBuilt(cols[j], names, n, nu[j]))
  }

  /** The categories right after the deterministic flags are applied. */
  function DetCats(det: Flags, m: nat): (r: seq<Cat>)
    ensures |r| == m
  {
    FlagCats(det, Deterministic, seq(m, _ => Normal))
  }

  /** The conditions under which construction succeeds. */
  predicate Buildable(x0: seq<int>, names: Option<seq<string>>, input: NuInput, det: Flags, halt: Flags) {
    var m := TransitionCount(input);
    && NuResolvable(input, names, |x0|)
    && FlagsFit(det, m)
    && !EveryTransitionDeterministic(DetCats(det, m))
    && FlagsFit(halt, m)
    && Nonneg(x0)
  }

  /** Flagging changes a category only to the flag's category. */
  lemma FlagCatsFrom(f: Flags, cat: Cat, cats: seq<Cat>, i: nat)
    requires i < |cats|
    ensures FlagCats(f, cat, cats)[i] == cat || FlagCats(f, cat, cats)[i] == cats[i]
  {
  }

  /** Every index flagging appends to a list carries the flag's category. */
  lemma FlagListFlagged(f: Flags, cat: Cat, cats: seq<Cat>)
    requires FlagsPositive(f) && FlagsFit(f, |cats|)
    ensures IndicesBelow(FlagList(f), |cats|)
    ensures forall k :: 0 <= k < |FlagList(f)| ==> FlagCats(f, cat, cats)[FlagList(f)[k]] == cat
  {
    match f
    case NoFlags =>
    case Mask(bs) =>
      TrueIndicesExact(bs);
      var r := TrueIndices(bs);
      forall k | 0 <= k < |r| ensures FlagCats(f, cat, cats)[r[k]] == cat {
        assert r[k] in r;
      }
    case IndexList(ws) =>
      var r := ZeroBased(ws);
      forall k | 0 <= k < |r| ensures r[k] < |cats| && FlagCats(f, cat, cats)[r[k]] == cat {
        assert r[k] + 1 == ws[k];
        assert ws[k] in ws;
      }
  }

  /** x_SetCat followed by the intended check: a table built from the
      mask-flagged deterministic list passes the source's length test exactly
      when every transition is deterministic (a mask cannot repeat an index). */
  lemma {:induction false} MaskCheckAgrees(bs: seq<bool>, m: nat)
    requires |bs| <= m
    ensures AllDeterministicAsWritten(FlagList(Mask(bs)), m) <==> EveryTransitionDeterministic(DetCats(Mask(bs), m))
  {
    TrueIndicesCount(bs);
    var cats := DetCats(Mask(bs), m);
    forall j | 0 <= j < m ensures cats[j] == Deterministic <==> j < |bs| && bs[j] {
    }
    if |bs| < m {
      assert cats[|bs|] != Deterministic;
    }
  }

  /** A mask selects as many indices as it has entries exactly when every
      entry is set. */
  lemma {:induction false} TrueIndicesCount(bs: seq<bool>)
    ensures |TrueIndices(bs)| <= |bs|
    ensures |TrueIndices(bs)| == |bs| <==> forall i :: 0 <= i < |bs| ==> bs[i]
  {
    if bs != [] {
      var n := |bs| - 1;
      TrueIndicesCount(bs[..n]);
      if forall i :: 0 <= i < |bs| ==> bs[i] {
        assert forall i :: 0 <= i < n ==> bs[..n][i];
      } else if |TrueIndices(bs)| == |bs| {
        assert bs[n];
        forall i | 0 <= i < |bs| ensures bs[i] {
          if i < n {
            assert bs[..n][i];
          }
        }
      }
    }
  }

  /** The stoichiometry conversion: dense matrix or sparse named lists. */
  method BuildNu(input: NuInput, names: Option<seq<string>>, n: nat) returns (r: Result<seq<seq<Change>>>)
    requires input.Dense? ==> IsMatrix(input.rows, input.ncol) && |input.rows| == n
    ensures r.Ok? <==> NuResolvable(input, names, n)
    ensures r.Ok? ==> |r.value| == TransitionCount(input) && ValidTable(r.value, n) && NuMatches(input, names, n, r.value)
  {
    match input {
      case Dense(ncol, rows) =>
        var nu := DenseToSparse(rows, ncol);
        r := Ok(nu);
      case Sparse(cols) =>
        r := SparseToNu(cols, names, n);
    }
  }

  /** The facts about the assembled table that the constructor's checks establish. */
  lemma AssembledValid(x0: seq<int>, names: Option<seq<string>>, nu: seq<seq<Change>>, det: Flags, halt: Flags,
                       pairs: seq<(nat, nat)>, rv: seq<bool>)
    requires ValidTable(nu, |x0|) && |rv| == |x0|
    requires FlagsPositive(det) && FlagsPositive(halt)
    requires FlagsFit(det, |nu|) && FlagsFit(halt, |nu|)
    requires !EveryTransitionDeterministic(DetCats(det, |nu|))
    ensures TableValid(Table(|x0|, names, nu, FlagCats(halt, Halting, DetCats(det, |nu|)), FlagList(det), FlagList(halt), pairs, rv))
  {
    var m := |nu|;
    var cats0: seq<Cat> := seq(m, _ => Normal);
    var cats1 := DetCats(det, m);
    var cats2 := FlagCats(halt, Halting, cats1);
    FlagListFlagged(det, Deterministic, cats0);
    FlagListFlagged(halt, Halting, cats1);
    forall j | 0 <= j < m ensures cats2[j] != Critical {
      FlagCatsFrom(halt, Halting, cats1, j);
      FlagCatsFrom(det, Deterministic, cats0, j);
    }
    var j :| 0 <= j < m && cats1[j] != Deterministic;
    FlagCatsFrom(halt, Halting, cats1, j);
  }

  /** The categories and the deterministic and halting lists of `m`
      transitions (adaptivetau.cpp:160-173), with the stochastic check
      between the two flaggings. */
  method BuildCats(det: Flags, halt: Flags, m: nat) returns (r: Result<(seq<Cat>, seq<nat>, seq<nat>)>)
    requires FlagsPositive(det) && FlagsPositive(halt)
    ensures r.Ok? <==> FlagsFit(det, m) && !EveryTransitionDeterministic(DetCats(det, m)) && FlagsFit(halt, m)
    ensures r.Ok? ==> r.value == (FlagCats(halt, Halting, DetCats(det, m)), FlagList(det), FlagList(halt))
  {
    var d := SetCat(det, Deterministic, seq(m, _ => Normal), []);
    if d.Err? {
      return Err(d.error);
    }
    var cats1, detList := d.value.0, d.value.1;
    assert [] + FlagList(det) == FlagList(det);
    var allDet := CheckStochastic(cats1);
    if allDet {
      return Err(AllDeterministic);
    }
    var h := SetCat(halt, Halting, cats1, []);
    if h.Err? {
      return Err(h.error);
    }
    assert [] + FlagList(halt) == FlagList(halt);
    r := Ok((h.value.0, detList, h.value.1));
  }

  /** The rest of the constructor once the change lists are built
      (adaptivetau.cpp:160-229): the categories and lists, the balanced pairs,
      the real-valued variables and the initial-value check. */
  method Assemble(x0: seq<int>, names: Option<seq<string>>, nu: seq<seq<Change>>, det: Flags, halt: Flags)
    returns (r: Result<Table>)
    requires ValidTable(nu, |x0|) && FlagsPositive(det) && FlagsPositive(halt)
    ensures r.Ok? <==>
      FlagsFit(det, |nu|) && !EveryTransitionDeterministic(DetCats(det, |nu|)) && FlagsFit(halt, |nu|) && Nonneg(x0)
    ensures r.Ok? ==>
      var tb := r.value;
      && TableValid(tb)
      && tb.numStates == |x0| && tb.varNames == names && tb.nu == nu
      && tb.cats == FlagCats(halt, Halting, DetCats(det, |nu|))
      && tb.detList == FlagList(det)
      && tb.haltList == FlagList(halt)
      && tb.pairs == PairsUpTo(nu, |nu|)
      && (forall i :: 0 <= i < |x0| ==> (tb.realValued[i] <==> TouchedBy(nu, tb.detList, i)))
  {
    var c := BuildCats(det, halt, |nu|);
    if c.Err? {
      return Err(c.error);
    }
    var (cats2, detList, haltList) := c.value;
    FlagListFlagged(det, Deterministic, seq(|nu|, _ => Normal));
    var pairs := IdentifyBalancedPairs(nu);
    var rv := IdentifyRealValuedVariables(nu, detList, |x0|);
    var bad := CheckInitialValues(x0);
    if bad.Some? {
      return Err(bad.value);
    }
    AssembledValid(x0, names, nu, det, halt, pairs, rv);
    r := Ok(Table(|x0|, names, nu, cats2, detList, haltList, pairs, rv));
  }

  /** The constructor's table building, in the source's order of checks. */
  method Build(x0: seq<int>, names: Option<seq<string>>, input: NuInput, det: Flags, halt: Flags)
    returns (r: Result<Table>)
    requires input.Dense? ==> IsMatrix(input.rows, input.ncol) && |input.rows| == |x0|
    requires FlagsPositive(det) && FlagsPositive(halt)
    ensures r.Ok? <==> Buildable(x0, names, input, det, halt)
    ensures r.Ok? ==>
      var tb := r.value;
      var m := TransitionCount(input);
      && TableValid(tb)
      && tb.numStates == |x0| && tb.varNames == names
      && NuMatches(input, names, |x0|, tb.nu)
      && tb.cats == FlagCats(halt, Halting, DetCats(det, m))
      && tb.detList == FlagList(det)
      && tb.haltList == FlagList(halt)
      && tb.pairs == PairsUpTo(tb.nu, |tb.nu|)
      && (forall i :: 0 <= i < |x0| ==> (tb.realValued[i] <==> TouchedBy(tb.nu, tb.detList, i)))
  {
    var built := BuildNu(input, names, |x0|);
    if built.Err? {
      return Err(built.error);
    }
    r := Assemble(x0, names, built.value, det, halt);
  }
}
