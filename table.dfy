/** Building the transition table once, at construction
    (adaptivetau.cpp:105-178 and 652-721): the stoichiometry from a dense
    matrix or from sparse named lists, the deterministic and halting flags,
    the balanced forward/reverse pairs, the real-valued variables, and the
    check of the initial values. */
module TransitionTable {
  import opened Types
  import opened Decimal
  import opened Stoichiometry

  // ---------------------------------------------------------------------
  // Dense matrix to sparse change lists (adaptivetau.cpp:105-117)

  /** `rows` is a matrix with `ncol` columns (rows are state variables). */
  predicate IsMatrix(rows: seq<seq<int>>, ncol: nat) {
    forall i :: 0 <= i < |rows| ==> |rows[i]| == ncol
  }

  /** The nonzero entries of column `j` among the first `m` rows, by increasing row. */
  function Column(rows: seq<seq<int>>, j: nat, m: nat): seq<Change>
    requires m <= |rows| && forall i :: 0 <= i < |rows| ==> j < |rows[i]|
  {
    if m == 0 then []
    else Column(rows, j, m - 1) + (if rows[m - 1][j] != 0 then [Change(m - 1, rows[m - 1][j])] else [])
  }

  /** Every entry of `c` is a nonzero entry `(i, rows[i][j])` with `i < m`. */
  predicate EntriesOfColumn(c: seq<Change>, rows: seq<seq<int>>, j: nat, m: nat)
    requires m <= |rows| && forall i :: 0 <= i < |rows| ==> j < |rows[i]|
  {
    forall k :: 0 <= k < |c| ==> c[k].state < m && c[k].mag != 0 && c[k].mag == rows[c[k].state][j]
  }

  /** The state indices of `c` strictly increase. */
  predicate StatesIncreasing(c: seq<Change>) {
    forall k1, k2 :: 0 <= k1 < k2 < |c| ==> c[k1].state < c[k2].state
  }

  /** Every nonzero entry of column `j` among the first `m` rows appears in `c`. */
  predicate CoversColumn(c: seq<Change>, rows: seq<seq<int>>, j: nat, m: nat)
    requires m <= |rows| && forall i :: 0 <= i < |rows| ==> j < |rows[i]|
  {
    forall i :: 0 <= i < m && rows[i][j] != 0 ==> exists k :: 0 <= k < |c| && c[k].state == i
  }

  lemma {:induction false} ColumnSound(rows: seq<seq<int>>, j: nat, m: nat)
    requires m <= |rows| && forall i :: 0 <= i < |rows| ==> j < |rows[i]|
    ensures EntriesOfColumn(Column(rows, j, m), rows, j, m)
  {
    if m > 0 {
      ColumnSound(rows, j, m - 1);
      var c0 := Column(rows, j, m - 1);
      var c := Column(rows, j, m);
      if rows[m - 1][j] != 0 {
        assert c == c0 + [Change(m - 1, rows[m - 1][j])];
      } else {
        assert c == c0;
      }
      forall k | 0 <= k < |c| ensures c[k].state < m && c[k].mag != 0 && c[k].mag == rows[c[k].state][j] {
        if k < |c0| {
          assert c[k] == c0[k];
        }
      }
    }
  }

  lemma {:induction false} ColumnSorted(rows: seq<seq<int>>, j: nat, m: nat)
    requires m <= |rows| && forall i :: 0 <= i < |rows| ==> j < |rows[i]|
    ensures StatesIncreasing(Column(rows, j, m))
  {
    if m > 0 {
      ColumnSorted(rows, j, m - 1);
      ColumnSound(rows, j, m - 1);
      var c0 := Column(rows, j, m - 1);
      var c := Column(rows, j, m);
      if rows[m - 1][j] != 0 {
        assert c == c0 + [Change(m - 1, rows[m - 1][j])];
        forall k1, k2 | 0 <= k1 < k2 < |c| ensures c[k1].state < c[k2].state {
          assert c[k1] == c0[k1];
          if k2 < |c0| {
            assert c[k2] == c0[k2];
          }
        }
      } else {
        assert c == c0;
      }
    }
  }

  lemma {:induction false} ColumnComplete(rows: seq<seq<int>>, j: nat, m: nat)
    requires m <= |rows| && forall i :: 0 <= i < |rows| ==> j < |rows[i]|
    ensures CoversColumn(Column(rows, j, m), rows, j, m)
  {
    if m > 0 {
      ColumnComplete(rows, j, m - 1);
      var c0 := Column(rows, j, m - 1);
      var c := Column(rows, j, m);
      if rows[m - 1][j] != 0 {
        assert c == c0 + [Change(m - 1, rows[m - 1][j])];
      } else {
        assert c == c0;
      }
      forall i | 0 <= i < m && rows[i][j] != 0 ensures exists k :: 0 <= k < |c| && c[k].state == i {
        if i < m - 1 {
          var k :| 0 <= k < |c0| && c0[k].state == i;
          assert c[k] == c0[k];
        } else {
          assert c[|c0|].state == i;
        }
      }
    }
  }

  /** A column's change list holds exactly the nonzero entries `(i, mat(i,j))`
      of that column, in strictly increasing row order, every row below `m`. */
  lemma ColumnExact(rows: seq<seq<int>>, j: nat, m: nat)
    requires m <= |rows| && forall i :: 0 <= i < |rows| ==> j < |rows[i]|
    ensures EntriesOfColumn(Column(rows, j, m), rows, j, m)
    ensures StatesIncreasing(Column(rows, j, m))
    ensures CoversColumn(Column(rows, j, m), rows, j, m)
  {
    ColumnSound(rows, j, m);
    ColumnSorted(rows, j, m);
    ColumnComplete(rows, j, m);
  }

  /** The conversion loop of the source: rows outer, columns inner, each
      nonzero entry appended to its column's list. */
  method DenseToSparse(rows: seq<seq<int>>, ncol: nat) returns (nu: seq<seq<Change>>)
    requires IsMatrix(rows, ncol)
    ensures |nu| == ncol
    ensures forall j :: 0 <= j < ncol ==> nu[j] == Column(rows, j, |rows|)
    ensures ValidTable(nu, |rows|)
  {
    nu := seq(ncol, _ => []);
    var i := 0;
    while i < |rows|
      invariant 0 <= i <= |rows| && |nu| == ncol
      invariant forall j :: 0 <= j < ncol ==> nu[j] == Column(rows, j, i)
    {
      var j := 0;
      while j < ncol
        invariant 0 <= j <= ncol && |nu| == ncol
        invariant forall j' :: 0 <= j' < j ==> nu[j'] == Column(rows, j', i + 1)
        invariant forall j' :: j <= j' < ncol ==> nu[j'] == Column(rows, j', i)
      {
        if rows[i][j] != 0 {
          nu := nu[j := nu[j] + [Change(i, rows[i][j])]];
        }
        j := j + 1;
      }
      i := i + 1;
    }
    forall j | 0 <= j < ncol ensures InBounds(nu[j], |rows|) {
      ColumnExact(rows, j, |rows|);
    }
  }

  // ---------------------------------------------------------------------
  // Sparse named lists (adaptivetau.cpp:118-159)

  /** One entry of a sparse list: a state named by variable name or by
      1-based number, and a magnitude. */
  datatype NamedChange = NamedChange(name: string, mag: int)

  /** One element of the sparse list: a numeric vector, or anything else. */
  datatype SparseColumn = Numeric(entries: seq<NamedChange>) | NonNumeric

  /** The stoichiometry as the caller gives it. */
  datatype NuInput = Dense(ncol: nat, rows: seq<seq<int>>) | Sparse(cols: seq<SparseColumn>)

  /** Index of the first occurrence of `name` in `names`, or `|names|`. */
  function FirstIndex(names: seq<string>, name: string): (k: nat)
    ensures k <= |names|
    ensures k < |names| ==> names[k] == name
    ensures forall i :: 0 <= i < k ==> names[i] != name
  {
    if names == [] then 0
    else if names[0] == name then 0
    else 1 + FirstIndex(names[1..], name)
  }

  /** The name search loop (adaptivetau.cpp:138-142). */
  method FindName(names: seq<string>, name: string) returns (k: nat)
    ensures k == FirstIndex(names, name)
  {
    k := 0;
    while k < |names| && names[k] != name
      invariant k <= |names|
      invariant forall i :: 0 <= i < k ==> names[i] != name
    {
      k := k + 1;
    }
  }

  /** The largest value of the `short int` the number is read into; a
      larger number fails the read. */
  const SHORT_MAX: int := 0x7FFF

  /** A sparse-list name read as the 1-based number of one of `n` state variables. */
  function ResolveNumber(name: string, n: nat): (r: Result<nat>)
    ensures r.Ok? ==> r.value < n
  {
    match ParseDecimal(name)
    case Some(v) => if 1 <= v <= n && v <= SHORT_MAX then Ok(v - 1) else Err(UnknownStateVariable(name))
    case None => Err(UnknownStateVariable(name))
  }

  /** How one sparse-list name resolves: an empty name is an error; else the
      first variable of that name, if it is one of the `n` state variables;
      else the name read as a 1-based decimal number; else an error. */
  function ResolveSpec(name: string, names: Option<seq<string>>, n: nat): (r: Result<nat>)
    ensures r.Ok? ==> r.value < n
  {
    if name == [] then Err(UnnamedChange)
    else if names.Some? && FirstIndex(names.value, name) < n then Ok(FirstIndex(names.value, name))
    else ResolveNumber(name, n)
  }

  /** A name fails to resolve exactly when it is empty, or it is neither
      among the first `n` variable names nor the number of a state variable. */
  lemma ResolveSpecFails(name: string, names: Option<seq<string>>, n: nat)
    ensures ResolveSpec(name, names, n).Err? <==>
      name == [] ||
      (!(names.Some? && FirstIndex(names.value, name) < n) &&
       !(ParseDecimal(name).Some? && 1 <= ParseDecimal(name).value <= n && ParseDecimal(name).value <= SHORT_MAX))
  {
  }

  /** A variable name wins over the same text read as a number. */
  lemma ResolveByName(name: string, names: seq<string>, n: nat, i: nat)
    requires name != [] && i < n && i < |names| && names[i] == name
    requires forall k :: 0 <= k < i ==> names[k] != name
    ensures ResolveSpec(name, Some(names), n) == Ok(i)
  {
    assert FirstIndex(names, name) == i;
  }

  /** Without variable names, the decimal rendering of `i + 1` names state
      `i`, as long as it fits the `short int` it is read into; beyond that
      the number does not resolve. */
  lemma ResolveByNumber(i: nat, n: nat)
    requires i < n
    ensures i < SHORT_MAX ==> ResolveSpec(NatToDecimal(i + 1), None, n) == Ok(i)
    ensures i >= SHORT_MAX ==> ResolveSpec(NatToDecimal(i + 1), None, n).Err?
  {
    ParseRendered(i + 1);
  }

  /** Resolution of one entry (adaptivetau.cpp:130-157). */
  method ResolveState(name: string, names: Option<seq<string>>, n: nat) returns (r: Result<nat>)
    ensures r == ResolveSpec(name, names, n)
  {
    if name == [] {
      r := Err(UnnamedChange);
    } else {
      var k := n;
      if names.Some? {
        k := FindName(names.value, name);
      }
      if names.Some? && k < n {
        r := Ok(k);
      } else {
        r := ResolveNumber(name, n);
      }
    }
  }

  /** The resolution of one name for fixed variable names and state count. */
  function Resolver(names: Option<seq<string>>, n: nat): string -> Result<nat> {
    name => ResolveSpec(name, names, n)
  }

  /** A sparse column is numeric and every one of its names resolves. */
  predicate ColumnResolves(c: SparseColumn, names: Option<seq<string>>, n: nat) {
    c.Numeric? && forall i :: 0 <= i < |c.entries| ==> Resolver(names, n)(c.entries[i].name).Ok?
  }

  /** The change list built from a resolvable column. */
  predicate ColumnBuilt(c: SparseColumn, names: Option<seq<string>>, n: nat, built: seq<Change>)
    requires ColumnResolves(c, names, n)
  {
    && |built| == |c.entries|
    && forall i :: 0 <= i < |built| ==>
         built[i] == Change(Resolver(names, n)(c.entries[i].name).value, c.entries[i].mag)
  }

  /** The entries resolved in order by `f`, stopping at the first name that
      does not resolve. */
  function ResolveEntries(entries: seq<NamedChange>, f: string -> Result<nat>): Result<seq<Change>> {
    if entries == [] then Ok([])
    else
      var e := entries[|entries| - 1];
      match ResolveEntries(entries[..|entries| - 1], f)
      case Err(err) => Err(err)
      case Ok(cs) =>
        match f(e.name)
        case Err(err) => Err(err)
        case Ok(s) => Ok(cs + [Change(s, e.mag)])
  }

  /** Resolving the entries succeeds exactly when every name resolves. */
  lemma {:induction false} ResolveEntriesOk(entries: seq<NamedChange>, f: string -> Result<nat>)
    ensures ResolveEntries(entries, f).Ok? <==> forall i :: 0 <= i < |entries| ==> f(entries[i].name).Ok?
  {
    if entries != [] {
      var m := |entries| - 1;
      var pre := entries[..m];
      ResolveEntriesOk(pre, f);
      if ResolveEntries(pre, f).Err? {
        var i :| 0 <= i < m && !f(pre[i].name).Ok?;
        assert pre[i] == entries[i];
      } else if f(entries[m].name).Ok? {
        forall i | 0 <= i < |entries| ensures f(entries[i].name).Ok? {
          if i < m {
            assert pre[i] == entries[i];
          }
        }
      }
    }
  }

  /** A successful resolution resolves entry `i` to `f`'s state with its magnitude. */
  lemma {:induction false} ResolveEntriesBuilt(entries: seq<NamedChange>, f: string -> Result<nat>)
    requires ResolveEntries(entries, f).Ok?
    ensures forall i :: 0 <= i < |entries| ==> f(entries[i].name).Ok?
    ensures |ResolveEntries(entries, f).value| == |entries|
    ensures forall i :: 0 <= i < |entries| ==>
      ResolveEntries(entries, f).value[i] == Change(f(entries[i].name).value, entries[i].mag)
  {
    ResolveEntriesOk(entries, f);
    if entries != [] {
      var m := |entries| - 1;
      var pre := entries[..m];
      ResolveEntriesBuilt(pre, f);
      var cs := ResolveEntries(pre, f).value;
      var r := ResolveEntries(entries, f).value;
      assert r == cs + [Change(f(entries[m].name).value, entries[m].mag)];
      forall i | 0 <= i < |r| ensures r[i] == Change(f(entries[i].name).value, entries[i].mag) {
        if i < m {
          assert r[i] == cs[i] && pre[i] == entries[i];
        }
      }
    }
  }

  /** Once a prefix fails, the whole list fails with the same error. */
  lemma {:induction false} ResolveEntriesStops(entries: seq<NamedChange>, f: string -> Result<nat>, i: nat)
    requires i <= |entries| && ResolveEntries(entries[..i], f).Err?
    ensures ResolveEntries(entries, f) == ResolveEntries(entries[..i], f)
    decreases |entries| - i
  {
    if i == |entries| {
      assert entries[..i] == entries;
    } else {
      assert entries[..i + 1][..i] == entries[..i];
      ResolveEntriesStops(entries, f, i + 1);
    }
  }

  /** The inner loop for one numeric column: `Err` at the first name that
      does not resolve, otherwise the resolved list in entry order. */
  method ResolveColumn(entries: seq<NamedChange>, names: Option<seq<string>>, n: nat)
    returns (r: Result<seq<Change>>)
    ensures r == ResolveEntries(entries, Resolver(names, n))
    ensures r.Ok? <==> ColumnResolves(Numeric(entries), names, n)
    ensures r.Ok? ==> ColumnBuilt(Numeric(entries), names, n, r.value) && InBounds(r.value, n)
  {
    ghost var f := Resolver(names, n);
    var built: seq<Change> := [];
    var i := 0;
    while i < |entries|
      invariant 0 <= i <= |entries|
      invariant ResolveEntries(entries[..i], f) == Ok(built)
    {
      assert entries[..i + 1][..i] == entries[..i];
      var s := ResolveState(entries[i].name, names, n);
      assert s == f(entries[i].name);
      if s.Err? {
        ResolveEntriesStops(entries, f, i + 1);
        ResolveEntriesOk(entries, f);
        assert !f(entries[i].name).Ok?;
        return Err(s.error);
      }
      built := built + [Change(s.value, entries[i].mag)];
      i := i + 1;
    }
    assert entries[..|entries|] == entries;
    ResolveEntriesBuilt(entries, f);
    r := Ok(built);
  }

  /** The sparse conversion loop: fails exactly when some column is not
      numeric or some name does not resolve; otherwise entry `i` of list `j`
      is the resolved state with the given magnitude, order kept. */
  method SparseToNu(cols: seq<SparseColumn>, names: Option<seq<string>>, n: nat)
    returns (r: Result<seq<seq<Change>>>)
    ensures r.Ok? <==> forall j :: 0 <= j < |cols| ==> ColumnResolves(cols[j], names, n)
    ensures r.Ok? ==> |r.value| == |cols| && ValidTable(r.value, n)
    ensures r.Ok? ==> forall j :: 0 <= j < |cols| ==> ColumnBuilt(cols[j], names, n, r.value[j])
  {
    var nu: seq<seq<Change>> := [];
    var j := 0;
    while j < |cols|
      invariant 0 <= j <= |cols| && |nu| == j
      invariant forall j' :: 0 <= j' < j ==> ColumnResolves(cols[j'], names, n)
      invariant forall j' :: 0 <= j' < j ==> ColumnBuilt(cols[j'], names, n, nu[j'])
      invariant ValidTable(nu, n)
    {
      if cols[j].NonNumeric? {
        return Err(NonNumericTransition(j));
      }
      ghost var c := cols[j];
      assert c == Numeric(c.entries);
      var built := ResolveColumn(cols[j].entries, names, n);
      if built.Err? {
        return Err(built.error);
      }
      assert ColumnResolves(c, names, n) && ColumnBuilt(c, names, n, built.value);
      ghost var nu0 := nu;
      nu := nu + [built.value];
      forall j' | 0 <= j' <= j ensures ColumnResolves(cols[j'], names, n) && ColumnBuilt(cols[j'], names, n, nu[j']) {
        if j' < j {
          assert nu[j'] == nu0[j'];
        }
      }
      j := j + 1;
    }
    r := Ok(nu);
  }

  // ---------------------------------------------------------------------
  // Category flags, x_SetCat (adaptivetau.cpp:675-704)

  /** The deterministic or halting flags: absent, a logical mask, or a list of
      1-based transition numbers. */
  datatype Flags = NoFlags | Mask(bs: seq<bool>) | IndexList(ws: seq<int>)

  /** The one thing the source assumes and does not check: index flags are >= 1. */
  predicate FlagsPositive(f: Flags) {
    f.IndexList? ==> forall k :: 0 <= k < |f.ws| ==> f.ws[k] >= 1
  }

  /** The flags refer only to existing transitions. */
  predicate FlagsFit(f: Flags, n: nat) {
    match f
    case NoFlags => true
    case Mask(bs) => |bs| <= n
    case IndexList(ws) => forall k :: 0 <= k < |ws| ==> ws[k] <= n
  }

  /** Positions of the set entries of a mask, in increasing order. */
  function TrueIndices(bs: seq<bool>): (r: seq<nat>)
    ensures IndicesBelow(r, |bs|)
  {
    if bs == [] then []
    else TrueIndices(bs[..|bs| - 1]) + (if bs[|bs| - 1] then [|bs| - 1] else [])
  }

  /** A mask's list holds exactly its set positions, in increasing order. */
  lemma {:induction false} TrueIndicesExact(bs: seq<bool>)
    ensures var r := TrueIndices(bs);
      && (forall i :: 0 <= i < |bs| ==> (bs[i] <==> i in r))
      && (forall k1, k2 :: 0 <= k1 < k2 < |r| ==> r[k1] < r[k2])
  {
    if bs != [] {
      var n := |bs| - 1;
      TrueIndicesExact(bs[..n]);
      var r0 := TrueIndices(bs[..n]);
      var r := TrueIndices(bs);
      if bs[n] {
        assert r == r0 + [n];
        assert r[|r0|] == n;
      } else {
        assert r == r0;
      }
      forall i | 0 <= i < |bs| ensures bs[i] <==> i in r {
        if i < n {
          assert bs[..n][i] == bs[i];
          assert i in r0 ==> i in r;
          assert i in r ==> i in r0 || i == n;
        }
      }
    }
  }

  /** 1-based transition numbers turned 0-based, in input order. */
  function ZeroBased(ws: seq<int>): (r: seq<nat>)
    requires forall k :: 0 <= k < |ws| ==> ws[k] >= 1
    ensures |r| == |ws| && forall k :: 0 <= k < |r| ==> r[k] == ws[k] - 1
  {
    if ws == [] then [] else ZeroBased(ws[..|ws| - 1]) + [ws[|ws| - 1] - 1]
  }

  /** The categories after flagging: each flagged transition gets `cat`, the
      others keep theirs. */
  function FlagCats(f: Flags, cat: Cat, cats: seq<Cat>): (r: seq<Cat>)
    ensures |r| == |cats|
  {
    match f
    case NoFlags => cats
    case Mask(bs) => seq(|cats|, i requires 0 <= i < |cats| => if i < |bs| && bs[i] then cat else cats[i])
    case IndexList(ws) => seq(|cats|, i requires 0 <= i < |cats| => if i + 1 in ws then cat else cats[i])
  }

  /** The indices flagging appends to the category's list, in input order. */
  function FlagList(f: Flags): (r: seq<nat>)
    requires FlagsPositive(f)
  {
    match f
    case NoFlags => []
    case Mask(bs) => TrueIndices(bs)
    case IndexList(ws) => ZeroBased(ws)
  }

  /** x_SetCat: `Err` exactly when the flags do not fit, otherwise the flagged
      categories and the category's list extended by the flagged indices. */
  method SetCat(f: Flags, cat: Cat, cats: seq<Cat>, list: seq<nat>) returns (r: Result<(seq<Cat>, seq<nat>)>)
    requires FlagsPositive(f) && IndicesBelow(list, |cats|)
    ensures r.Err? <==> !FlagsFit(f, |cats|)
    ensures r.Ok? ==> r.value == (FlagCats(f, cat, cats), list + FlagList(f))
    ensures r.Ok? ==> IndicesBelow(r.value.1, |cats|)
  {
    match f
    case NoFlags =>
      assert list + [] == list;
      r := Ok((cats, list));
    case Mask(bs) =>
      r := SetCatByMask(bs, cat, cats, list);
    case IndexList(ws) =>
      r := SetCatByIndex(ws, cat, cats, list);
  }

  /** The logical-mask branch of x_SetCat (adaptivetau.cpp:677-688). */
  method SetCatByMask(bs: seq<bool>, cat: Cat, cats: seq<Cat>, list: seq<nat>) returns (r: Result<(seq<Cat>, seq<nat>)>)
    requires IndicesBelow(list, |cats|)
    ensures r.Err? <==> |bs| > |cats|
    ensures r.Ok? ==> r.value == (FlagCats(Mask(bs), cat, cats), list + TrueIndices(bs))
    ensures r.Ok? ==> IndicesBelow(r.value.1, |cats|)
  {
    if |bs| > |cats| {
      return Err(FlagVectorTooLong);
    }
    var cs, ls := cats, list;
    var i := 0;
    while i < |bs|
      invariant 0 <= i <= |bs| && |cs| == |cats|
      invariant forall i' :: 0 <= i' < |cats| ==> cs[i'] == if i' < i && bs[i'] then cat else cats[i']
      invariant ls == list + TrueIndices(bs[..i])
    {
      assert bs[..i + 1][..i] == bs[..i];
      if bs[i] {
        cs := cs[i := cat];
        ls := ls + [i];
      }
      i := i + 1;
    }
    assert bs[..|bs|] == bs;
    assert cs == FlagCats(Mask(bs), cat, cats);
    r := Ok((cs, ls));
  }

  /** After flagging the 1-based numbers `us`, category `i` is `cat` when
      `i + 1` is among them and unchanged otherwise. */
  predicate CatsFlagged(us: seq<int>, cat: Cat, cats: seq<Cat>, cs: seq<Cat>) {
    |cs| == |cats| && forall i :: 0 <= i < |cats| ==> cs[i] == if i + 1 in us then cat else cats[i]
  }

  lemma IndexFlagStep(ws: seq<int>, i: nat, cat: Cat, cats: seq<Cat>, cs: seq<Cat>)
    requires i < |ws| && 1 <= ws[i] <= |cats|
    requires CatsFlagged(ws[..i], cat, cats, cs)
    ensures CatsFlagged(ws[..i + 1], cat, cats, cs[ws[i] - 1 := cat])
  {
    assert ws[..i + 1] == ws[..i] + [ws[i]];
  }

  lemma ZeroBasedStep(ws: seq<int>, i: nat)
    requires i < |ws| && forall k :: 0 <= k < |ws| ==> ws[k] >= 1
    ensures ZeroBased(ws[..i + 1]) == ZeroBased(ws[..i]) + [ws[i] - 1]
  {
    assert ws[..i + 1][..i] == ws[..i];
  }

  lemma IndexCatsAre(ws: seq<int>, cat: Cat, cats: seq<Cat>, cs: seq<Cat>)
    requires CatsFlagged(ws, cat, cats, cs)
    ensures cs == FlagCats(IndexList(ws), cat, cats)
  {
  }

  /** The index-list branch of x_SetCat (adaptivetau.cpp:689-703). */
  method SetCatByIndex(ws: seq<int>, cat: Cat, cats: seq<Cat>, list: seq<nat>) returns (r: Result<(seq<Cat>, seq<nat>)>)
    requires forall k :: 0 <= k < |ws| ==> ws[k] >= 1
    requires IndicesBelow(list, |cats|)
    ensures r.Err? <==> exists k :: 0 <= k < |ws| && ws[k] > |cats|
    ensures r.Ok? ==> r.value == (FlagCats(IndexList(ws), cat, cats), list + ZeroBased(ws))
    ensures r.Ok? ==> IndicesBelow(r.value.1, |cats|)
  {
    var cs, ls := cats, list;
    var i := 0;
    while i < |ws|
      invariant 0 <= i <= |ws|
      invariant forall k :: 0 <= k < i ==> ws[k] <= |cats|
      invariant CatsFlagged(ws[..i], cat, cats, cs)
      invariant ls == list + ZeroBased(ws[..i])
      invariant IndicesBelow(ls, |cats|)
    {
      if ws[i] > |cats| {
        return Err(FlagIndexOutOfRange(ws[i]));
      }
      IndexFlagStep(ws, i, cat, cats, cs);
      ZeroBasedStep(ws, i);
      cs := cs[ws[i] - 1 := cat];
      ls := ls + [ws[i] - 1];
      i := i + 1;
    }
    assert ws[..|ws|] == ws;
    IndexCatsAre(ws, cat, cats, cs);
    r := Ok((cs, ls));
  }

  // ---------------------------------------------------------------------
  // "At least one transition must be stochastic" (adaptivetau.cpp:164-169)

  /** The test as the source writes it: the deterministic list is as long as
      the transition table. */
  predicate AllDeterministicAsWritten(detList: seq<nat>, n: nat) {
    |detList| == n
  }

  /** The test as intended: every transition is flagged deterministic. */
  predicate EveryTransitionDeterministic(cats: seq<Cat>) {
    forall j :: 0 <= j < |cats| ==> cats[j] == Deterministic
  }

  /** A repeated index makes the length test reject a table that still has a
      stochastic transition: flags [1, 1] on two transitions. */
  lemma RepeatedIndexRejectsStochasticTable()
    ensures AllDeterministicAsWritten(FlagList(IndexList([1, 1])), 2)
    ensures var cats := FlagCats(IndexList([1, 1]), Deterministic, [Normal, Normal]);
      !EveryTransitionDeterministic(cats) && cats[1] == Normal
  {
    var cats := FlagCats(IndexList([1, 1]), Deterministic, [Normal, Normal]);
    assert 2 !in [1, 1];
    assert cats[1] == Normal;
  }

  /** ... and accept a table with none: flags [1, 2, 2] on two transitions. */
  lemma RepeatedIndexAcceptsDeterministicTable()
    ensures !AllDeterministicAsWritten(FlagList(IndexList([1, 2, 2])), 2)
    ensures EveryTransitionDeterministic(FlagCats(IndexList([1, 2, 2]), Deterministic, [Normal, Normal]))
  {
    assert 1 in [1, 2, 2] && 2 in [1, 2, 2];
  }

  /** The intended test, as a loop over the categories. */
  method CheckStochastic(cats: seq<Cat>) returns (allDet: bool)
    ensures allDet <==> EveryTransitionDeterministic(cats)
  {
    allDet := true;
    var j := 0;
    while j < |cats|
      invariant 0 <= j <= |cats|
      invariant allDet <==> forall j' :: 0 <= j' < j ==> cats[j'] == Deterministic
    {
      if cats[j] != Deterministic {
        allDet := false;
      }
      j := j + 1;
    }
  }

  // ---------------------------------------------------------------------
  // Balanced forward/reverse pairs, x_IdentifyBalancedPairs (adaptivetau.cpp:652-670)

  /** Same length, same state indices, pairwise negated magnitudes. */
  predicate IsBalanced(a: seq<Change>, b: seq<Change>) {
    |a| == |b| && forall i :: 0 <= i < |a| ==> a[i].state == b[i].state && a[i].mag == -b[i].mag
  }

  /** The pairs `(j1, j2)` with `j1 < j2 < m` that balance, by increasing `j2`. */
  function RowPairs(nu: seq<seq<Change>>, j1: nat, m: nat): seq<(nat, nat)>
    requires j1 < |nu| && m <= |nu|
  {
    if m <= j1 + 1 then []
    else RowPairs(nu, j1, m - 1) + (if IsBalanced(nu[j1], nu[m - 1]) then [(j1, m - 1)] else [])
  }

  /** All balanced pairs whose first transition is below `m`, in lexicographic order. */
  function PairsUpTo(nu: seq<seq<Change>>, m: nat): seq<(nat, nat)>
    requires m <= |nu|
  {
    if m == 0 then [] else PairsUpTo(nu, m - 1) + RowPairs(nu, m - 1, |nu|)
  }

  predicate LexLess(p: (nat, nat), q: (nat, nat)) {
    p.0 < q.0 || (p.0 == q.0 && p.1 < q.1)
  }

  /** Each pair of one row starts at `j1`, balances, and the second
      transitions strictly increase. */
  predicate RowSound(nu: seq<seq<Change>>, ps: seq<(nat, nat)>, j1: nat, m: nat)
    requires j1 < |nu|
  {
    && (forall k :: 0 <= k < |ps| ==> ps[k].0 == j1 && j1 < ps[k].1 < m && ps[k].1 < |nu| && IsBalanced(nu[j1], nu[ps[k].1]))
    && (forall k1, k2 :: 0 <= k1 < k2 < |ps| ==> ps[k1].1 < ps[k2].1)
  }

  lemma {:induction false} RowPairsSound(nu: seq<seq<Change>>, j1: nat, m: nat)
    requires j1 < |nu| && m <= |nu|
    ensures RowSound(nu, RowPairs(nu, j1, m), j1, m)
  {
    if m > j1 + 1 {
      RowPairsSound(nu, j1, m - 1);
      var r0 := RowPairs(nu, j1, m - 1);
      var r := RowPairs(nu, j1, m);
      if IsBalanced(nu[j1], nu[m - 1]) {
        assert r == r0 + [(j1, m - 1)];
        forall k | 0 <= k < |r|
          ensures r[k].0 == j1 && j1 < r[k].1 < m && r[k].1 < |nu| && IsBalanced(nu[j1], nu[r[k].1])
        {
          if k < |r0| {
            assert r[k] == r0[k];
          }
        }
        forall k1, k2 | 0 <= k1 < k2 < |r| ensures r[k1].1 < r[k2].1 {
          assert r[k1] == r0[k1];
        }
      } else {
        assert r == r0;
      }
    }
  }

  lemma {:induction false} RowPairsComplete(nu: seq<seq<Change>>, j1: nat, m: nat)
    requires j1 < |nu| && m <= |nu|
    ensures forall j2 :: j1 < j2 < m && IsBalanced(nu[j1], nu[j2]) ==> (j1, j2) in RowPairs(nu, j1, m)
  {
    if m > j1 + 1 {
      RowPairsComplete(nu, j1, m - 1);
    }
  }

  /** Every pair of `ps` has its first transition below `m`, precedes its
      second one and balances with it. */
  predicate PairsSound(nu: seq<seq<Change>>, ps: seq<(nat, nat)>, m: nat) {
    forall k :: 0 <= k < |ps| ==> ps[k].0 < m && ps[k].0 < ps[k].1 < |nu| && IsBalanced(nu[ps[k].0], nu[ps[k].1])
  }

  predicate LexSorted(ps: seq<(nat, nat)>) {
    forall k1, k2 :: 0 <= k1 < k2 < |ps| ==> LexLess(ps[k1], ps[k2])
  }

  /** Every recorded pair `(j1, j2)` has `j1 < j2` and balances. */
  lemma {:induction false} PairsUpToSound(nu: seq<seq<Change>>, m: nat)
    requires m <= |nu|
    ensures PairsSound(nu, PairsUpTo(nu, m), m)
  {
    if m > 0 {
      PairsUpToSound(nu, m - 1);
      RowPairsSound(nu, m - 1, |nu|);
      var a, b := PairsUpTo(nu, m - 1), RowPairs(nu, m - 1, |nu|);
      var r := PairsUpTo(nu, m);
      assert r == a + b;
      forall k | 0 <= k < |r| ensures r[k].0 < m && r[k].0 < r[k].1 < |nu| && IsBalanced(nu[r[k].0], nu[r[k].1]) {
        if k < |a| {
          assert r[k] == a[k];
        } else {
          assert r[k] == b[k - |a|];
        }
      }
    }
  }

  /** The pairs come in strictly increasing lexicographic order, so none is
      recorded twice. */
  lemma {:induction false} PairsUpToSorted(nu: seq<seq<Change>>, m: nat)
    requires m <= |nu|
    ensures LexSorted(PairsUpTo(nu, m))
  {
    if m > 0 {
      PairsUpToSorted(nu, m - 1);
      PairsUpToSound(nu, m - 1);
      RowPairsSound(nu, m - 1, |nu|);
      var a, b := PairsUpTo(nu, m - 1), RowPairs(nu, m - 1, |nu|);
      var r := PairsUpTo(nu, m);
      assert r == a + b;
      forall k1, k2 | 0 <= k1 < k2 < |r| ensures LexLess(r[k1], r[k2]) {
        if k2 < |a| {
          assert r[k1] == a[k1] && r[k2] == a[k2];
        } else if k1 >= |a| {
          assert r[k1] == b[k1 - |a|] && r[k2] == b[k2 - |a|];
        } else {
          assert r[k1] == a[k1] && r[k2] == b[k2 - |a|];
          assert a[k1].0 < m - 1;
        }
      }
    }
  }

  /** Every balancing pair `(j1, j2)` with `j1 < j2` and `j1 < m` is recorded. */
  lemma {:induction false} PairsUpToComplete(nu: seq<seq<Change>>, m: nat)
    requires m <= |nu|
    ensures forall j1, j2 :: 0 <= j1 < m && j1 < j2 < |nu| && IsBalanced(nu[j1], nu[j2]) ==> (j1, j2) in PairsUpTo(nu, m)
  {
    if m > 0 {
      PairsUpToComplete(nu, m - 1);
      RowPairsComplete(nu, m - 1, |nu|);
      var a, b := PairsUpTo(nu, m - 1), RowPairs(nu, m - 1, |nu|);
      assert PairsUpTo(nu, m) == a + b;
      forall j1, j2 | 0 <= j1 < m && j1 < j2 < |nu| && IsBalanced(nu[j1], nu[j2])
        ensures (j1, j2) in PairsUpTo(nu, m)
      {
        if j1 < m - 1 {
          assert (j1, j2) in a;
        } else {
          assert (j1, j2) in b;
        }
      }
    }
  }

  /** The comparison loop of x_IdentifyBalancedPairs. */
  method Balanced(a: seq<Change>, b: seq<Change>) returns (yes: bool)
    ensures yes <==> IsBalanced(a, b)
  {
    if |a| != |b| {
      return false;
    }
    var i := 0;
    while i < |a| && a[i].state == b[i].state && a[i].mag == -b[i].mag
      invariant 0 <= i <= |a|
      invariant forall i' :: 0 <= i' < i ==> a[i'].state == b[i'].state && a[i'].mag == -b[i'].mag
    {
      i := i + 1;
    }
    yes := i == |a|;
  }

  /** x_IdentifyBalancedPairs: the pairs of the whole table, in the order the
      nested loops find them. */
  method IdentifyBalancedPairs(nu: seq<seq<Change>>) returns (pairs: seq<(nat, nat)>)
    ensures pairs == PairsUpTo(nu, |nu|)
  {
    pairs := [];
    var j1 := 0;
    while j1 < |nu|
      invariant 0 <= j1 <= |nu|
      invariant pairs == PairsUpTo(nu, j1)
    {
      var j2 := j1 + 1;
      while j2 < |nu|
        invariant j1 + 1 <= j2 <= |nu|
        invariant pairs == PairsUpTo(nu, j1) + RowPairs(nu, j1, j2)
      {
        var yes := Balanced(nu[j1], nu[j2]);
        if yes {
          pairs := pairs + [(j1, j2)];
        }
        j2 := j2 + 1;
      }
      j1 := j1 + 1;
    }
  }

  // ---------------------------------------------------------------------
  // Real-valued variables, x_IdentifyRealValuedVariables (adaptivetau.cpp:710-721)

  /** Some deterministic transition changes state variable `i`. */
  predicate TouchedBy(nu: seq<seq<Change>>, det: seq<nat>, i: nat)
    requires IndicesBelow(det, |nu|)
  {
    exists k, c :: 0 <= k < |det| && 0 <= c < |nu[det[k]]| && nu[det[k]][c].state == i
  }

  /** A variable is real-valued exactly when a deterministic transition touches it. */
  method IdentifyRealValuedVariables(nu: seq<seq<Change>>, det: seq<nat>, numStates: nat)
    returns (rv: seq<bool>)
    requires ValidTable(nu, numStates) && IndicesBelow(det, |nu|)
    ensures |rv| == numStates
    ensures forall i :: 0 <= i < numStates ==> (rv[i] <==> TouchedBy(nu, det, i))
  {
    rv := seq(numStates, _ => false);
    var k := 0;
    while k < |det|
      invariant 0 <= k <= |det| && |rv| == numStates
      invariant forall i :: 0 <= i < numStates ==>
        (rv[i] <==> exists k', c :: 0 <= k' < k && 0 <= c < |nu[det[k']]| && nu[det[k']][c].state == i)
    {
      var cs := nu[det[k]];
      var c := 0;
      while c < |cs|
        invariant 0 <= c <= |cs| && |rv| == numStates
        invariant forall i :: 0 <= i < numStates ==>
          (rv[i] <==> (exists k', c' :: 0 <= k' < k && 0 <= c' < |nu[det[k']]| && nu[det[k']][c'].state == i)
                      || (exists c' :: 0 <= c' < c && cs[c'].state == i))
      {
        rv := rv[cs[c].state := true];
        c := c + 1;
      }
      k := k + 1;
    }
  }

  // ---------------------------------------------------------------------
  // Initial values (adaptivetau.cpp:217-222)

  /** The first negative initial value is reported; none means all are nonnegative. */
  method CheckInitialValues(x0: seq<int>) returns (r: Option<Error>)
    ensures r.None? <==> Nonneg(x0)
    ensures r.Some? ==> exists i :: 0 <= i < |x0| && x0[i] < 0 && r.value == NegativeInitialValue(i)
                          && forall i' :: 0 <= i' < i ==> x0[i'] >= 0
  {
    var i := 0;
    while i < |x0|
      invariant 0 <= i <= |x0|
      invariant forall i' :: 0 <= i' < i ==> x0[i'] >= 0
    {
      if x0[i] < 0 {
        return Some(NegativeInitialValue(i));
      }
      i := i + 1;
    }
    r := None;
  }
}
