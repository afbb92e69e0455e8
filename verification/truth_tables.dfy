/** `TruthTable` (bdd/truth_table.py): the enumeration of every full
    assignment of a list of variables, rows of (interpretation, result),
    and the queries over those rows. */
module TruthTables {
  import opened Interpretations
  import opened Strings
  import opened Formulas

  /** 2 to the power `n`. */
  function Pow2(n: nat): (r: nat)
    ensures r >= 1
  {
    if n == 0 then 1 else 2 * Pow2(n - 1)
  }

  /** `i >> s` for a non-negative `i`: `s` halvings, remainders dropped. */
  function Shr(i: nat, s: nat): nat
  {
    if s == 0 then i else Shr(i / 2, s - 1)
  }

  /** `(i >> s) & 1 == 1`. */
  function BitSet(i: nat, s: nat): bool
  {
    Shr(i, s) % 2 == 1
  }

  // ---------------------------------------------------------------------
  // Rows

  /** Row `i` over `vars`, defined from the end: the last variable takes the
      lowest bit of `i` and the others take row `i / 2` over themselves. A
      variable listed twice keeps the value of its last listing, as when the
      source assigns it twice. */
  function Row(vars: seq<string>, i: nat): Interpretation
    decreases |vars|
  {
    if |vars| == 0 then Empty
    else Assign(Row(vars[..|vars| - 1], i / 2), vars[|vars| - 1], i % 2 == 1)
  }

  /** The rows `0 .. 2^n - 1` in order. */
  function GenerateAll(vars: seq<string>): seq<Interpretation>
  {
    if |vars| == 0 then [Empty]
    else seq(Pow2(|vars|), (i: int) requires 0 <= i => Row(vars, i))
  }

  /** `generate_all_interpretations`: for each `i` below `2^n`, one row
      (see `RowOf`), in order of `i`. */
  method GenerateAllInterpretations(vars: seq<string>) returns (rows: seq<Interpretation>)
    ensures rows == GenerateAll(vars)
    ensures |rows| == Pow2(|vars|)
    ensures forall k :: 0 <= k < |rows| ==> rows[k].Keys == Elems(vars)
  {
    RowsComplete(vars);
    if |vars| == 0 {
      return [Empty];
    }
    rows := [];
    var i := 0;
    while i < Pow2(|vars|)
      invariant 0 <= i <= Pow2(|vars|)
      invariant rows == GenerateAll(vars)[..i]
    {
      var interp := RowOf(vars, i);
      rows := rows + [interp];
      i := i + 1;
    }
  }

  /** The inner loop of `generate_all_interpretations`: assigns the `j`-th
      variable bit `n - 1 - j` of `i`, in order of `j`. */
  method RowOf(vars: seq<string>, i: nat) returns (interp: Interpretation)
    ensures interp == Row(vars, i)
  {
    var n := |vars|;
    interp := Empty;
    var j := 0;
    while j < n
      invariant 0 <= j <= n
      invariant interp == Row(vars[..j], Shr(i, n - j))
    {
      var bit := Shr(i, n - 1 - j) % 2;
      RowStep(vars, i, j);
      interp := Assign(interp, vars[j], bit == 1);
      j := j + 1;
    }
    assert vars[..n] == vars;
  }

  /** One more variable of the prefix takes the next bit. */
  lemma RowStep(vars: seq<string>, i: nat, j: nat)
    requires j < |vars|
    ensures var n := |vars|;
      Row(vars[..j + 1], Shr(i, n - 1 - j))
      == Assign(Row(vars[..j], Shr(i, n - j)), vars[j], Shr(i, n - 1 - j) % 2 == 1)
  {
    var n := |vars|;
    ShiftOnce(i, n - 1 - j);
    assert vars[..j + 1][..j] == vars[..j];
  }

  /** Shifting by `s + 1` is shifting by `s` and then by one. */
  lemma {:induction false} ShiftOnce(i: nat, s: nat)
    ensures Shr(i, s) / 2 == Shr(i, s + 1)
  {
    if s > 0 {
      ShiftOnce(i / 2, s - 1);
    }
  }

  /** Every row assigns exactly the listed variables. */
  lemma {:induction false} RowKeys(vars: seq<string>, i: nat)
    ensures Row(vars, i).Keys == Elems(vars)
    decreases |vars|
  {
    if |vars| > 0 {
      var n := |vars|;
      RowKeys(vars[..n - 1], i / 2);
      assert vars == vars[..n - 1] + [vars[n - 1]];
      assert Elems(vars) == Elems(vars[..n - 1]) + {vars[n - 1]};
    }
  }

  lemma RowsComplete(vars: seq<string>)
    ensures |GenerateAll(vars)| == Pow2(|vars|)
    ensures forall k :: 0 <= k < |GenerateAll(vars)| ==> GenerateAll(vars)[k].Keys == Elems(vars)
  {
    forall k | 0 <= k < |GenerateAll(vars)| ensures GenerateAll(vars)[k].Keys == Elems(vars) {
      RowKeys(vars, k);
    }
  }

  /** With distinct variables, the `j`-th variable of row `i` is bit
      `n - 1 - j` of `i`: the first variable is the most significant. */
  lemma {:induction false} RowBit(vars: seq<string>, i: nat, j: nat)
    requires Distinct(vars) && j < |vars|
    ensures vars[j] in Row(vars, i) && Row(vars, i)[vars[j]] == BitSet(i, |vars| - 1 - j)
    decreases |vars|
  {
    var n := |vars|;
    RowKeys(vars, i);
    assert vars[j] in Elems(vars);
    if j < n - 1 {
      var pre := vars[..n - 1];
      assert pre[j] == vars[j];
      RowBit(pre, i / 2, j);
    }
  }

  /** The number whose row is `m`: the listed variables read as binary
      digits, the first the most significant. */
  function IndexOf(vars: seq<string>, m: Interpretation): (r: nat)
    ensures r < Pow2(|vars|)
    decreases |vars|
  {
    if |vars| == 0 then 0
    else 2 * IndexOf(vars[..|vars| - 1], m) + (if Lookup(m, vars[|vars| - 1]) then 1 else 0)
  }

  /** `IndexOf` reads only the listed variables. */
  lemma {:induction false} IndexOfLocal(vars: seq<string>, m: Interpretation, m': Interpretation)
    requires forall k :: 0 <= k < |vars| ==> Lookup(m, vars[k]) == Lookup(m', vars[k])
    ensures IndexOf(vars, m) == IndexOf(vars, m')
    decreases |vars|
  {
    if |vars| > 0 {
      var pre := vars[..|vars| - 1];
      assert forall k :: 0 <= k < |pre| ==> pre[k] == vars[k];
      IndexOfLocal(pre, m, m');
    }
  }

  /** Row `i` is read back as `i`: distinct numbers give distinct rows. */
  lemma {:induction false} IndexOfRow(vars: seq<string>, i: nat)
    requires Distinct(vars) && i < Pow2(|vars|)
    ensures IndexOf(vars, Row(vars, i)) == i
    decreases |vars|
  {
    if |vars| > 0 {
      var n := |vars|;
      var pre, last := vars[..n - 1], vars[n - 1];
      var m := Row(pre, i / 2);
      assert forall k :: 0 <= k < |pre| ==> Lookup(Row(vars, i), pre[k]) == Lookup(m, pre[k]) by {
        forall k | 0 <= k < |pre| ensures Lookup(Row(vars, i), pre[k]) == Lookup(m, pre[k]) {
          assert pre[k] == vars[k] && vars[k] != vars[n - 1];
        }
      }
      IndexOfLocal(pre, Row(vars, i), m);
      IndexOfRow(pre, i / 2);
    }
  }

  /** A full assignment of the distinct `vars` is the row of its index. */
  lemma {:induction false} RowOfIndex(vars: seq<string>, m: Interpretation)
    requires Distinct(vars) && m.Keys == Elems(vars)
    ensures Row(vars, IndexOf(vars, m)) == m
    decreases |vars|
  {
    if |vars| > 0 {
      var n := |vars|;
      var pre, last := vars[..n - 1], vars[n - 1];
      var m' := m - {last};
      DropLast(vars, m);
      IndexOfLocal(pre, m, m');
      RowOfIndex(pre, m');
      var k := IndexOf(vars, m);
      assert k / 2 == IndexOf(pre, m) && (k % 2 == 1) == m[last];
      assert Row(vars, k) == m'[last := m[last]];
    }
  }

  /** Removing the last of distinct variables from a full assignment leaves a
      full assignment of the others, agreeing with it on them. */
  lemma DropLast(vars: seq<string>, m: Interpretation)
    requires Distinct(vars) && m.Keys == Elems(vars) && |vars| > 0
    ensures var pre, last := vars[..|vars| - 1], vars[|vars| - 1];
      Distinct(pre) && last in m && (m - {last}).Keys == Elems(pre)
      && (forall k :: 0 <= k < |pre| ==> Lookup(m, pre[k]) == Lookup(m - {last}, pre[k]))
      && (m - {last})[last := m[last]] == m
  {
    var n := |vars|;
    var pre, last := vars[..n - 1], vars[n - 1];
    assert vars == pre + [last];
    assert last in Elems(vars);
    assert Elems(vars) == Elems(pre) + {last};
    forall a, b | 0 <= a < b < |pre| ensures pre[a] != pre[b] {
      assert pre[a] == vars[a] && pre[b] == vars[b];
    }
    forall k | 0 <= k < |pre| ensures pre[k] != last {
      assert pre[k] in Elems(pre);
    }
  }

  /** The enumeration lists every full assignment of distinct variables
      exactly once: rows are pairwise different, and each full assignment is
      one of them. */
  lemma RowsDistinct(vars: seq<string>, i: nat, k: nat)
    requires Distinct(vars) && i < Pow2(|vars|) && k < Pow2(|vars|) && i != k
    ensures Row(vars, i) != Row(vars, k)
  {
    IndexOfRow(vars, i);
    IndexOfRow(vars, k);
  }

  lemma EveryAssignmentListed(vars: seq<string>, m: Interpretation)
    requires Distinct(vars) && m.Keys == Elems(vars)
    ensures m in GenerateAll(vars)
  {
    var k := IndexOf(vars, m);
    RowOfIndex(vars, m);
    if |vars| == 0 {
      assert m == Empty;
    } else {
      assert GenerateAll(vars)[k] == m;
    }
  }

  /** Row 0 assigns false to every variable, the last row true. */
  lemma {:induction false} FirstRowAllFalse(vars: seq<string>, v: string)
    requires v in vars
    ensures v in Row(vars, 0) && !Row(vars, 0)[v]
    decreases |vars|
  {
    var n := |vars|;
    if v != vars[n - 1] {
      var k :| 0 <= k < n && vars[k] == v;
      assert vars[..n - 1][k] == v;
      FirstRowAllFalse(vars[..n - 1], v);
    }
  }

  lemma {:induction false} LastRowAllTrue(vars: seq<string>, v: string)
    requires v in vars
    ensures v in Row(vars, Pow2(|vars|) - 1) && Row(vars, Pow2(|vars|) - 1)[v]
    decreases |vars|
  {
    var n := |vars|;
    var top := Pow2(n) - 1;
    assert top / 2 == Pow2(n - 1) - 1 && top % 2 == 1;
    if v != vars[n - 1] {
      var k :| 0 <= k < n && vars[k] == v;
      assert vars[..n - 1][k] == v;
      LastRowAllTrue(vars[..n - 1], v);
    }
  }

  /** With no variables there is exactly one row, the empty interpretation. */
  lemma NoVariables()
    ensures GenerateAll([]) == [Empty]
  {
  }

  // ---------------------------------------------------------------------
  // Tables

  /** One row of a table: an interpretation and the formula's value under it. */
  datatype Entry = Entry(interpretation: Interpretation, result: bool)

  datatype TruthTable = TruthTable(variables: seq<string>, rows: seq<Entry>)

  /** `TruthTable(variables)`: the variables sorted, no rows yet. */
  function NewTable(vars: seq<string>): (t: TruthTable)
    ensures Sorted(t.variables) && multiset(t.variables) == multiset(vars)
    ensures t.rows == []
  {
    TruthTable(Sort(vars), [])
  }

  /** `add_row`: appends one row, the earlier rows kept in order. */
  function AddRow(t: TruthTable, i: Interpretation, b: bool): (r: TruthTable)
    ensures r.variables == t.variables
    ensures |r.rows| == |t.rows| + 1
    ensures forall j :: 0 <= j < |t.rows| ==> r.rows[j] == t.rows[j]
    ensures r.rows[|t.rows|] == Entry(i, b)
  {
    TruthTable(t.variables, t.rows + [Entry(i, b)])
  }

  /** `t` lists, over the sorted `vars`, row `k` of the enumeration with the
      value `eval` gives it, for every `k` below `2^n`. */
  ghost predicate Tabulates(t: TruthTable, vars: seq<string>, eval: Interpretation -> bool)
  {
    Sorted(t.variables) && multiset(t.variables) == multiset(vars)
    && |t.rows| == Pow2(|vars|)
    && forall k :: 0 <= k < |t.rows| ==>
         t.rows[k].interpretation == Row(t.variables, k) && t.rows[k].result == eval(Row(t.variables, k))
  }

  /** The loop of `from_function`: one `add_row` per interpretation, in order. */
  method AddRows(t0: TruthTable, all: seq<Interpretation>, eval: Interpretation -> bool) returns (t: TruthTable)
    requires t0.rows == []
    ensures t.variables == t0.variables && |t.rows| == |all|
    ensures forall j :: 0 <= j < |all| ==> t.rows[j] == Entry(all[j], eval(all[j]))
  {
    t := t0;
    var k := 0;
    while k < |all|
      invariant 0 <= k <= |all|
      invariant t.variables == t0.variables && |t.rows| == k
      invariant forall j :: 0 <= j < k ==> t.rows[j] == Entry(all[j], eval(all[j]))
    {
      t := AddRow(t, all[k], eval(all[k]));
      k := k + 1;
    }
  }

  /** `from_function`: a row for every interpretation, in enumeration order,
      with the function's value. The function is total here: an evaluator
      that raises is not modelled. */
  method FromFunction(vars: seq<string>, eval: Interpretation -> bool) returns (t: TruthTable)
    ensures Tabulates(t, vars, eval)
  {
    t := NewTable(vars);
    var sorted := t.variables;
    var all := GenerateAllInterpretations(sorted);
    assert |sorted| == |vars| by {
      assert |multiset(sorted)| == |multiset(vars)|;
    }
    t := AddRows(t, all, eval);
    AllRows(sorted);
  }

  /** Entry `k` of the enumeration is row `k`. */
  lemma AllRows(vars: seq<string>)
    ensures forall k :: 0 <= k < |GenerateAll(vars)| ==> GenerateAll(vars)[k] == Row(vars, k)
  {
    RowsComplete(vars);
  }

  /** `is_tautology`: every row's result is true. */
  function IsTautology(t: TruthTable): (r: bool)
    ensures r <==> forall k :: 0 <= k < |t.rows| ==> t.rows[k].result
  {
    AllResults(t.rows, true)
  }

  /** `is_contradiction`: every row's result is false. */
  function IsContradiction(t: TruthTable): (r: bool)
    ensures r <==> forall k :: 0 <= k < |t.rows| ==> !t.rows[k].result
  {
    AllResults(t.rows, false)
  }

  /** `is_satisfiable`: some row's result is true. */
  function IsSatisfiable(t: TruthTable): (r: bool)
    ensures r <==> exists k :: 0 <= k < |t.rows| && t.rows[k].result
  {
    !AllResults(t.rows, false)
  }

  /** Every row's result is `want`. */
  function AllResults(rows: seq<Entry>, want: bool): (r: bool)
    ensures r <==> forall k :: 0 <= k < |rows| ==> rows[k].result == want
  {
    if |rows| == 0 then true
    else rows[0].result == want && AllResults(rows[1..], want)
  }

  /** `get_models`: the interpretations of the true rows, in row order. */
  function GetModels(rows: seq<Entry>): (r: seq<Interpretation>)
    ensures |r| <= |rows|
    ensures forall m :: m in r <==> exists k :: 0 <= k < |rows| && rows[k].result && rows[k].interpretation == m
  {
    if |rows| == 0 then []
    else
      var rest := GetModels(rows[1..]);
      assert forall k :: 0 < k < |rows| ==> rows[k] == rows[1..][k - 1];
      if rows[0].result then [rows[0].interpretation] + rest else rest
  }

  /** The number of rows whose result is true. */
  function CountTrue(rows: seq<Entry>): nat
  {
    if |rows| == 0 then 0
    else (if rows[0].result then 1 else 0) + CountTrue(rows[1..])
  }

  lemma {:induction false} ModelsCount(rows: seq<Entry>)
    ensures |GetModels(rows)| == CountTrue(rows)
  {
    if |rows| > 0 {
      ModelsCount(rows[1..]);
    }
  }

  // ---------------------------------------------------------------------
  // What the queries mean, for a table built from a function of distinct
  // variables: the rows are exactly the full assignments.

  lemma {:induction false} RowsAreFullAssignments(t: TruthTable, vars: seq<string>, eval: Interpretation -> bool, m: Interpretation)
    requires Tabulates(t, vars, eval) && Distinct(vars)
    ensures (exists k :: 0 <= k < |t.rows| && t.rows[k].interpretation == m) <==> m.Keys == Elems(vars)
  {
    PermutationKeepsDistinct(vars, t.variables);
    if m.Keys == Elems(vars) {
      RowOfIndex(t.variables, m);
      var k := IndexOf(t.variables, m);
      assert t.rows[k].interpretation == m;
    }
    if exists k :: 0 <= k < |t.rows| && t.rows[k].interpretation == m {
      var k :| 0 <= k < |t.rows| && t.rows[k].interpretation == m;
      RowKeys(t.variables, k);
    }
  }

  /** `is_tautology` holds exactly when `eval` is true under every full
      assignment. */
  lemma TautologyMeaning(t: TruthTable, vars: seq<string>, eval: Interpretation -> bool)
    requires Tabulates(t, vars, eval) && Distinct(vars)
    ensures IsTautology(t) <==> forall m: Interpretation :: m.Keys == Elems(vars) ==> eval(m)
  {
    if IsTautology(t) {
      forall m: Interpretation | m.Keys == Elems(vars) ensures eval(m) {
        RowsAreFullAssignments(t, vars, eval, m);
      }
    }
    if forall m: Interpretation :: m.Keys == Elems(vars) ==> eval(m) {
      forall k | 0 <= k < |t.rows| ensures t.rows[k].result {
        RowsAreFullAssignments(t, vars, eval, t.rows[k].interpretation);
      }
    }
  }

  /** `is_contradiction` holds exactly when `eval` is false under every full
      assignment. */
  lemma ContradictionMeaning(t: TruthTable, vars: seq<string>, eval: Interpretation -> bool)
    requires Tabulates(t, vars, eval) && Distinct(vars)
    ensures IsContradiction(t) <==> forall m: Interpretation :: m.Keys == Elems(vars) ==> !eval(m)
  {
    if IsContradiction(t) {
      forall m: Interpretation | m.Keys == Elems(vars) ensures !eval(m) {
        RowsAreFullAssignments(t, vars, eval, m);
      }
    }
    if forall m: Interpretation :: m.Keys == Elems(vars) ==> !eval(m) {
      forall k | 0 <= k < |t.rows| ensures !t.rows[k].result {
        RowsAreFullAssignments(t, vars, eval, t.rows[k].interpretation);
      }
    }
  }

  /** `is_satisfiable` holds exactly when some full assignment makes `eval`
      true; it is the negation of `is_contradiction`. */
  lemma SatisfiableMeaning(t: TruthTable, vars: seq<string>, eval: Interpretation -> bool)
    requires Tabulates(t, vars, eval) && Distinct(vars)
    ensures IsSatisfiable(t) <==> exists m: Interpretation :: m.Keys == Elems(vars) && eval(m)
    ensures IsSatisfiable(t) <==> !IsContradiction(t)
  {
    ContradictionMeaning(t, vars, eval);
  }

  /** `get_models` lists exactly the full assignments under which `eval` is
      true. */
  lemma ModelsMeaning(t: TruthTable, vars: seq<string>, eval: Interpretation -> bool, m: Interpretation)
    requires Tabulates(t, vars, eval) && Distinct(vars)
    ensures m in GetModels(t.rows) <==> m.Keys == Elems(vars) && eval(m)
  {
    RowsAreFullAssignments(t, vars, eval, m);
  }

  /** The table of `p ∨ q` has three models. */
  lemma OrHasThreeModels(t: TruthTable)
    requires Tabulates(t, ["p", "q"], (g: Interpretation) => Holds(Or(Variable("p"), Variable("q")), g))
    ensures |GetModels(t.rows)| == 3
  {
    var vars := ["p", "q"];
    PermutationKeepsDistinct(vars, t.variables);
    SortedDistinctIsStrict(t.variables);
    assert Less("p", "q");
    StrictListingUnique(t.variables, vars);
    assert |t.rows| == 4;
    OrRows();
    CountFour(t.rows);
    ModelsCount(t.rows);
  }

  /** `p ∨ q` is false in row 0 of `[p, q]` only. */
  lemma OrRows()
    ensures var f, vars := Or(Variable("p"), Variable("q")), ["p", "q"];
      !Holds(f, Row(vars, 0)) && Holds(f, Row(vars, 1)) && Holds(f, Row(vars, 2)) && Holds(f, Row(vars, 3))
  {
    var vars := ["p", "q"];
    assert vars[..1] == ["p"];
    assert Row(vars, 0) == map["p" := false, "q" := false];
    assert Row(vars, 1) == map["p" := false, "q" := true];
    assert Row(vars, 2) == map["p" := true, "q" := false];
    assert Row(vars, 3) == map["p" := true, "q" := true];
  }

  lemma CountFour(rows: seq<Entry>)
    requires |rows| == 4
    ensures CountTrue(rows) == (if rows[0].result then 1 else 0) + (if rows[1].result then 1 else 0)
      + (if rows[2].result then 1 else 0) + (if rows[3].result then 1 else 0)
  {
    var r1 := rows[1..];
    var r2 := r1[1..];
    var r3 := r2[1..];
    assert r1[0] == rows[1] && r2[0] == rows[2] && r3[0] == rows[3] && r3[1..] == [];
    assert CountTrue(r3) == (if rows[3].result then 1 else 0);
    assert CountTrue(r2) == (if rows[2].result then 1 else 0) + CountTrue(r3);
    assert CountTrue(r1) == (if rows[1].result then 1 else 0) + CountTrue(r2);
  }
}
