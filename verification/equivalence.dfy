/** Equivalence of two diagrams whatever their variable orders.

    `are_equivalent` (bdd/operations.py) compares the two reduced roots
    structurally. That decides equivalence only when both diagrams test
    their variables in one order: `BDD` accepts any `variable_order`, and
    the reduced diagrams of p ∧ q over [q, p] and over [p, q] differ at the
    root although they mean the same. This module exhibits that case and
    gives the comparison the documentation promises, by agreement on every
    row of the truth table over the variables either root tests. */
module Equivalence {
  import opened Results
  import opened Interpretations
  import opened Strings
  import opened Formulas
  import opened Nodes
  import opened Diagrams
  import opened Traversals
  import opened Operations
  import opened Canonicity
  import TruthTables

  /** The labels a node tests, in depth-first order, repeats kept. */
  function LabelList(n: Node): (r: seq<string>)
    ensures Elems(r) == Labels(n)
  {
    match n
    case Terminal(_) => []
    case Decision(_, l, lo, hi) => [l] + LabelList(lo) + LabelList(hi)
  }

  /** `i` cut down to `vars`: exactly those variables, with the values `i`
      gives them. */
  function Project(i: Interpretation, vars: seq<string>): (m: Interpretation)
    ensures m.Keys == Elems(vars)
    ensures forall v :: v in Elems(vars) ==> Lookup(m, v) == Lookup(i, v)
  {
    map v | v in Elems(vars) :: Lookup(i, v)
  }

  /** The two roots take one value in every row. */
  function AgreeOn(a: Node, b: Node, rows: seq<Interpretation>): (r: bool)
    ensures r <==> forall k :: 0 <= k < |rows| ==> Value(a, rows[k]) == Value(b, rows[k])
  {
    if |rows| == 0 then true
    else Value(a, rows[0]) == Value(b, rows[0]) && AgreeOn(a, b, rows[1..])
  }

  /** The variables either root tests, each once, ascending. */
  function TestedVars(a: Node, b: Node): (r: seq<string>)
    ensures StrictlySorted(r) && Elems(r) == Labels(a) + Labels(b)
  {
    SortedSet(LabelList(a) + LabelList(b))
  }

  /** The two roots agree on every row of the truth table over the
      variables either of them tests. */
  function TableAgrees(a: Node, b: Node): bool
  {
    AgreeOn(a, b, TruthTables.GenerateAll(TestedVars(a, b)))
  }

  /** Equivalence as `are_equivalent` documents it: both roots must exist,
      and they agree under every assignment of the variables they test. */
  function EquivalentByTable(d1: Diagram, d2: Diagram): Result<bool>
  {
    if d1.root.None? || d2.root.None? then Err(EmptyDiagram)
    else Ok(TableAgrees(d1.root.value, d2.root.value))
  }

  /** A strictly ascending listing has no repeats. */
  lemma StrictIsDistinct(s: seq<string>)
    requires StrictlySorted(s)
    ensures Distinct(s)
  {
    forall a, b | 0 <= a < b < |s| ensures s[a] != s[b] {
      LessIrreflexive(s[a]);
    }
  }

  /** Agreement on every row of the table over the tested variables is
      agreement everywhere. */
  lemma RowsSuffice(a: Node, b: Node, i: Interpretation)
    requires TableAgrees(a, b)
    ensures Value(a, i) == Value(b, i)
  {
    var vars := TestedVars(a, b);
    var m := Project(i, vars);
    StrictIsDistinct(vars);
    TruthTables.EveryAssignmentListed(vars, m);
    var rows := TruthTables.GenerateAll(vars);
    var k :| 0 <= k < |rows| && rows[k] == m;
    assert Value(a, m) == Value(b, m);
    ValueLocal(a, i, m);
    ValueLocal(b, i, m);
  }

  /** The table comparison of two roots is exact. */
  lemma TableAgreesExact(a: Node, b: Node)
    ensures TableAgrees(a, b) ==> forall i :: Value(a, i) == Value(b, i)
    ensures (forall i :: Value(a, i) == Value(b, i)) ==> TableAgrees(a, b)
  {
    if TableAgrees(a, b) {
      forall i ensures Value(a, i) == Value(b, i) {
        RowsSuffice(a, b, i);
      }
    } else {
      var rows := TruthTables.GenerateAll(TestedVars(a, b));
      assert !AgreeOn(a, b, rows);
      var k :| 0 <= k < |rows| && Value(a, rows[k]) != Value(b, rows[k]);
    }
  }

  /** The corrected comparison fails exactly when a root is missing, and
      otherwise answers true exactly when the two roots mean the same
      function, whatever orders the diagrams were built with. */
  lemma ByTableExact(d1: Diagram, d2: Diagram)
    ensures EquivalentByTable(d1, d2).Ok? <==> d1.root.Some? && d2.root.Some?
    ensures EquivalentByTable(d1, d2).Err? ==> EquivalentByTable(d1, d2).error == EmptyDiagram
    ensures EquivalentByTable(d1, d2).Ok? && EquivalentByTable(d1, d2).value ==>
      forall i :: Value(d1.root.value, i) == Value(d2.root.value, i)
    ensures EquivalentByTable(d1, d2).Ok? && (forall i :: Value(d1.root.value, i) == Value(d2.root.value, i)) ==>
      EquivalentByTable(d1, d2).value
  {
    if d1.root.Some? && d2.root.Some? {
      TableAgreesExact(d1.root.value, d2.root.value);
    }
  }

  /** On ordered roots the source's structural comparison and the corrected
      one give the same answer. */
  lemma ByTableAgreesWhenOrdered(d1: Diagram, d2: Diagram, next: nat)
    requires d1.root.Some? && d2.root.Some?
    requires Ordered(d1.root.value) && Ordered(d2.root.value)
    ensures AreEquivalent(d1, d2, next) == EquivalentByTable(d1, d2)
  {
    EquivalentExact(d1, d2, next);
    ByTableExact(d1, d2);
    if AreEquivalent(d1, d2, next).value {
      assert EquivalentByTable(d1, d2).value;
    } else {
      assert !EquivalentByTable(d1, d2).value;
    }
  }

  /** The reduced diagram of p ∧ q that tests `first` and then `second`. */
  function Conjunction(first: string, second: string, id: nat): Node
  {
    Decision(id + 1, first, FALSE, Decision(id, second, FALSE, TRUE))
  }

  /** Such a diagram is reduced. */
  lemma ConjunctionReduced(first: string, second: string, id: nat)
    requires first != second
    ensures Reduced(Conjunction(first, second, id))
  {
    var n := Conjunction(first, second, id);
    assert Reach(n.high) == {n.high, FALSE, TRUE};
    assert Reach(n) == {n, n.high, FALSE, TRUE};
    assert !NodesEqual(FALSE, TRUE);
    assert !NodesEqual(FALSE, n.high);
  }

  /** Such a diagram means `first ∧ second`. */
  lemma ConjunctionMeaning(first: string, second: string, id: nat)
    ensures forall i :: Value(Conjunction(first, second, id), i) == Holds(And(Variable(first), Variable(second)), i)
  {
    forall i ensures Value(Conjunction(first, second, id), i) == Holds(And(Variable(first), Variable(second)), i) {
      var n := Conjunction(first, second, id);
      assert Value(n.high, i) == Lookup(i, second);
      assert Value(n, i) == (Lookup(i, first) && Lookup(i, second));
    }
  }

  /** A diagram whose root is already reduced is compared as it is. */
  lemma ComparedAsGiven(d: Diagram, next: nat)
    requires d.root.Some? && Reduced(d.root.value)
    ensures ForComparison(d, next) == (d, next)
  {
    IsReducedCorrect(d);
  }

  /** As written, `are_equivalent` calls the reduced diagrams of p ∧ q over
      the orders [q, p] and [p, q] not equivalent. */
  lemma OrderSensitiveVerdict(p: string, q: string, next: nat)
    requires p != q
    ensures var f := And(Variable(p), Variable(q));
      AreEquivalent(Diagram(Some(f), Some(Conjunction(q, p, 0)), [q, p]),
                    Diagram(Some(f), Some(Conjunction(p, q, 2)), [p, q]), next) == Ok(false)
  {
    var f := And(Variable(p), Variable(q));
    var d1 := Diagram(Some(f), Some(Conjunction(q, p, 0)), [q, p]);
    var d2 := Diagram(Some(f), Some(Conjunction(p, q, 2)), [p, q]);
    ConjunctionReduced(q, p, 0);
    ConjunctionReduced(p, q, 2);
    ComparedAsGiven(d1, next);
    ComparedAsGiven(d2, next);
  }

  /** The two diagrams of `OrderSensitiveVerdict` mean the same function,
      `p ∧ q`, and the corrected comparison says they are equivalent. */
  lemma OrderSensitive(p: string, q: string, next: nat)
    requires p != q
    ensures var f := And(Variable(p), Variable(q));
      var d1 := Diagram(Some(f), Some(Conjunction(q, p, 0)), [q, p]);
      var d2 := Diagram(Some(f), Some(Conjunction(p, q, 2)), [p, q]);
      && (forall i :: Value(d1.root.value, i) == Holds(f, i))
      && (forall i :: Value(d2.root.value, i) == Holds(f, i))
      && AreEquivalent(d1, d2, next) == Ok(false)
      && EquivalentByTable(d1, d2) == Ok(true)
  {
    var f := And(Variable(p), Variable(q));
    var d1 := Diagram(Some(f), Some(Conjunction(q, p, 0)), [q, p]);
    var d2 := Diagram(Some(f), Some(Conjunction(p, q, 2)), [p, q]);
    ConjunctionMeaning(q, p, 0);
    ConjunctionMeaning(p, q, 2);
    OrderSensitiveVerdict(p, q, next);
    forall i ensures Value(d1.root.value, i) == Value(d2.root.value, i) {
      assert Holds(And(Variable(q), Variable(p)), i) == Holds(f, i);
    }
    ByTableExact(d1, d2);
  }

  /** `are_equivalent` on `p ∧ q` built by the constructor over `[q, p]`
      and over `[p, q]`: the verdict is "different". */
  lemma OrderSensitiveBuiltVerdict()
    ensures var f := And(Variable("p"), Variable("q"));
      var b1 := NewDiagram(Some(f), ["q", "p"], 0);
      var b2 := NewDiagram(Some(f), ["p", "q"], 10);
      b1.Ok? && b2.Ok? && AreEquivalent(b1.value.0, b2.value.0, 20) == Ok(false)
  {
    var f := And(Variable("p"), Variable("q"));
    var t1 := Decision(2, "q", Decision(0, "p", FALSE, FALSE), Decision(1, "p", FALSE, TRUE));
    var t2 := Decision(12, "p", Decision(10, "q", FALSE, FALSE), Decision(11, "q", FALSE, TRUE));
    BuiltConjunction(f, ["q", "p"], 0, t1);
    BuiltConjunction(f, ["p", "q"], 10, t2);
    var i := map["p" := true, "q" := true];
    var d1 := Diagram(Some(f), Some(t1), ["q", "p"]);
    var d2 := Diagram(Some(f), Some(t2), ["p", "q"]);
    assert NewDiagram(Some(f), ["q", "p"], 0).value.0 == d1;
    assert NewDiagram(Some(f), ["p", "q"], 10).value.0 == d2;
    var c1 := ForComparison(d1, 20);
    var c2 := ForComparison(d2, c1.1);
    ComparedRootTest(d1, 20, i);
    ComparedRootTest(d2, c1.1, i);
    assert !NodesEqual(c1.0.root.value, c2.0.root.value);
  }

  /** The tree the constructor builds for `p ∧ q` over two orders. */
  lemma BuiltConjunction(f: Formula, order: seq<string>, next: nat, t: Node)
    requires f == And(Variable("p"), Variable("q"))
    requires (order == ["q", "p"] && next == 0 && t == Decision(2, "q", Decision(0, "p", FALSE, FALSE), Decision(1, "p", FALSE, TRUE)))
          || (order == ["p", "q"] && next == 10 && t == Decision(12, "p", Decision(10, "q", FALSE, FALSE), Decision(11, "q", FALSE, TRUE)))
    ensures NewDiagram(Some(f), order, next) == Ok((Diagram(Some(f), Some(t), order), next + 3))
  {
    var v, w := order[0], order[1];
    var e := Empty;
    var lo, hi := Assign(Copy(e), v, false), Assign(Copy(e), v, true);
    assert lo == map[v := false] && hi == map[v := true];
    var ll, lh := Assign(Copy(lo), w, false), Assign(Copy(lo), w, true);
    var hl, hh := Assign(Copy(hi), w, false), Assign(Copy(hi), w, true);
    assert Evaluate(f, ll) == Ok(false);
    assert Evaluate(f, lh) == Ok(false);
    assert Evaluate(f, hl) == Ok(false);
    assert Evaluate(f, hh) == Ok(true);
    assert BuildTree(f, order, 2, ll, next) == Ok((FALSE, next));
    assert BuildTree(f, order, 2, lh, next) == Ok((FALSE, next));
    assert BuildTree(f, order, 1, lo, next) == Ok((t.low, next + 1));
    assert BuildTree(f, order, 2, hl, next + 1) == Ok((FALSE, next + 1));
    assert BuildTree(f, order, 2, hh, next + 1) == Ok((TRUE, next + 1));
    assert BuildTree(f, order, 1, hi, next + 1) == Ok((t.high, next + 2));
    assert BuildTree(f, order, 0, e, next) == Ok((t, next + 3));
    assert ChooseOrder(Some(f), order) == order;
  }

  /** The same finding on the constructor's own output: `p ∧ q` built over
      `[q, p]` and over `[p, q]` means one function and the corrected
      comparison agrees, yet `are_equivalent` says the two differ. */
  lemma OrderSensitiveBuilt()
    ensures var f := And(Variable("p"), Variable("q"));
      var b1 := NewDiagram(Some(f), ["q", "p"], 0);
      var b2 := NewDiagram(Some(f), ["p", "q"], 10);
      && b1.Ok? && b2.Ok?
      && (forall i :: Value(b1.value.0.root.value, i) == Value(b2.value.0.root.value, i))
      && EquivalentByTable(b1.value.0, b2.value.0) == Ok(true)
      && AreEquivalent(b1.value.0, b2.value.0, 20) == Ok(false)
  {
    var f := And(Variable("p"), Variable("q"));
    BuildCorrect(f, ["q", "p"], 0);
    BuildCorrect(f, ["p", "q"], 10);
    var b1 := NewDiagram(Some(f), ["q", "p"], 0);
    var b2 := NewDiagram(Some(f), ["p", "q"], 10);
    assert b1.value.0.root.value == BuildFromFormula(f, ["q", "p"], 0).value.0;
    assert b2.value.0.root.value == BuildFromFormula(f, ["p", "q"], 10).value.0;
    ByTableExact(b1.value.0, b2.value.0);
    OrderSensitiveBuiltVerdict();
  }
}
