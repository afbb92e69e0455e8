/** Why `are_equivalent` may compare structure: a reduced diagram whose
    labels follow one variable order along every path is determined by its
    boolean function. The builder (given a sorted order), the reducer and
    `apply` all keep labels in Python's string order, so diagrams made by
    them with sorted orders compare structurally exactly when they mean the
    same. */
module Canonicity {
  import opened Results
  import opened Interpretations
  import opened Strings
  import opened Formulas
  import opened Nodes
  import opened Diagrams
  import opened Traversals
  import opened Reduction
  import opened Operations

  /** Every label tested in `n` comes after `l`. */
  ghost predicate Above(l: string, n: Node)
  {
    forall m :: m in Labels(n) ==> Less(l, m)
  }

  /** Labels strictly increase along every path. */
  ghost predicate Ordered(n: Node)
  {
    match n
    case Terminal(_) => true
    case Decision(_, l, lo, hi) => Above(l, lo) && Above(l, hi) && Ordered(lo) && Ordered(hi)
  }

  // ---------------------------------------------------------------------
  // Values under one more assignment

  /** Assigning a variable the node does not test changes nothing. */
  lemma Untested(n: Node, x: string, b: bool, i: Interpretation)
    requires x !in Labels(n)
    ensures Value(n, Assign(i, x, b)) == Value(n, i)
  {
    forall v | v in Labels(n) ensures Lookup(Assign(i, x, b), v) == Lookup(i, v) {
    }
    ValueLocal(n, Assign(i, x, b), i);
  }

  /** Fixing an ordered decision's own variable selects a child. */
  lemma Restrict(n: Node, i: Interpretation)
    requires n.Decision? && Ordered(n)
    ensures Value(n, Assign(i, n.name, false)) == Value(n.low, i)
    ensures Value(n, Assign(i, n.name, true)) == Value(n.high, i)
  {
    LessIrreflexive(n.name);
    Untested(n.low, n.name, false, i);
    Untested(n.high, n.name, true, i);
  }

  /** An ordered node whose top label (if any) comes after `x` does not
      test `x`. */
  lemma NotTested(x: string, n: Node)
    requires Ordered(n) && (n.Decision? ==> Less(x, n.name))
    ensures x !in Labels(n)
  {
    if n.Decision? {
      LessIrreflexive(x);
      assert x != n.name;
      forall m | m in Labels(n.low) + Labels(n.high) ensures m != x {
        assert Less(n.name, m);
        LessTransitive(x, n.name, m);
        LessIrreflexive(m);
      }
      assert Labels(n) == {n.name} + (Labels(n.low) + Labels(n.high));
    }
  }

  lemma OrderedBelow(n: Node)
    requires Ordered(n) && NoRedundant(Reach(n)) && n.Decision?
    ensures !NodesEqual(n.low, n.high)
    ensures NoRedundant(Reach(n.low)) && NoRedundant(Reach(n.high))
  {
    assert n in Reach(n);
  }

  /** When `b` does not test the top variable of `a` and both mean the same,
      each child of `a` means what `b` means. */
  lemma SkipTop(a: Node, b: Node)
    requires a.Decision? && Ordered(a) && a.name !in Labels(b)
    requires forall i :: Value(a, i) == Value(b, i)
    ensures forall i :: Value(a.low, i) == Value(b, i)
    ensures forall i :: Value(a.high, i) == Value(b, i)
  {
    forall i ensures Value(a.low, i) == Value(b, i) && Value(a.high, i) == Value(b, i) {
      Restrict(a, i);
      Untested(b, a.name, false, i);
      Untested(b, a.name, true, i);
      assert Value(a, Assign(i, a.name, false)) == Value(b, Assign(i, a.name, false));
      assert Value(a, Assign(i, a.name, true)) == Value(b, Assign(i, a.name, true));
    }
  }

  // ---------------------------------------------------------------------
  // The canonical-form theorem

  /** Two ordered diagrams with no redundant node that mean the same
      boolean function have the same shape. */
  lemma {:induction false} Canonical(a: Node, b: Node)
    requires Ordered(a) && Ordered(b)
    requires NoRedundant(Reach(a)) && NoRedundant(Reach(b))
    requires forall i :: Value(a, i) == Value(b, i)
    ensures ShapeOf(a) == ShapeOf(b)
    decreases Size(a) + Size(b)
  {
    if a.Terminal? && b.Terminal? {
      assert Value(a, Empty) == Value(b, Empty);
    } else if a.Decision? && (b.Terminal? || Less(a.name, b.name)) {
      CanonicalSkip(a, b);
      OrderedBelow(a);
      NodesEqualIffSameShape(a.low, a.high);
      assert false;
    } else if b.Decision? && (a.Terminal? || Less(b.name, a.name)) {
      CanonicalSkip(b, a);
      OrderedBelow(b);
      NodesEqualIffSameShape(b.low, b.high);
      assert false;
    } else {
      LessTotal(a.name, b.name);
      CanonicalSameTop(a, b);
    }
  }

  /** The case of `Canonical` where `a` tests a variable `b` does not: both
      children of `a` would have `b`'s shape, so `a` would be redundant. */
  lemma {:induction false} CanonicalSkip(a: Node, b: Node)
    requires Ordered(a) && Ordered(b)
    requires NoRedundant(Reach(a)) && NoRedundant(Reach(b))
    requires forall i :: Value(a, i) == Value(b, i)
    requires a.Decision? && (b.Terminal? || Less(a.name, b.name))
    ensures ShapeOf(a.low) == ShapeOf(b) && ShapeOf(a.high) == ShapeOf(b)
    decreases Size(a) + Size(b), 0
  {
    NotTested(a.name, b);
    SkipTop(a, b);
    OrderedBelow(a);
    forall i ensures Value(b, i) == Value(a.low, i) {
    }
    forall i ensures Value(b, i) == Value(a.high, i) {
    }
    Canonical(a.low, b);
    Canonical(a.high, b);
  }

  /** The case of `Canonical` where both test the same variable: the
      children agree pairwise. */
  lemma {:induction false} CanonicalSameTop(a: Node, b: Node)
    requires Ordered(a) && Ordered(b)
    requires NoRedundant(Reach(a)) && NoRedundant(Reach(b))
    requires forall i :: Value(a, i) == Value(b, i)
    requires a.Decision? && b.Decision? && a.name == b.name
    ensures ShapeOf(a) == ShapeOf(b)
    decreases Size(a) + Size(b), 0
  {
    OrderedBelow(a);
    OrderedBelow(b);
    forall i ensures Value(a.low, i) == Value(b.low, i) && Value(a.high, i) == Value(b.high, i) {
      Restrict(a, i);
      Restrict(b, i);
      assert Value(a, Assign(i, a.name, false)) == Value(b, Assign(i, a.name, false));
      assert Value(a, Assign(i, a.name, true)) == Value(b, Assign(i, a.name, true));
    }
    Canonical(a.low, b.low);
    Canonical(a.high, b.high);
  }

  /** For ordered diagrams without redundant nodes, the structural `==`
      decides equality of the functions, in both directions. */
  lemma CanonicalEquality(a: Node, b: Node)
    requires Ordered(a) && Ordered(b)
    requires NoRedundant(Reach(a)) && NoRedundant(Reach(b))
    ensures (forall i :: Value(a, i) == Value(b, i)) ==> NodesEqual(a, b)
    ensures NodesEqual(a, b) ==> forall i :: Value(a, i) == Value(b, i)
  {
    NodesEqualIffSameShape(a, b);
    if forall i :: Value(a, i) == Value(b, i) {
      Canonical(a, b);
    }
    if NodesEqual(a, b) {
      forall i ensures Value(a, i) == Value(b, i) {
        EqualNodesSameValue(a, b, i);
      }
    }
  }

  // ---------------------------------------------------------------------
  // The operations keep the order

    /** In a strictly sorted order, every later variable follows the one at `level`. */
  lemma LaterAbove(order: seq<string>, level: nat)
    requires StrictlySorted(order) && level < |order|
    ensures forall m :: m in Elems(order[level + 1..]) ==> Less(order[level], m)
  {
    forall m | m in Elems(order[level + 1..]) ensures Less(order[level], m) {
      var j :| 0 <= j < |order[level + 1..]| && order[level + 1..][j] == m;
      assert order[level + 1 + j] == m;
    }
  }

  /** A decision over ordered children whose labels all follow its own is ordered. */
  lemma OrderedStep(n: Node, later: set<string>)
    requires n.Decision? && Ordered(n.low) && Ordered(n.high)
    requires Labels(n.low) <= later && Labels(n.high) <= later
    requires forall m :: m in later ==> Less(n.name, m)
    ensures Ordered(n)
  {
  }

/** With a strictly sorted order, every built subtree is ordered. */
  lemma {:induction false} BuildTreeOrdered(f: Formula, order: seq<string>, level: nat, partial: Interpretation, next: nat, n: Node, next': nat)
    requires StrictlySorted(order) && level <= |order|
    requires BuildTree(f, order, level, partial, next) == Ok((n, next'))
    ensures Ordered(n)
    decreases |order| - level
  {
    if level < |order| {
      var v := order[level];
      var low := BuildTree(f, order, level + 1, Assign(Copy(partial), v, false), next).value;
      var high := BuildTree(f, order, level + 1, Assign(Copy(partial), v, true), low.1).value;
      var later := Elems(order[level + 1..]);
      assert Ordered(low.0) && Labels(low.0) <= later by {
        BuildTreeOrdered(f, order, level + 1, Assign(Copy(partial), v, false), next, low.0, low.1);
        BuildTreeLabels(f, order, level + 1, Assign(Copy(partial), v, false), next, low.0, low.1);
      }
      assert Ordered(high.0) && Labels(high.0) <= later by {
        BuildTreeOrdered(f, order, level + 1, Assign(Copy(partial), v, true), low.1, high.0, high.1);
        BuildTreeLabels(f, order, level + 1, Assign(Copy(partial), v, true), low.1, high.0, high.1);
      }
      LaterAbove(order, level);
      OrderedStep(Decision(high.1, v, low.0, high.0), later);
      assert n == Decision(high.1, v, low.0, high.0);
    }
  }

  lemma BuildOrdered(f: Formula, order: seq<string>, next: nat, n: Node, next': nat)
    requires StrictlySorted(order)
    requires BuildFromFormula(f, order, next) == Ok((n, next'))
    ensures Ordered(n)
  {
    if |order| > 0 {
      BuildTreeOrdered(f, order, 0, Empty, next, n, next');
    }
  }

  /** Reduction keeps the order. */
  lemma {:induction false} ReduceOrdered(n: Node, st: Reducer)
    requires Inv(st.table, st.next) && Ordered(n)
    ensures Ordered(ReduceNode(n, st).node)
  {
    match n
    case Terminal(_) =>
    case Decision(_, l, lo, hi) =>
      var a := ReduceNode(lo, st);
      var b := ReduceNode(hi, a.state);
      assert Ordered(a.node) && Labels(a.node) <= Labels(lo) && Inv(a.state.table, a.state.next) by {
        ReduceOrdered(lo, st);
        ReduceLabels(lo, st);
        ReduceInv(lo, st);
      }
      assert Ordered(b.node) && Labels(b.node) <= Labels(hi) && Inv(b.state.table, b.state.next) by {
        ReduceOrdered(hi, a.state);
        ReduceLabels(hi, a.state);
        ReduceInv(hi, a.state);
      }
      if !NodesEqual(a.node, b.node) {
        HashConsNode(b.state.table, b.state.next, l, a.node, b.node);
      }
  }

  /** The cofactors of ordered operands are ordered, test only the
      operands' labels, and test only labels after the chosen one, which is
      itself one of the operands' labels. */
  lemma CofactorsOrdered(a: Node, b: Node)
    requires Ordered(a) && Ordered(b) && (a.Decision? || b.Decision?)
    ensures var c := Cofactors(a, b);
      && Ordered(c.a0) && Ordered(c.a1) && Ordered(c.b0) && Ordered(c.b1)
      && c.name in Labels(a) + Labels(b)
      && Labels(c.a0) + Labels(c.a1) + Labels(c.b0) + Labels(c.b1) <= Labels(a) + Labels(b)
      && (forall m :: m in Labels(c.a0) + Labels(c.b0) ==> Less(c.name, m))
      && (forall m :: m in Labels(c.a1) + Labels(c.b1) ==> Less(c.name, m))
  {
    if a.Decision? && b.Decision? && a.name != b.name {
      if LessEq(a.name, b.name) {
        forall m | m in Labels(b) ensures Less(a.name, m) {
          if m != b.name {
            LessTransitive(a.name, b.name, m);
          }
        }
      } else {
        LessTotal(a.name, b.name);
        forall m | m in Labels(a) ensures Less(b.name, m) {
          if m != a.name {
            LessTransitive(b.name, a.name, m);
          }
        }
      }
    }
  }

  /** The cache keeps results that are ordered and test only their
      operands' labels. */
  ghost predicate CacheOrdered(c: map<CacheKey, Node>)
  {
    forall k :: k in c && Ordered(k.a) && Ordered(k.b) ==>
      Ordered(c[k]) && Labels(c[k]) <= Labels(k.a) + Labels(k.b)
  }

  /** The join of ordered results below a smaller label is ordered, and
      caching it keeps the cache ordered when its labels are the key's. */
  lemma JoinOrdered(key: CacheKey, l: string, lo: Node, hi: Node, e: Engine)
    requires TableFresh(e.unique, e.next) && Registered(e.unique, lo) && Registered(e.unique, hi)
    requires CacheOrdered(e.cache)
    requires Ordered(lo) && Ordered(hi) && Above(l, lo) && Above(l, hi)
    requires {l} + Labels(lo) + Labels(hi) <= Labels(key.a) + Labels(key.b)
    ensures var r := Join(key, l, lo, hi, e);
      && CacheOrdered(r.engine.cache)
      && Ordered(r.node) && Labels(r.node) <= {l} + Labels(lo) + Labels(hi)
  {
    if !NodesEqual(lo, hi) {
      MakeNodeFacts(l, lo, hi, e);
    }
  }

  /** `apply` on ordered operands gives an ordered result testing only their
      labels. */
  lemma {:induction false} ApplyOrdered(op: string, a: Node, b: Node, e: Engine)
    requires EngineOk(e) && CacheOrdered(e.cache) && Known(op)
    requires Ordered(a) && Ordered(b)
    ensures Apply(op, a, b, e).Ok?
    ensures var r := Apply(op, a, b, e).value;
      && CacheOrdered(r.engine.cache)
      && Ordered(r.node) && Labels(r.node) <= Labels(a) + Labels(b)
    decreases Size(a) + Size(b)
  {
    ApplyInv(op, a, b, e);
    var key := CacheKey(op, a, b);
    if key in e.cache {
    } else if a.Terminal? && b.Terminal? {
    } else {
      var c := Cofactors(a, b);
      CofactorsOrdered(a, b);
      ApplyInv(op, c.a0, c.b0, e);
      var lo := Apply(op, c.a0, c.b0, e).value;
      ApplyInv(op, c.a1, c.b1, lo.engine);
      var hi := Apply(op, c.a1, c.b1, lo.engine).value;
      assert Ordered(lo.node) && Above(c.name, lo.node) && Labels(lo.node) <= Labels(a) + Labels(b)
        && CacheOrdered(lo.engine.cache) by {
        ApplyOrdered(op, c.a0, c.b0, e);
      }
      assert Ordered(hi.node) && Above(c.name, hi.node) && Labels(hi.node) <= Labels(a) + Labels(b)
        && CacheOrdered(hi.engine.cache) by {
        ApplyOrdered(op, c.a1, c.b1, lo.engine);
      }
      RegisteredGrows(lo.engine.unique, hi.engine.unique, lo.node);
      JoinOrdered(key, c.name, lo.node, hi.node, hi.engine);
    }
  }

  // ---------------------------------------------------------------------
  // Consequences

  /** The compared diagram of an ordered diagram is ordered. */
  lemma ForComparisonOrdered(d: Diagram, next: nat)
    requires d.root.Some? && Ordered(d.root.value)
    ensures Ordered(ForComparison(d, next).0.root.value)
    ensures Reduced(ForComparison(d, next).0.root.value)
  {
    ForComparisonFacts(d, next);
    IsReducedCorrect(ForComparison(d, next).0);
    if !IsReduced(d) {
      StartInv(next);
      ReduceOrdered(d.root.value, Start(next));
    }
  }

  /** On ordered diagrams `are_equivalent` is exact: it answers true
      precisely when the two roots mean the same function. */
  lemma EquivalentExact(d1: Diagram, d2: Diagram, next: nat)
    requires d1.root.Some? && d2.root.Some?
    requires Ordered(d1.root.value) && Ordered(d2.root.value)
    ensures AreEquivalent(d1, d2, next).Ok?
    ensures AreEquivalent(d1, d2, next).value ==>
      forall i :: Value(d1.root.value, i) == Value(d2.root.value, i)
    ensures (forall i :: Value(d1.root.value, i) == Value(d2.root.value, i)) ==>
      AreEquivalent(d1, d2, next).value
  {
    var c1 := ForComparison(d1, next);
    var c2 := ForComparison(d2, c1.1);
    ForComparisonOrdered(d1, next);
    ForComparisonOrdered(d2, c1.1);
    ForComparisonFacts(d1, next);
    ForComparisonFacts(d2, c1.1);
    CanonicalEquality(c1.0.root.value, c2.0.root.value);
  }

  /** A reduced ordered root means TRUE everywhere only when it is the
      TRUE terminal, and FALSE everywhere only when it is FALSE. */
  lemma ConstantIsTerminal(n: Node)
    requires Ordered(n) && NoRedundant(Reach(n))
    ensures (forall i :: Value(n, i)) ==> n == TRUE
    ensures (forall i :: !Value(n, i)) ==> n == FALSE
  {
    assert Reach(TRUE) == {TRUE} && Reach(FALSE) == {FALSE};
    if forall i :: Value(n, i) {
      Canonical(n, TRUE);
    }
    if forall i :: !Value(n, i) {
      Canonical(n, FALSE);
    }
  }

  // ---------------------------------------------------------------------
  // Diagrams from formulas

  /** The diagram `BDD(f)` builds with the default order. */
  function FromFormula(f: Formula, next: nat): (r: (Diagram, nat))
    ensures r.0.root.Some?
    ensures forall i :: Value(r.0.root.value, i) == Holds(f, i)
    ensures Ordered(r.0.root.value)
  {
    BuildErrors(f, [], next);
    var o := ChooseOrder(Some(f), []);
    BuildCorrect(f, o, next);
    var b := BuildFromFormula(f, o, next).value;
    BuildOrdered(f, o, next, b.0, b.1);
    NewDiagram(Some(f), [], next).value
  }

  /** Reducing an ordered diagram whose root is constant leaves just the
      matching terminal. */
  lemma ReducedConstant(d: Diagram, next: nat)
    requires d.root.Some? && Ordered(d.root.value)
    ensures (forall i :: Value(d.root.value, i)) ==> ReduceDiagram(d, next).diagram.root == Some(TRUE)
    ensures (forall i :: !Value(d.root.value, i)) ==> ReduceDiagram(d, next).diagram.root == Some(FALSE)
  {
    var r := ReduceDiagram(d, next);
    ReduceDiagramCorrect(d, next);
    IsReducedCorrect(r.diagram);
    StartInv(next);
    ReduceOrdered(d.root.value, Start(next));
    ConstantIsTerminal(r.diagram.root.value);
  }

  /** A formula true everywhere reduces to the TRUE terminal, one false
      everywhere to FALSE. */
  lemma ConstantFormulaReduces(f: Formula, next: nat)
    ensures var d := FromFormula(f, next);
      (forall i :: Holds(f, i)) ==> ReduceDiagram(d.0, d.1).diagram.root == Some(TRUE)
    ensures var d := FromFormula(f, next);
      (forall i :: !Holds(f, i)) ==> ReduceDiagram(d.0, d.1).diagram.root == Some(FALSE)
  {
    var d := FromFormula(f, next);
    ReducedConstant(d.0, d.1);
  }

  /** `f ∨ ¬f` reduces to the TRUE terminal and `f ∧ ¬f` to FALSE, whatever
      the formula `f`. */
  lemma ExcludedMiddleReduces(f: Formula, next: nat)
    ensures var d := FromFormula(Or(f, Not(f)), next);
      ReduceDiagram(d.0, d.1).diagram.root == Some(TRUE)
    ensures var d := FromFormula(And(f, Not(f)), next);
      ReduceDiagram(d.0, d.1).diagram.root == Some(FALSE)
  {
    assert forall i :: Holds(Or(f, Not(f)), i);
    ConstantFormulaReduces(Or(f, Not(f)), next);
    assert forall i :: !Holds(And(f, Not(f)), i);
    ConstantFormulaReduces(And(f, Not(f)), next);
  }

  /** A combinator of two ordered diagrams is ordered and means the
      connective of the two formulas. */
  lemma CombineFormulas(op: string, f: Formula, g: Formula, next: nat)
    requires Known(op)
    ensures var d1 := FromFormula(f, next);
      var d2 := FromFormula(g, d1.1);
      var r := Combine(op, d1.0, d2.0, d2.1);
      && r.Ok? && r.value.0.root.Some?
      && Ordered(r.value.0.root.value)
      && forall i :: Value(r.value.0.root.value, i) == Holds(Connective(OpOf(op).value, f, g), i)
  {
    var d1 := FromFormula(f, next);
    var d2 := FromFormula(g, d1.1);
    CombineCorrect(op, d1.0, d2.0, d2.1);
    NewEngineOk(d2.1);
    ApplyOrdered(op, d1.0.root.value, d2.0.root.value, NewEngine(d2.1));
    var r := Combine(op, d1.0, d2.0, d2.1);
    forall i ensures Value(r.value.0.root.value, i) == Holds(Connective(OpOf(op).value, f, g), i) {
      EvalIsConnective(OpOf(op).value, f, g, i);
    }
  }

  /** Ordered diagrams of two formulas that agree everywhere are
      equivalent. */
  lemma SameFormulaEquivalent(d1: Diagram, d2: Diagram, f1: Formula, f2: Formula, next: nat)
    requires d1.root.Some? && d2.root.Some?
    requires Ordered(d1.root.value) && Ordered(d2.root.value)
    requires forall i :: Value(d1.root.value, i) == Holds(f1, i)
    requires forall i :: Value(d2.root.value, i) == Holds(f2, i)
    requires forall i :: Holds(f1, i) == Holds(f2, i)
    ensures AreEquivalent(d1, d2, next) == Ok(true)
  {
    EquivalentExact(d1, d2, next);
  }

  /** Conjunction distributes over disjunction. */
  lemma DistributesOverOr(f: Formula, g: Formula, h: Formula)
    ensures forall i :: Holds(Connective(OrOp, And(f, g), And(f, h)), i) == Holds(And(f, Or(g, h)), i)
  {
  }

  /** `(f ∧ g) ∨ (f ∧ h)`, combined from two diagrams, is equivalent to the
      diagram of `f ∧ (g ∨ h)`. */
  lemma Distributive(f: Formula, g: Formula, h: Formula, next: nat)
    ensures var d1 := FromFormula(And(f, g), next);
      var d2 := FromFormula(And(f, h), d1.1);
      var lhs := BddOr(d1.0, d2.0, d2.1);
      var rhs := FromFormula(And(f, Or(g, h)), next);
      lhs.Ok? && AreEquivalent(lhs.value.0, rhs.0, rhs.1) == Ok(true)
  {
    CombineFormulas("OR", And(f, g), And(f, h), next);
    var d1 := FromFormula(And(f, g), next);
    var d2 := FromFormula(And(f, h), d1.1);
    var lhs := BddOr(d1.0, d2.0, d2.1);
    var rhs := FromFormula(And(f, Or(g, h)), next);
    assert OpOf("OR") == Some(OrOp);
    assert A: forall i :: Value(lhs.value.0.root.value, i) == Holds(Connective(OrOp, And(f, g), And(f, h)), i);
    assert B: forall i :: Value(rhs.0.root.value, i) == Holds(And(f, Or(g, h)), i);
    DistributesOverOr(f, g, h);
    SameFormulaEquivalent(lhs.value.0, rhs.0, Connective(OrOp, And(f, g), And(f, h)), And(f, Or(g, h)), rhs.1);
  }

  /** Where `f` and `g` differ somewhere, the diagrams of `f ∨ g` and
      `f ∧ g` are not equivalent. */
  lemma OrIsNotAnd(f: Formula, g: Formula, i: Interpretation, next: nat)
    requires Holds(f, i) != Holds(g, i)
    ensures var d1 := FromFormula(Or(f, g), next);
      var d2 := FromFormula(And(f, g), d1.1);
      AreEquivalent(d1.0, d2.0, d2.1) == Ok(false)
  {
    var d1 := FromFormula(Or(f, g), next);
    var d2 := FromFormula(And(f, g), d1.1);
    EquivalentExact(d1.0, d2.0, d2.1);
    assert Value(d1.0.root.value, i) != Value(d2.0.root.value, i);
  }

  // ---------------------------------------------------------------------
  // The size of a reduced diagram

  /** A shape and every shape below it. */
  function SubShapes(s: Shape): set<Shape>
  {
    match s
    case Leaf(_) => {s}
    case Branch(_, lo, hi) => {s} + SubShapes(lo) + SubShapes(hi)
  }

  /** Below a root with no two decisions of one signature, a shape
      determines the node: structurally equal reachable nodes are one node. */
  lemma {:induction false} ShapeDeterminesNode(n: Node, d: Node, e: Node)
    requires SigsUnique(Reach(n)) && d in Reach(n) && e in Reach(n)
    requires ShapeOf(d) == ShapeOf(e)
    ensures d == e
    decreases Size(d)
  {
    if d.Decision? {
      assert e.Decision?;
      ReachClosed(n);
      assert Reach(d) <= Reach(n) && Reach(e) <= Reach(n);
      assert d.low in Reach(d) && d.high in Reach(d);
      assert e.low in Reach(e) && e.high in Reach(e);
      ShapeDeterminesNode(n, d.low, e.low);
      ShapeDeterminesNode(n, d.high, e.high);
      assert SigOf(d) == SigOf(e);
    }
  }

  /** The shapes of the nodes in `x`. */
  function ShapesOf(x: set<Node>): set<Shape>
  {
    set d | d in x :: ShapeOf(d)
  }

  /** The shapes of the nodes a node reaches are the sub-shapes of its shape. */
  lemma {:induction false} ShapesOfReach(n: Node)
    ensures ShapesOf(Reach(n)) == SubShapes(ShapeOf(n))
  {
    if n.Decision? {
      ShapesOfReach(n.low);
      ShapesOfReach(n.high);
      assert ShapesOf(Reach(n)) == {ShapeOf(n)} + ShapesOf(Reach(n.low)) + ShapesOf(Reach(n.high));
    } else {
      assert ShapesOf(Reach(n)) == {ShapeOf(n)};
    }
  }

  /** Where no two nodes share a shape, there are as many shapes as nodes. */
  lemma {:induction false} ShapeCount(x: set<Node>)
    requires forall d, e :: d in x && e in x && ShapeOf(d) == ShapeOf(e) ==> d == e
    ensures |ShapesOf(x)| == |x|
    decreases |x|
  {
    if x != {} {
      var y :| y in x;
      var rest := x - {y};
      ShapeCount(rest);
      assert ShapesOf(x) == ShapesOf(rest) + {ShapeOf(y)};
      assert ShapeOf(y) !in ShapesOf(rest);
    } else {
      assert ShapesOf(x) == {};
    }
  }

  /** A reduced node reaches exactly as many nodes as its shape has distinct
      sub-shapes, so the count after reduction depends only on the function. */
  lemma ReducedCount(n: Node)
    requires Reduced(n)
    ensures |Reach(n)| == |SubShapes(ShapeOf(n))|
  {
    forall d, e | d in Reach(n) && e in Reach(n) && ShapeOf(d) == ShapeOf(e)
      ensures d == e
    {
      ShapeDeterminesNode(n, d, e);
    }
    ShapeCount(Reach(n));
    ShapesOfReach(n);
  }

  /** The count `BDD.reduce` reports for a formula's diagram is the number of
      sub-shapes of any ordered root without redundant nodes that means the
      formula. */
  lemma ReducedSize(f: Formula, n: Node, next: nat)
    requires Ordered(n) && NoRedundant(Reach(n))
    requires forall i :: Value(n, i) == Holds(f, i)
    ensures var d := FromFormula(f, next);
      ReduceDiagram(d.0, d.1).report.after == Some(|SubShapes(ShapeOf(n))|)
  {
    var d := FromFormula(f, next);
    var r := ReduceDiagram(d.0, d.1);
    ReduceDiagramCorrect(d.0, d.1);
    var root := r.diagram.root.value;
    assert Reduced(root) by {
      IsReducedCorrect(r.diagram);
    }
    assert Ordered(root) by {
      StartInv(d.1);
      ReduceOrdered(d.0.root.value, Start(d.1));
    }
    assert forall i :: Value(root, i) == Value(n, i);
    Canonical(root, n);
    ReducedCount(root);
  }

  /** The reduced diagram of `p ∨ (q ∧ r)`: p, then q, then r. */
  function OrOfAnd(): Node
  {
    Decision(3, "p", Decision(2, "q", FALSE, Decision(1, "r", FALSE, TRUE)), TRUE)
  }

  /** That diagram is ordered and has no redundant node. */
  lemma OrOfAndShape()
    ensures Ordered(OrOfAnd()) && NoRedundant(Reach(OrOfAnd()))
  {
    var n := OrOfAnd();
    var q := n.low;
    var r := q.high;
    assert Labels(r) == {"r"};
    assert Labels(q) == {"q", "r"};
    assert Less("q", "r") && Less("p", "q") && Less("p", "r");
    assert Ordered(r);
    assert Above("q", r) && Ordered(q);
    assert Above("p", q) && Above("p", TRUE);
    assert Reach(n) == {n, q, r, FALSE, TRUE};
  }

  /** That diagram means `p ∨ (q ∧ r)`. */
  lemma OrOfAndMeaning()
    ensures forall i :: Value(OrOfAnd(), i) == Holds(Or(Variable("p"), And(Variable("q"), Variable("r"))), i)
  {
    forall i ensures Value(OrOfAnd(), i) == Holds(Or(Variable("p"), And(Variable("q"), Variable("r"))), i) {
      var n := OrOfAnd();
      assert Value(n.low.high, i) == Lookup(i, "r");
      assert Value(n.low, i) == (Lookup(i, "q") && Lookup(i, "r"));
      assert Value(n, i) == (Lookup(i, "p") || Value(n.low, i));
      assert Holds(And(Variable("q"), Variable("r")), i) == (Lookup(i, "q") && Lookup(i, "r"));
    }
  }

  /** That diagram has five distinct sub-shapes. */
  lemma OrOfAndSubShapes()
    ensures |SubShapes(ShapeOf(OrOfAnd()))| == 5
  {
    var n := OrOfAnd();
    var sr := Branch("r", Leaf(false), Leaf(true));
    var sq := Branch("q", Leaf(false), sr);
    var sp := Branch("p", sq, Leaf(true));
    assert ShapeOf(n) == sp;
    assert SubShapes(sp) == {sp, sq, sr, Leaf(false), Leaf(true)};
  }

  /** `p ∨ (q ∧ r)` over its sorted variables reduces to five nodes: one
      decision each on p, q and r, and the two terminals. */
  lemma OrOfAndReducesToFive(next: nat)
    ensures var f := Or(Variable("p"), And(Variable("q"), Variable("r")));
      var d := FromFormula(f, next);
      ReduceDiagram(d.0, d.1).report.after == Some(5)
  {
    OrOfAndShape();
    OrOfAndMeaning();
    OrOfAndSubShapes();
    ReducedSize(Or(Variable("p"), And(Variable("q"), Variable("r"))), OrOfAnd(), next);
  }
}
