/** `BDD` (bdd/diagram.py): a formula, a variable order and the root of the
    decision diagram built from them, with the queries over a root.

    Node ids come from a global counter in the source; here the counter is
    threaded explicitly: the operations that create nodes take the next free
    id and return the counter after them. */
module Diagrams {
  import opened Results
  import opened Interpretations
  import opened Strings
  import opened Formulas
  import opened Nodes
  import TruthTables
  import Parser

  datatype Diagram = Diagram(formula: Option<Formula>, root: Option<Node>, order: seq<string>)

  /** The order `__init__` settles on: the one given unless it is empty (or
      absent), then the formula's sorted variables; without a formula, the
      one given. */
  function ChooseOrder(f: Option<Formula>, order: seq<string>): (r: seq<string>)
    ensures |order| > 0 ==> r == order
    ensures f.Some? && |order| == 0 ==> StrictlySorted(r) && Elems(r) == Vars(f.value)
    ensures f.None? ==> r == order
  {
    if f.Some? then (if |order| > 0 then order else SortedVars(f.value))
    else order
  }

  // ---------------------------------------------------------------------
  // Construction

  /** `_build_tree`: at `level` split on `order[level]`, building the low
      child under the variable false and then the high child under it true;
      past the last level, the terminal for the formula's value under the
      assignments made on the way down. */
  function BuildTree(f: Formula, order: seq<string>, level: nat, partial: Interpretation, next: nat)
    : Result<(Node, nat)>
    decreases |order| - level
  {
    if level >= |order| then
      var b :- Evaluate(f, partial);
      Ok((if b then TRUE else FALSE, next))
    else
      var v := order[level];
      var low :- BuildTree(f, order, level + 1, Assign(Copy(partial), v, false), next);
      var high :- BuildTree(f, order, level + 1, Assign(Copy(partial), v, true), low.1);
      Ok(CreateVariable(high.1, v, low.0, high.0))
  }

  /** `_build_from_formula`: without variables, the terminal for the
      formula's value under the empty interpretation; otherwise the tree from
      level 0. */
  function BuildFromFormula(f: Formula, order: seq<string>, next: nat): Result<(Node, nat)>
  {
    if |order| == 0 then
      var b :- Evaluate(f, Empty);
      Ok((if b then TRUE else FALSE, next))
    else BuildTree(f, order, 0, Empty, next)
  }

  /** `BDD(formula, variable_order)`. */
  function NewDiagram(f: Option<Formula>, order: seq<string>, next: nat): (r: Result<(Diagram, nat)>)
    ensures r.Ok? ==> r.value.0.formula == f && r.value.0.order == ChooseOrder(f, order)
    ensures r.Ok? ==> (r.value.0.root.Some? <==> f.Some?)
    ensures f.None? ==> r.Ok? && r.value.1 == next
  {
    var o := ChooseOrder(f, order);
    if f.None? then Ok((Diagram(None, None, o), next))
    else
      var b :- BuildFromFormula(f.value, o, next);
      Ok((Diagram(f, Some(b.0), o), b.1))
  }

  /** The interpretation the builder has made once it has passed `vs`,
      starting from `p`, on the path `i` selects. */
  function Over(p: Interpretation, vs: seq<string>, i: Interpretation): Interpretation
    decreases |vs|
  {
    if |vs| == 0 then p else Over(Assign(p, vs[0], Lookup(i, vs[0])), vs[1..], i)
  }

  lemma {:induction false} OverFacts(p: Interpretation, vs: seq<string>, i: Interpretation)
    ensures Over(p, vs, i).Keys == p.Keys + Elems(vs)
    ensures forall v :: Lookup(Over(p, vs, i), v) == if v in Elems(vs) then Lookup(i, v) else Lookup(p, v)
    decreases |vs|
  {
    if |vs| > 0 {
      OverFacts(Assign(p, vs[0], Lookup(i, vs[0])), vs[1..], i);
      assert vs == [vs[0]] + vs[1..];
      assert Elems(vs) == {vs[0]} + Elems(vs[1..]);
    }
  }

  /** What a built subtree means: at every interpretation, the formula's
      value under the builder's assignments along the path it selects. */
  lemma {:induction false} BuildTreeMeaning(f: Formula, order: seq<string>, level: nat, partial: Interpretation, next: nat, i: Interpretation)
    requires level <= |order|
    requires BuildTree(f, order, level, partial, next).Ok?
    ensures Value(BuildTree(f, order, level, partial, next).value.0, i) == Holds(f, Over(partial, order[level..], i))
    decreases |order| - level
  {
    if level < |order| {
      var v := order[level];
      var b := Lookup(i, v);
      var low := BuildTree(f, order, level + 1, Assign(Copy(partial), v, false), next);
      var high := BuildTree(f, order, level + 1, Assign(Copy(partial), v, true), low.value.1);
      assert order[level..][1..] == order[level + 1..];
      if b {
        BuildTreeMeaning(f, order, level + 1, Assign(Copy(partial), v, true), low.value.1, i);
      } else {
        BuildTreeMeaning(f, order, level + 1, Assign(Copy(partial), v, false), next, i);
      }
    }
  }

  /** The builder fails only when the formula needs a variable that is
      neither assigned already nor among the remaining levels, and then it
      names that variable. */
  lemma {:induction false} BuildTreeErrors(f: Formula, order: seq<string>, level: nat, partial: Interpretation, next: nat)
    requires level <= |order|
    ensures Vars(f) <= partial.Keys + Elems(order[level..]) ==> BuildTree(f, order, level, partial, next).Ok?
    ensures BuildTree(f, order, level, partial, next).Err? ==>
      var e := BuildTree(f, order, level, partial, next).error;
      e.Unassigned? && e.name in Vars(f) && e.name !in partial.Keys + Elems(order[level..])
    decreases |order| - level
  {
    if level < |order| {
      var v := order[level];
      assert order[level..] == [v] + order[level + 1..];
      assert Elems(order[level..]) == {v} + Elems(order[level + 1..]);
      BuildTreeErrors(f, order, level + 1, Assign(Copy(partial), v, false), next);
      var low := BuildTree(f, order, level + 1, Assign(Copy(partial), v, false), next);
      if low.Ok? {
        BuildTreeErrors(f, order, level + 1, Assign(Copy(partial), v, true), low.value.1);
      }
    }
  }

  /** Every decision of a built subtree has a fresh id from [next, next'),
      so no two of its decisions are the same object. */
  lemma {:induction false} BuildTreeIds(f: Formula, order: seq<string>, level: nat, partial: Interpretation, next: nat, n: Node, next': nat)
    requires BuildTree(f, order, level, partial, next) == Ok((n, next'))
    ensures next <= next'
    ensures forall d :: d in Reach(n) && d.Decision? ==> next <= d.uid < next'
    ensures WellIdentified(n)
    decreases |order| - level
  {
    if level < |order| {
      var v := order[level];
      var low := BuildTree(f, order, level + 1, Assign(Copy(partial), v, false), next).value;
      var high := BuildTree(f, order, level + 1, Assign(Copy(partial), v, true), low.1).value;
      BuildTreeIds(f, order, level + 1, Assign(Copy(partial), v, false), next, low.0, low.1);
      BuildTreeIds(f, order, level + 1, Assign(Copy(partial), v, true), low.1, high.0, high.1);
      assert n == Decision(high.1, v, low.0, high.0);
    }
  }

  /** A built subtree tests only the remaining variables, each at most once
      on a path when they are distinct. */
  lemma {:induction false} BuildTreeLabels(f: Formula, order: seq<string>, level: nat, partial: Interpretation, next: nat, n: Node, next': nat)
    requires level <= |order|
    requires BuildTree(f, order, level, partial, next) == Ok((n, next'))
    ensures Labels(n) <= Elems(order[level..])
    ensures Distinct(order[level..]) ==> Free(n)
    decreases |order| - level
  {
    if level < |order| {
      var v := order[level];
      assert order[level..] == [v] + order[level + 1..];
      assert Elems(order[level..]) == {v} + Elems(order[level + 1..]);
      var low := BuildTree(f, order, level + 1, Assign(Copy(partial), v, false), next).value;
      var high := BuildTree(f, order, level + 1, Assign(Copy(partial), v, true), low.1).value;
      BuildTreeLabels(f, order, level + 1, Assign(Copy(partial), v, false), next, low.0, low.1);
      BuildTreeLabels(f, order, level + 1, Assign(Copy(partial), v, true), low.1, high.0, high.1);
      assert n == Decision(high.1, v, low.0, high.0);
      if Distinct(order[level..]) {
        DistinctTail(order[level..]);
        assert order[level..][1..] == order[level + 1..];
        FreeStep(n);
      }
    }
  }

  /** A built subtree is the complete tree: 2^k - 1 decisions over the k
      remaining levels. */
  lemma {:induction false} BuildTreeCount(f: Formula, order: seq<string>, level: nat, partial: Interpretation, next: nat, n: Node, next': nat)
    requires level <= |order|
    requires BuildTree(f, order, level, partial, next) == Ok((n, next'))
    ensures DecisionCount(n) == TruthTables.Pow2(|order| - level) - 1
    decreases |order| - level, 1
  {
    if level < |order| {
      BuildTreeCountStep(f, order, level, partial, next, n, next');
    } else {
      assert n.Terminal?;
    }
  }

  /** The step of `BuildTreeCount`: a decision over two complete subtrees
      of one level less. */
  lemma {:induction false} BuildTreeCountStep(f: Formula, order: seq<string>, level: nat, partial: Interpretation, next: nat, n: Node, next': nat)
    requires level < |order|
    requires BuildTree(f, order, level, partial, next) == Ok((n, next'))
    ensures DecisionCount(n) == TruthTables.Pow2(|order| - level) - 1
    decreases |order| - level, 0
  {
    var v := order[level];
    var pl, ph := Assign(Copy(partial), v, false), Assign(Copy(partial), v, true);
    var low, high := BuildTreeSplit(f, order, level, partial, next, n, next');
    var k := |order| - (level + 1);
    BuildTreeCount(f, order, level + 1, pl, next, low.0, low.1);
    BuildTreeCount(f, order, level + 1, ph, low.1, high.0, high.1);
    assert |order| - level == k + 1;
    assert TruthTables.Pow2(k + 1) == 2 * TruthTables.Pow2(k);
  }

  /** A successful build at a level below the order's length is a decision
      on that level's variable over the two successful builds one level
      down. */
  lemma BuildTreeSplit(f: Formula, order: seq<string>, level: nat, partial: Interpretation, next: nat, n: Node, next': nat)
    returns (low: (Node, nat), high: (Node, nat))
    requires level < |order|
    requires BuildTree(f, order, level, partial, next) == Ok((n, next'))
    ensures BuildTree(f, order, level + 1, Assign(Copy(partial), order[level], false), next) == Ok(low)
    ensures BuildTree(f, order, level + 1, Assign(Copy(partial), order[level], true), low.1) == Ok(high)
    ensures n == Decision(high.1, order[level], low.0, high.0) && next' == high.1 + 1
  {
    var v := order[level];
    low := BuildTree(f, order, level + 1, Assign(Copy(partial), v, false), next).value;
    high := BuildTree(f, order, level + 1, Assign(Copy(partial), v, true), low.1).value;
  }

  /** The tail of a list without repeats has none and lacks the head. */
  lemma DistinctTail(s: seq<string>)
    requires |s| > 0 && Distinct(s)
    ensures Distinct(s[1..]) && s[0] !in Elems(s[1..])
  {
  }

  /** No decision tests a variable that is tested again below it. */
  ghost predicate Free(n: Node)
  {
    forall d :: d in Reach(n) && d.Decision? ==> d.name !in Labels(d.low) && d.name !in Labels(d.high)
  }

  lemma FreeStep(n: Node)
    requires n.Decision? && Free(n.low) && Free(n.high)
    requires n.name !in Labels(n.low) && n.name !in Labels(n.high)
    ensures Free(n)
  {
  }

  lemma FreeBelow(n: Node, d: Node)
    requires Free(n) && d in Reach(n)
    ensures Free(d)
  {
    ReachBelow(n, d);
  }

  /** The diagram built from a formula means the formula: whenever the order
      covers the formula's variables, building succeeds and the root's value
      at every interpretation is the formula's. */
  lemma BuildCorrect(f: Formula, order: seq<string>, next: nat)
    requires Vars(f) <= Elems(order)
    ensures BuildFromFormula(f, order, next).Ok?
    ensures forall i :: Value(BuildFromFormula(f, order, next).value.0, i) == Holds(f, i)
  {
    VarsNonEmpty(f);
    assert |order| > 0;
    assert order[0..] == order;
    BuildTreeErrors(f, order, 0, Empty, next);
    forall i ensures Value(BuildFromFormula(f, order, next).value.0, i) == Holds(f, i) {
      BuildTreeMeaning(f, order, 0, Empty, next, i);
      OverFacts(Empty, order, i);
      HoldsLocal(f, Over(Empty, order, i), i);
    }
  }

  /** Which covering order is used does not change what the diagram means. */
  lemma OrderIrrelevant(f: Formula, o1: seq<string>, o2: seq<string>, n1: nat, n2: nat, i: Interpretation)
    requires Vars(f) <= Elems(o1) && Vars(f) <= Elems(o2)
    ensures BuildFromFormula(f, o1, n1).Ok? && BuildFromFormula(f, o2, n2).Ok?
    ensures Value(BuildFromFormula(f, o1, n1).value.0, i) == Value(BuildFromFormula(f, o2, n2).value.0, i)
  {
    BuildCorrect(f, o1, n1);
    BuildCorrect(f, o2, n2);
  }

  /** Building with an order that leaves out a variable the formula needs
      fails naming it; the default order never does. */
  lemma BuildErrors(f: Formula, order: seq<string>, next: nat)
    ensures BuildFromFormula(f, order, next).Err? ==>
      var e := BuildFromFormula(f, order, next).error;
      e.Unassigned? && e.name in Vars(f) && e.name !in Elems(order)
    ensures Vars(f) <= Elems(order) ==> BuildFromFormula(f, order, next).Ok?
    ensures BuildFromFormula(f, ChooseOrder(Some(f), []), next).Ok?
  {
    if |order| > 0 {
      assert order[0..] == order;
      BuildTreeErrors(f, order, 0, Empty, next);
    }
    if Vars(f) <= Elems(order) {
      BuildCorrect(f, order, next);
    }
    BuildCorrect(f, ChooseOrder(Some(f), []), next);
  }

  /** A variable missing from the order fails the build only when some
      evaluation reaches it: `(p ∧ ¬p) ∧ q` over `[p]` never evaluates `q`,
      since every row makes the left conjunct false. */
  lemma BuildSkipsUnread(next: nat)
    ensures var f := And(And(Variable("p"), Not(Variable("p"))), Variable("q"));
      "q" in Vars(f) && "q" !in Elems(["p"]) && BuildFromFormula(f, ["p"], next).Ok?
  {
    var f := And(And(Variable("p"), Not(Variable("p"))), Variable("q"));
    var lo := Assign(Copy(Empty), "p", false);
    var hi := Assign(Copy(Empty), "p", true);
    assert lo == map["p" := false] && hi == map["p" := true];
    assert Evaluate(Variable("p"), lo) == Ok(false);
    assert Evaluate(f, lo) == Ok(false);
    assert Evaluate(Variable("p"), hi) == Ok(true);
    assert Evaluate(Not(Variable("p")), hi) == Ok(false);
    assert Evaluate(f, hi) == Ok(false);
    assert BuildTree(f, ["p"], 1, lo, next).Ok?;
    assert BuildTree(f, ["p"], 1, hi, next).Ok?;
    assert ["p"][0..] == ["p"];
  }

  /** The built root's shape: fresh distinct ids, only the order's variables,
      each once on a path when the order has no repeats, and 2^n - 1
      decisions for an order of n variables. */
  lemma BuildShape(f: Formula, order: seq<string>, next: nat, n: Node, next': nat)
    requires BuildFromFormula(f, order, next) == Ok((n, next'))
    ensures forall d :: d in Reach(n) && d.Decision? ==> next <= d.uid < next'
    ensures WellIdentified(n)
    ensures Labels(n) <= Elems(order)
    ensures Distinct(order) ==> Free(n)
    ensures DecisionCount(n) == TruthTables.Pow2(|order|) - 1
  {
    if |order| > 0 {
      BuildShapeTree(f, order, next, n, next');
    } else {
      assert n.Terminal?;
    }
  }

  /** `BuildShape` when the order is not empty: the whole tree from level 0. */
  lemma BuildShapeTree(f: Formula, order: seq<string>, next: nat, n: Node, next': nat)
    requires BuildTree(f, order, 0, Empty, next) == Ok((n, next'))
    ensures forall d :: d in Reach(n) && d.Decision? ==> next <= d.uid < next'
    ensures WellIdentified(n)
    ensures Labels(n) <= Elems(order)
    ensures Distinct(order) ==> Free(n)
    ensures DecisionCount(n) == TruthTables.Pow2(|order|) - 1
  {
    BuildTreeIds(f, order, 0, Empty, next, n, next');
    assert order[0..] == order;
    BuildTreeLabels(f, order, 0, Empty, next, n, next');
    BuildTreeCount(f, order, 0, Empty, next, n, next');
  }

  // ---------------------------------------------------------------------
  // Evaluation

  /** The source's evaluation of a root, as a recursive reference: follow
      high on true and low on false to a terminal, failing on the first
      label met that is not assigned. */
  function Walk(n: Node, i: Interpretation): (r: Result<bool>)
    ensures r.Ok? ==> r.value == Value(n, i)
    ensures Labels(n) <= i.Keys ==> r.Ok?
    ensures r.Err? ==> r.error.Unassigned? && r.error.name in Labels(n) && r.error.name !in i
  {
    match n
    case Terminal(b) => Ok(b)
    case Decision(_, l, lo, hi) =>
      match Get(i, l)
      case None => Err(Unassigned(l))
      case Some(b) => if b then Walk(hi, i) else Walk(lo, i)
  }

  /** `evaluate`: the source's loop down from the root. */
  method EvaluateDiagram(d: Diagram, i: Interpretation) returns (r: Result<bool>)
    ensures d.root.None? ==> r == Err(EmptyDiagram)
    ensures d.root.Some? ==> r == Walk(d.root.value, i)
  {
    if d.root.None? {
      return Err(EmptyDiagram);
    }
    var current := d.root.value;
    while current.Decision?
      invariant Walk(current, i) == Walk(d.root.value, i)
      decreases Size(current)
    {
      var b := Get(i, current.name);
      if b.None? {
        return Err(Unassigned(current.name));
      }
      current := if b.value then current.high else current.low;
    }
    return Ok(current.value);
  }

  /** The diagram built from a formula evaluates as the formula does at
      every interpretation assigning the order's variables. */
  lemma EvaluateAgrees(f: Formula, order: seq<string>, next: nat, i: Interpretation)
    requires Vars(f) <= Elems(order) && Elems(order) <= i.Keys
    ensures BuildFromFormula(f, order, next).Ok?
    ensures Walk(BuildFromFormula(f, order, next).value.0, i) == Evaluate(f, i)
  {
    BuildCorrect(f, order, next);
    var (n, next') := BuildFromFormula(f, order, next).value;
    BuildShape(f, order, next, n, next');
  }

  // ---------------------------------------------------------------------
  // Satisfiability and validity

  /** `_has_path_to`: some root-to-terminal path ends at `target`. */
  predicate HasPathTo(n: Node, target: bool)
  {
    match n
    case Terminal(b) => b == target
    case Decision(_, _, lo, hi) => HasPathTo(lo, target) || HasPathTo(hi, target)
  }

  /** The path an interpretation selects is a path to its value. */
  lemma {:induction false} PathOfValue(n: Node, i: Interpretation)
    ensures HasPathTo(n, Value(n, i))
  {
    if n.Decision? {
      PathOfValue(n.low, i);
      PathOfValue(n.high, i);
    }
  }

  /** In a free diagram every path is selected by some interpretation. */
  lemma {:induction false} ValueOfPath(n: Node, target: bool) returns (i: Interpretation)
    requires Free(n) && HasPathTo(n, target)
    ensures Value(n, i) == target
  {
    i := Empty;
    if n.Decision? {
      FreeBelow(n, n.low);
      FreeBelow(n, n.high);
      if HasPathTo(n.low, target) {
        var j := ValueOfPath(n.low, target);
        i := j[n.name := false];
        ValueLocal(n.low, i, j);
      } else {
        var j := ValueOfPath(n.high, target);
        i := j[n.name := true];
        ValueLocal(n.high, i, j);
      }
    }
  }

  /** `is_satisfiable`: a path to TRUE. */
  function IsSatisfiable(d: Diagram): (r: Result<bool>)
    ensures d.root.None? <==> r == Err(EmptyDiagram)
    ensures r.Ok? && (exists i :: Value(d.root.value, i)) ==> r.value
  {
    if d.root.None? then Err(EmptyDiagram)
    else
      assert forall i :: Value(d.root.value, i) ==> HasPathTo(d.root.value, true) by {
        forall i | Value(d.root.value, i) ensures HasPathTo(d.root.value, true) {
          PathOfValue(d.root.value, i);
        }
      }
      Ok(HasPathTo(d.root.value, true))
  }

  /** `is_valid`: the root is the TRUE terminal, or no path reaches FALSE. */
  function IsValid(d: Diagram): (r: Result<bool>)
    ensures d.root.None? <==> r == Err(EmptyDiagram)
    ensures r.Ok? && r.value ==> forall i :: Value(d.root.value, i)
  {
    if d.root.None? then Err(EmptyDiagram)
    else
      assert !HasPathTo(d.root.value, false) ==> forall i :: Value(d.root.value, i) by {
        forall i ensures HasPathTo(d.root.value, Value(d.root.value, i)) {
          PathOfValue(d.root.value, i);
        }
      }
      Ok(NodesEqual(d.root.value, TRUE) || !HasPathTo(d.root.value, false))
  }

  /** On a free root both queries are exact. */
  lemma QueriesExact(d: Diagram)
    requires d.root.Some? && Free(d.root.value)
    ensures IsSatisfiable(d) == Ok(exists i :: Value(d.root.value, i))
    ensures IsValid(d) == Ok(forall i :: Value(d.root.value, i))
  {
    var n := d.root.value;
    if HasPathTo(n, true) {
      var i := ValueOfPath(n, true);
    }
    if HasPathTo(n, false) {
      var i := ValueOfPath(n, false);
      assert !Value(n, i);
    }
  }

  /** A diagram built over distinct variables covering the formula is
      satisfiable exactly when the formula is, and valid exactly when the
      formula is a tautology. */
  lemma QueriesMatchFormula(f: Formula, order: seq<string>, next: nat)
    requires Vars(f) <= Elems(order) && Distinct(order)
    ensures BuildFromFormula(f, order, next).Ok?
    ensures var d := Diagram(Some(f), Some(BuildFromFormula(f, order, next).value.0), order);
      && IsSatisfiable(d).Ok?
      && (IsSatisfiable(d).value ==> exists i :: Holds(f, i))
      && ((exists i :: Holds(f, i)) ==> IsSatisfiable(d).value)
    ensures var d := Diagram(Some(f), Some(BuildFromFormula(f, order, next).value.0), order);
      && IsValid(d).Ok?
      && (IsValid(d).value ==> forall i :: Holds(f, i))
      && ((forall i :: Holds(f, i)) ==> IsValid(d).value)
  {
    BuildCorrect(f, order, next);
    var (n, next') := BuildFromFormula(f, order, next).value;
    BuildShape(f, order, next, n, next');
    var d := Diagram(Some(f), Some(n), order);
    QueriesExact(d);
    if exists i :: Holds(f, i) {
      var i :| Holds(f, i);
      assert Value(n, i);
    }
    if IsSatisfiable(d).value {
      var i :| Value(n, i);
      assert Holds(f, i);
    }
    if !forall i :: Holds(f, i) {
      var i :| !Holds(f, i);
      assert !Value(n, i);
    }
    if IsValid(d).value {
      forall i ensures Holds(f, i) {
        assert Value(n, i);
      }
    }
  }

  /** p ∧ ¬p is unsatisfiable and p ∨ ¬p is valid, under any order covering p. */
  lemma ContradictionAndExcludedMiddle(p: string, order: seq<string>, next: nat)
    requires p in order && Distinct(order)
    ensures var f := And(Variable(p), Not(Variable(p)));
      BuildFromFormula(f, order, next).Ok?
      && IsSatisfiable(Diagram(Some(f), Some(BuildFromFormula(f, order, next).value.0), order)) == Ok(false)
    ensures var g := Or(Variable(p), Not(Variable(p)));
      BuildFromFormula(g, order, next).Ok?
      && IsValid(Diagram(Some(g), Some(BuildFromFormula(g, order, next).value.0), order)) == Ok(true)
  {
    var f := And(Variable(p), Not(Variable(p)));
    var g := Or(Variable(p), Not(Variable(p)));
    QueriesMatchFormula(f, order, next);
    QueriesMatchFormula(g, order, next);
    assert forall i :: Holds(g, i);
  }

  // ---------------------------------------------------------------------
  // From text

  /** `create_bdd_from_string`: parse the text, then build the diagram; a
      tokenizer or parser error is passed on unchanged. */
  function CreateFromString(s: string, order: seq<string>, next: nat): (r: Result<(Diagram, nat)>)
    ensures Parser.Parse(s).Err? ==> r == Err(Parser.Parse(s).error)
    ensures r.Ok? ==> Parser.Parse(s).Ok? && r.value.0.formula == Some(Parser.Parse(s).value)
    ensures r.Ok? ==> r.value.0.root.Some? && r.value.0.order == ChooseOrder(r.value.0.formula, order)
  {
    var f :- Parser.Parse(s);
    NewDiagram(Some(f), order, next)
  }

  /** Printing a formula and reading it back with the default order builds a
      diagram of that formula whose root means it. */
  lemma FromStringMeaning(f: Formula, next: nat)
    requires Parser.WellNamed(f)
    ensures CreateFromString(Parser.Show(f), [], next).Ok?
    ensures var d := CreateFromString(Parser.Show(f), [], next).value.0;
      d.formula == Some(f) && forall i :: Value(d.root.value, i) == Holds(f, i)
  {
    Parser.ShowRoundTrip(f);
    var o := ChooseOrder(Some(f), []);
    BuildErrors(f, o, next);
    BuildCorrect(f, o, next);
  }
}
