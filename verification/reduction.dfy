/** `BDDReducer` (bdd/reduction.py) and `BDD.reduce` (bdd/diagram.py):
    bottom-up canonicalisation of a diagram. A decision whose reduced
    children are equal is dropped in favour of its low child; a decision
    whose label and reduced children (by identity) are already in the unique
    table is replaced by the node filed there; otherwise a new node is made
    and filed.

    The reducer keeps no visited memo: a node shared in the input is reduced
    once per path to it. Structural recursion over `Node` is exactly that
    traversal. */
module Reduction {
  import opened Results
  import opened Interpretations
  import opened Nodes
  import opened Diagrams
  import opened Traversals

  /** The reducer's state: the unique table, the two counters, and the next
      free node id. */
  datatype Reducer = Reducer(table: UniqueTable, removed: nat, merged: nat, next: nat)

  /** The node `_reduce_recursive` returns and the state after it. */
  datatype Step = Step(node: Node, state: Reducer)

  /** `_reduce_recursive`. Children are compared with the structural `==`
      of `BDDNode`; the signature holds the children's identities. */
  function ReduceNode(n: Node, st: Reducer): (r: Step)
    ensures n.Terminal? ==> r.node == (if n.value then TRUE else FALSE) && r.state == st
    ensures st.removed <= r.state.removed && st.merged <= r.state.merged
    ensures st.next <= r.state.next && st.table.Keys <= r.state.table.Keys
  {
    match n
    case Terminal(b) => Step(CreateTerminal(b), st)
    case Decision(_, l, lo, hi) =>
      var a := ReduceNode(lo, st);
      var b := ReduceNode(hi, a.state);
      Finish(l, a.node, b.node, b.state)
  }

  /** The decision step of `_reduce_recursive` once the children have been
      reduced to `lo` and `hi`: drop the node when they are equal, reuse the
      node filed under the signature, or make and file a new one. */
  function Finish(l: string, lo: Node, hi: Node, s: Reducer): (r: Step)
    ensures s.removed <= r.state.removed && s.merged <= r.state.merged
    ensures s.next <= r.state.next && s.table.Keys <= r.state.table.Keys
  {
    if NodesEqual(lo, hi) then
      Step(lo, s.(removed := s.removed + 1))
    else
      var h := HashCons(s.table, s.next, l, lo, hi);
      Step(h.node, s.(table := h.table, next := h.next,
                      merged := if h.found then s.merged + 1 else s.merged))
  }

  /** The state `reduce` starts from: the table holds only the two
      terminals and both counters are zero. */
  function Start(next: nat): (r: Reducer)
    ensures TableOk(r.table) && |r.table| == 2
    ensures r.removed == 0 && r.merged == 0
  {
    SeededOk();
    assert SigOf(TRUE) != SigOf(FALSE);
    Reducer(Seeded, 0, 0, next)
  }

  /** `reduce_bdd` / `BDDReducer.reduce`. */
  function Reduce(n: Node, next: nat): Step
  {
    ReduceNode(n, Start(next))
  }

  /** `get_statistics`. */
  datatype Statistics = Statistics(removed: nat, merged: nat, total: nat)

  function GetStatistics(st: Reducer): Statistics
  {
    Statistics(st.removed, st.merged, st.removed + st.merged)
  }

  // ---------------------------------------------------------------------
  // The table invariant

  /** What the reducer's table keeps throughout: a sound table with fresh
      ids, none of whose entries is redundant. */
  ghost predicate Inv(t: UniqueTable, next: nat)
  {
    TableFresh(t, next) && (forall k :: k in t ==> !IsRedundant(t[k]))
  }

  /** The reducer keeps the invariant, only adds to the table, and returns
      a node the table registers. */
  lemma {:induction false} ReduceInv(n: Node, st: Reducer)
    requires Inv(st.table, st.next)
    ensures var r := ReduceNode(n, st);
      && Inv(r.state.table, r.state.next)
      && Extends(st.table, r.state.table)
      && Registered(r.state.table, r.node)
  {
    match n
    case Terminal(b) =>
      assert Reach(n) == {n};
    case Decision(_, l, lo, hi) =>
      ReduceInv(lo, st);
      var a := ReduceNode(lo, st);
      ReduceInv(hi, a.state);
      var b := ReduceNode(hi, a.state);
      RegisteredGrows(a.state.table, b.state.table, a.node);
      StepInv(l, a.node, b.node, b.state);
  }

  /** The last step keeps the invariant and registers what it returns. */
  lemma StepInv(l: string, lo: Node, hi: Node, s: Reducer)
    requires Inv(s.table, s.next) && Registered(s.table, lo) && Registered(s.table, hi)
    ensures var r := Finish(l, lo, hi, s);
      && Inv(r.state.table, r.state.next)
      && Extends(s.table, r.state.table)
      && Registered(r.state.table, r.node)
  {
    if !NodesEqual(lo, hi) {
      HashConsNode(s.table, s.next, l, lo, hi);
      HashConsKeeps(s.table, s.next, l, lo, hi);
    }
  }

  /** A node the table registers is reduced and its ids are unique. */
  lemma RegisteredIsReduced(t: UniqueTable, next: nat, n: Node)
    requires Inv(t, next) && Registered(t, n)
    ensures Reduced(n)
    ensures WellIdentified(n)
    ensures UidsBelow(n, next)
  {
    forall d | d in Reach(n) ensures !IsRedundant(d) {
      assert InTable(t, d);
    }
    forall d, e | d in Reach(n) && e in Reach(n) && d.Decision? && e.Decision? && SigOf(d) == SigOf(e)
      ensures d == e
    {
      RegisteredSigsUnique(t, n, d, e);
    }
    RegisteredWellIdentified(t, next, n);
  }

  lemma StartInv(next: nat)
    ensures Inv(Start(next).table, next)
  {
  }

  // ---------------------------------------------------------------------
  // What reduction preserves and establishes

  /** Reduction preserves meaning. */
  lemma {:induction false} ReduceMeaning(n: Node, st: Reducer, i: Interpretation)
    requires Inv(st.table, st.next)
    ensures Value(ReduceNode(n, st).node, i) == Value(n, i)
  {
    match n
    case Terminal(_) =>
    case Decision(_, l, lo, hi) =>
      var a := ReduceNode(lo, st);
      var b := ReduceNode(hi, a.state);
      assert Value(a.node, i) == Value(lo, i) && Inv(a.state.table, a.state.next) by {
        ReduceMeaning(lo, st, i);
        ReduceInv(lo, st);
      }
      assert Value(b.node, i) == Value(hi, i) && Inv(b.state.table, b.state.next) by {
        ReduceMeaning(hi, a.state, i);
        ReduceInv(hi, a.state);
      }
      StepMeaning(n, a.node, b.node, b.state, i);
  }

  /** A decision whose branches differ somewhere is never dropped at the
      top: the reduced root tests the same variable. */
  lemma ReduceKeepsRootTest(n: Node, next: nat, i: Interpretation)
    requires n.Decision? && Value(n.low, i) != Value(n.high, i)
    ensures Reduce(n, next).node.Decision? && Reduce(n, next).node.name == n.name
  {
    var st := Start(next);
    StartInv(next);
    var a := ReduceNode(n.low, st);
    ReduceMeaning(n.low, st, i);
    ReduceInv(n.low, st);
    var b := ReduceNode(n.high, a.state);
    ReduceMeaning(n.high, a.state, i);
    ReduceInv(n.high, a.state);
    if NodesEqual(a.node, b.node) {
      EqualNodesSameValue(a.node, b.node, i);
      assert false;
    }
    HashConsNode(b.state.table, b.state.next, n.name, a.node, b.node);
  }

  /** The last step of `_reduce_recursive` at a decision whose children
      reduced to `lo` and `hi` means the decision on them. */
  lemma StepMeaning(n: Node, lo: Node, hi: Node, s: Reducer, i: Interpretation)
    requires n.Decision? && Inv(s.table, s.next)
    requires Value(lo, i) == Value(n.low, i) && Value(hi, i) == Value(n.high, i)
    ensures Value(Finish(n.name, lo, hi, s).node, i) == Value(n, i)
  {
    if NodesEqual(lo, hi) {
      EqualNodesSameValue(lo, hi, i);
    } else {
      HashConsNode(s.table, s.next, n.name, lo, hi);
    }
  }

  /** Each decision visited is either removed, merged or filed anew. */
  lemma {:induction false} ReduceCount(n: Node, st: Reducer)
    ensures var r := ReduceNode(n, st).state;
      r.removed + r.merged + |r.table| == st.removed + st.merged + |st.table| + DecisionCount(n)
  {
    match n
    case Terminal(_) =>
    case Decision(_, l, lo, hi) =>
      ReduceCount(lo, st);
      var a := ReduceNode(lo, st);
      ReduceCount(hi, a.state);
  }

  /** A root with no redundant node keeps its shape, and nothing is
      removed. */
  lemma {:induction false} ReduceKeepsShape(n: Node, st: Reducer)
    requires Inv(st.table, st.next) && NoRedundant(Reach(n))
    ensures ShapeOf(ReduceNode(n, st).node) == ShapeOf(n)
    ensures ReduceNode(n, st).state.removed == st.removed
  {
    match n
    case Terminal(_) =>
    case Decision(_, l, lo, hi) =>
      var a := ReduceNode(lo, st);
      var b := ReduceNode(hi, a.state);
      assert ShapeOf(a.node) == ShapeOf(lo) && a.state.removed == st.removed
        && Inv(a.state.table, a.state.next) by {
        ReduceKeepsShape(lo, st);
        ReduceInv(lo, st);
      }
      assert ShapeOf(b.node) == ShapeOf(hi) && b.state.removed == st.removed
        && Inv(b.state.table, b.state.next) by {
        ReduceKeepsShape(hi, a.state);
        ReduceInv(hi, a.state);
      }
      assert n in Reach(n);
      StepShape(n, a.node, b.node, b.state);
  }

  /** At a decision that is not redundant, the last step keeps the shape
      and removes nothing. */
  lemma StepShape(n: Node, lo: Node, hi: Node, s: Reducer)
    requires n.Decision? && !IsRedundant(n) && Inv(s.table, s.next)
    requires ShapeOf(lo) == ShapeOf(n.low) && ShapeOf(hi) == ShapeOf(n.high)
    ensures ShapeOf(Finish(n.name, lo, hi, s).node) == ShapeOf(n)
    ensures Finish(n.name, lo, hi, s).state.removed == s.removed
  {
    NodesEqualIffSameShape(n.low, n.high);
    NodesEqualIffSameShape(lo, hi);
    HashConsNode(s.table, s.next, n.name, lo, hi);
  }

  /** The reduced node tests only labels the input tests. */
  lemma {:induction false} ReduceLabels(n: Node, st: Reducer)
    requires Inv(st.table, st.next)
    ensures Labels(ReduceNode(n, st).node) <= Labels(n)
  {
    match n
    case Terminal(_) =>
    case Decision(_, l, lo, hi) =>
      var a := ReduceNode(lo, st);
      var b := ReduceNode(hi, a.state);
      assert Labels(a.node) <= Labels(lo) && Inv(a.state.table, a.state.next) by {
        ReduceLabels(lo, st);
        ReduceInv(lo, st);
      }
      assert Labels(b.node) <= Labels(hi) && Inv(b.state.table, b.state.next) by {
        ReduceLabels(hi, a.state);
        ReduceInv(hi, a.state);
      }
      StepLabels(l, a.node, b.node, b.state);
  }

  /** The last step tests the decision's label and what the reduced
      children test, or less. */
  lemma StepLabels(l: string, lo: Node, hi: Node, s: Reducer)
    requires Inv(s.table, s.next)
    ensures Labels(Finish(l, lo, hi, s).node) <= {l} + Labels(lo) + Labels(hi)
  {
    HashConsNode(s.table, s.next, l, lo, hi);
  }

  /** `reduce` from a fresh table: the result means what the input means,
      is reduced, has unique ids from the counter, and the statistics plus
      the nodes filed account for every decision visited. */
  lemma ReduceCorrect(n: Node, next: nat)
    ensures var r := Reduce(n, next);
      && (forall i :: Value(r.node, i) == Value(n, i))
      && Reduced(r.node)
      && WellIdentified(r.node)
      && UidsBelow(r.node, r.state.next)
      && Labels(r.node) <= Labels(n)
      && GetStatistics(r.state).total + |r.state.table| == DecisionCount(n) + 2
  {
    var st := Start(next);
    StartInv(next);
    ReduceInv(n, st);
    var r := ReduceNode(n, st);
    RegisteredIsReduced(r.state.table, r.state.next, r.node);
    forall i ensures Value(r.node, i) == Value(n, i) {
      ReduceMeaning(n, st, i);
    }
    ReduceCount(n, st);
    ReduceLabels(n, st);
  }

  /** Reducing a reduced root changes nothing that `==` sees, and removes
      nothing. */
  lemma ReduceIdempotent(n: Node, next: nat, next2: nat)
    ensures var r1 := Reduce(n, next);
      var r2 := Reduce(r1.node, next2);
      NodesEqual(r2.node, r1.node) && r2.state.removed == 0
  {
    var r1 := Reduce(n, next);
    ReduceCorrect(n, next);
    StartInv(next2);
    ReduceKeepsShape(r1.node, Start(next2));
    NodesEqualIffSameShape(Reduce(r1.node, next2).node, r1.node);
  }

  // ---------------------------------------------------------------------
  // BDD.reduce

  /** The dictionary `BDD.reduce` returns: without a root only the three
      statistics (all zero), otherwise also the node counts before and
      after. */
  datatype Report = Report(stats: Statistics, before: Option<nat>, after: Option<nat>)

  /** The diagram after `BDD.reduce`, its report, and the next free id. */
  datatype Reduction = Reduction(diagram: Diagram, report: Report, next: nat)

  function ReduceDiagram(d: Diagram, next: nat): Reduction
  {
    if d.root.None? then
      Reduction(d, Report(Statistics(0, 0, 0), None, None), next)
    else
      var before := CountNodes(d);
      var r := Reduce(d.root.value, next);
      var d' := d.(root := Some(r.node));
      Reduction(d', Report(GetStatistics(r.state), Some(before), Some(CountNodes(d'))), r.state.next)
  }

  /** `BDD.reduce` replaces only the root, by one that means the same and
      that `is_reduced` accepts; the counts are of the distinct nodes before
      and after, and the total is the sum of the two statistics. */
  lemma ReduceDiagramCorrect(d: Diagram, next: nat)
    ensures var r := ReduceDiagram(d, next);
      && r.diagram.formula == d.formula && r.diagram.order == d.order
      && r.diagram.root.Some? == d.root.Some?
      && IsReduced(r.diagram)
      && r.report.stats.total == r.report.stats.removed + r.report.stats.merged
      && (d.root.None? ==> r.report == Report(Statistics(0, 0, 0), None, None))
      && (d.root.Some? ==>
            && (forall i :: Value(r.diagram.root.value, i) == Value(d.root.value, i))
            && r.report.before == Some(|Reach(d.root.value)|)
            && r.report.after == Some(|Reach(r.diagram.root.value)|))
  {
    if d.root.Some? {
      var r := ReduceDiagram(d, next);
      ReduceCorrect(d.root.value, next);
      IsReducedCorrect(r.diagram);
      CountNodesCorrect(d);
      CountNodesCorrect(r.diagram);
    }
  }
}
