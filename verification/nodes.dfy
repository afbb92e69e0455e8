/** `BDDNode` (bdd/node.py): a terminal carrying a truth value, or a
    decision on a variable with a low (variable false) and a high (variable
    true) child.

    Identity. The source keys its tables on Python object identity. A
    decision node here carries `uid`, the `id` the source's constructor
    hands out, so two `Node` values are `==` exactly when they are the same
    object (provided uids are never reused, which `WellIdentified` states).
    Terminals are identified by value: the source only ever uses the two
    shared terminals. The source's `__eq__`, which ignores identity, is
    `NodesEqual`. */
module Nodes {
  import opened Results
  import opened Interpretations

  datatype Node =
    | Terminal(value: bool)
    | Decision(uid: nat, name: string, low: Node, high: Node)

  /** `TERMINAL_TRUE` and `TERMINAL_FALSE`, the two shared terminals. */
  const TRUE: Node := Terminal(true)
  const FALSE: Node := Terminal(false)

  /** The node's `label` attribute: the variable of a decision, 'T' or 'F'
      for a terminal. */
  function LabelOf(n: Node): string
  {
    match n
    case Terminal(b) => if b then "T" else "F"
    case Decision(_, l, _, _) => l
  }

  /** `create_terminal`: the terminal for `b`, labelled 'T' or 'F'. */
  function CreateTerminal(b: bool): (r: Node)
    ensures r.Terminal? && r.value == b
    ensures LabelOf(r) == (if b then "T" else "F")
    ensures r == (if b then TRUE else FALSE)
  {
    Terminal(b)
  }

  /** `create_variable`: a decision with the given label and children whose
      identity is the next free id; the counter moves past it. */
  function CreateVariable(next: nat, name: string, low: Node, high: Node): (r: (Node, nat))
    ensures r.0.Decision? && LabelOf(r.0) == name && r.0.low == low && r.0.high == high
    ensures r.0.uid == next && r.1 > next
  {
    (Decision(next, name, low, high), next + 1)
  }

  /** `__eq__`: terminals are equal when their values are; a terminal never
      equals a decision; decisions are equal when their labels are and their
      children are, recursively. Identity plays no part. */
  predicate NodesEqual(a: Node, b: Node)
  {
    if a.Terminal? && b.Terminal? then a.value == b.value
    else if a.Terminal? || b.Terminal? then false
    else a.name == b.name && NodesEqual(a.low, b.low) && NodesEqual(a.high, b.high)
  }

  /** `is_redundant`: a decision whose two children are equal. */
  predicate IsRedundant(n: Node)
  {
    n.Decision? && NodesEqual(n.low, n.high)
  }

  /** A node with identities forgotten: what `NodesEqual` compares. */
  datatype Shape = Leaf(value: bool) | Branch(name: string, low: Shape, high: Shape)

  function ShapeOf(n: Node): Shape
  {
    match n
    case Terminal(b) => Leaf(b)
    case Decision(_, l, lo, hi) => Branch(l, ShapeOf(lo), ShapeOf(hi))
  }

  lemma {:induction false} NodesEqualIffSameShape(a: Node, b: Node)
    ensures NodesEqual(a, b) <==> ShapeOf(a) == ShapeOf(b)
  {
    if a.Decision? && b.Decision? {
      NodesEqualIffSameShape(a.low, b.low);
      NodesEqualIffSameShape(a.high, b.high);
    }
  }

  /** Redundancy is the equality of the two children's shapes; a terminal is
      never redundant, and a new decision is redundant exactly when its
      children are equal. */
  lemma RedundantIffChildrenAlike(n: Node)
    ensures IsRedundant(n) <==> n.Decision? && ShapeOf(n.low) == ShapeOf(n.high)
    ensures n.Terminal? ==> !IsRedundant(n)
    ensures forall next: nat, l: string, lo: Node, hi: Node ::
      IsRedundant(CreateVariable(next, l, lo, hi).0) <==> ShapeOf(lo) == ShapeOf(hi)
  {
    if n.Decision? {
      NodesEqualIffSameShape(n.low, n.high);
    }
    forall next: nat, l: string, lo: Node, hi: Node
      ensures IsRedundant(CreateVariable(next, l, lo, hi).0) <==> ShapeOf(lo) == ShapeOf(hi)
    {
      NodesEqualIffSameShape(lo, hi);
    }
  }

  /** The boolean function a node denotes: follow high when the label is
      true, low otherwise, and read the terminal reached. Unassigned labels
      read as false (see `Lookup`); the evaluator that fails on them is
      `Diagrams.Walk`. */
  function Value(n: Node, i: Interpretation): bool
  {
    match n
    case Terminal(b) => b
    case Decision(_, l, lo, hi) => if Lookup(i, l) then Value(hi, i) else Value(lo, i)
  }

  /** The same function read off a shape. */
  function ShapeValue(s: Shape, i: Interpretation): bool
  {
    match s
    case Leaf(b) => b
    case Branch(l, lo, hi) => if Lookup(i, l) then ShapeValue(hi, i) else ShapeValue(lo, i)
  }

  lemma {:induction false} ValueByShape(n: Node, i: Interpretation)
    ensures Value(n, i) == ShapeValue(ShapeOf(n), i)
  {
    if n.Decision? {
      ValueByShape(n.low, i);
      ValueByShape(n.high, i);
    }
  }

  /** Equal nodes denote the same function; a redundant node denotes the
      function of its children. */
  lemma EqualNodesSameValue(a: Node, b: Node, i: Interpretation)
    requires NodesEqual(a, b)
    ensures Value(a, i) == Value(b, i)
  {
    NodesEqualIffSameShape(a, b);
    ValueByShape(a, i);
    ValueByShape(b, i);
  }

  lemma RedundantValue(n: Node, i: Interpretation)
    requires IsRedundant(n)
    ensures Value(n, i) == Value(n.low, i) == Value(n.high, i)
  {
    EqualNodesSameValue(n.low, n.high, i);
  }

  /** The labels tested anywhere below (and at) a node. */
  function Labels(n: Node): set<string>
  {
    match n
    case Terminal(_) => {}
    case Decision(_, l, lo, hi) => {l} + Labels(lo) + Labels(hi)
  }

  /** The value depends only on the labels the node tests. */
  lemma {:induction false} ValueLocal(n: Node, i: Interpretation, j: Interpretation)
    requires forall v :: v in Labels(n) ==> Lookup(i, v) == Lookup(j, v)
    ensures Value(n, i) == Value(n, j)
  {
    if n.Decision? {
      ValueLocal(n.low, i, j);
      ValueLocal(n.high, i, j);
    }
  }

  /** Every node reachable from `n`, `n` included. */
  function Reach(n: Node): set<Node>
  {
    match n
    case Terminal(_) => {n}
    case Decision(_, _, lo, hi) => {n} + Reach(lo) + Reach(hi)
  }

  /** The number of nodes of `n` unfolded as a tree. */
  function Size(n: Node): nat
  {
    match n
    case Terminal(_) => 1
    case Decision(_, _, lo, hi) => 1 + Size(lo) + Size(hi)
  }

  /** The number of decisions of `n` unfolded as a tree: how many decision
      visits a traversal without a memo makes. */
  function DecisionCount(n: Node): nat
  {
    match n
    case Terminal(_) => 0
    case Decision(_, _, lo, hi) => 1 + DecisionCount(lo) + DecisionCount(hi)
  }

  /** Anything reachable is no bigger, strictly smaller unless it is the
      node itself, and reaches only what the node reaches. */
  lemma {:induction false} ReachBelow(n: Node, d: Node)
    requires d in Reach(n)
    ensures Size(d) <= Size(n)
    ensures d != n ==> Size(d) < Size(n)
    ensures Reach(d) <= Reach(n)
    ensures Labels(d) <= Labels(n)
  {
    if d != n {
      if d in Reach(n.low) {
        ReachBelow(n.low, d);
      } else {
        ReachBelow(n.high, d);
      }
    }
  }

  /** A node's children do not reach back to it. */
  lemma NotBelowItself(n: Node)
    requires n.Decision?
    ensures n !in Reach(n.low) && n !in Reach(n.high)
  {
    if n in Reach(n.low) {
      ReachBelow(n.low, n);
    }
    if n in Reach(n.high) {
      ReachBelow(n.high, n);
    }
  }

  /** The labels of a node are those of its reachable decisions. */
  lemma {:induction false} LabelsOfReach(n: Node, l: string)
    ensures l in Labels(n) <==> exists d :: d in Reach(n) && d.Decision? && d.name == l
  {
    if n.Decision? {
      LabelsOfReach(n.low, l);
      LabelsOfReach(n.high, l);
    }
  }

  /** Distinct decisions reachable from `n` carry distinct uids: Node
      equality then coincides with the source's object identity. */
  ghost predicate WellIdentified(n: Node)
  {
    forall d, e :: d in Reach(n) && e in Reach(n) && d.Decision? && e.Decision? && d.uid == e.uid ==> d == e
  }

  /** Every uid reachable from `n` is below `bound`. */
  ghost predicate UidsBelow(n: Node, bound: nat)
  {
    forall d :: d in Reach(n) && d.Decision? ==> d.uid < bound
  }

  // ---------------------------------------------------------------------
  // Unique tables: both the reducer and the apply engine hash-cons nodes on
  // (label, identity of low, identity of high), seeded with ('T', None, None)
  // and ('F', None, None) for the two terminals.

  datatype Sig = Sig(name: string, low: Option<Node>, high: Option<Node>)

  /** The key under which a node is registered. */
  function SigOf(n: Node): Sig
  {
    match n
    case Terminal(_) => Sig(LabelOf(n), None, None)
    case Decision(_, l, lo, hi) => Sig(l, Some(lo), Some(hi))
  }

  type UniqueTable = map<Sig, Node>

  /** A fresh table holding only the two terminals. */
  const Seeded: UniqueTable := map[SigOf(TRUE) := TRUE, SigOf(FALSE) := FALSE]

  /** `n` is the node the table holds under `n`'s own key. */
  predicate InTable(t: UniqueTable, n: Node)
  {
    SigOf(n) in t && t[SigOf(n)] == n
  }

  /** Every node reachable from `n` is the table's node for its key. */
  ghost predicate Registered(t: UniqueTable, n: Node)
  {
    forall d :: d in Reach(n) ==> InTable(t, d)
  }

  /** The invariant of a unique table: each entry is filed under its own key,
      everything below an entry is registered, and both terminals are there. */
  ghost predicate TableOk(t: UniqueTable)
  {
    && (forall k :: k in t ==> SigOf(t[k]) == k)
    && (forall k :: k in t ==> Registered(t, t[k]))
    && InTable(t, TRUE) && InTable(t, FALSE)
  }

  lemma SeededOk()
    ensures TableOk(Seeded)
  {
    assert SigOf(TRUE) != SigOf(FALSE);
  }

  /** Registering a new decision whose children are registered keeps the
      invariant and everything registered before stays registered. */
  lemma Register(t: UniqueTable, n: Node)
    requires TableOk(t) && n.Decision? && SigOf(n) !in t
    requires Registered(t, n.low) && Registered(t, n.high)
    ensures TableOk(t[SigOf(n) := n])
    ensures Registered(t[SigOf(n) := n], n)
    ensures forall m :: Registered(t, m) ==> Registered(t[SigOf(n) := n], m)
    ensures |t[SigOf(n) := n]| == |t| + 1
  {
    var t' := t[SigOf(n) := n];
    forall m | Registered(t, m) ensures Registered(t', m) {
      forall d | d in Reach(m) ensures InTable(t', d) {
        assert InTable(t, d);
      }
    }
    forall k | k in t' ensures Registered(t', t'[k]) {
      if k != SigOf(n) {
        assert Registered(t, t[k]);
      }
    }
  }

  /** In a registered node, a key determines the node: two reachable
      decisions with the same label and the same children are one node. */
  lemma RegisteredSigsUnique(t: UniqueTable, n: Node, d: Node, e: Node)
    requires Registered(t, n) && d in Reach(n) && e in Reach(n)
    requires SigOf(d) == SigOf(e)
    ensures d == e
  {
    assert InTable(t, d) && InTable(t, e);
  }

  /** Every entry of `t` keeps its value in `t'`. */
  ghost predicate Extends(t: UniqueTable, t': UniqueTable)
  {
    forall k :: k in t ==> k in t' && t'[k] == t[k]
  }

  lemma RegisteredGrows(t: UniqueTable, t': UniqueTable, n: Node)
    requires Extends(t, t') && Registered(t, n)
    ensures Registered(t', n)
  {
    forall d | d in Reach(n) ensures InTable(t', d) {
      assert InTable(t, d);
    }
  }

  /** A unique table whose decisions carry distinct ids, all below `next`,
      the id the global counter hands out next. */
  ghost predicate TableFresh(t: UniqueTable, next: nat)
  {
    && TableOk(t)
    && (forall k :: k in t && t[k].Decision? ==> t[k].uid < next)
    && (forall k, k' :: k in t && k' in t && t[k].Decision? && t[k'].Decision? && t[k].uid == t[k'].uid ==> k == k')
  }

  /** A registered node in such a table is well identified, with ids below
      the counter. */
  lemma RegisteredWellIdentified(t: UniqueTable, next: nat, n: Node)
    requires TableFresh(t, next) && Registered(t, n)
    ensures WellIdentified(n) && UidsBelow(n, next)
  {
    forall d, e | d in Reach(n) && e in Reach(n) && d.Decision? && e.Decision? && d.uid == e.uid
      ensures d == e
    {
      assert InTable(t, d) && InTable(t, e);
    }
    forall d | d in Reach(n) && d.Decision? ensures d.uid < next {
      assert InTable(t, d);
    }
  }

  /** A lookup-or-create on a unique table: the node, the table and counter
      afterwards, and whether the node was already there. */
  datatype Consed = Consed(node: Node, table: UniqueTable, next: nat, found: bool)

  /** The hash-consing step shared by `_reduce_recursive` and `_make_node`:
      the node filed under (label, identity of low, identity of high), or a
      new decision made with the next id and filed there. */
  function HashCons(t: UniqueTable, next: nat, l: string, lo: Node, hi: Node): Consed
  {
    var sig := Sig(l, Some(lo), Some(hi));
    if sig in t then Consed(t[sig], t, next, true)
    else
      var c := CreateVariable(next, l, lo, hi);
      Consed(c.0, t[sig := c.0], c.1, false)
  }

  /** Whatever the lookup finds, the node decides on the label between the
      two given children. */
  lemma HashConsNode(t: UniqueTable, next: nat, l: string, lo: Node, hi: Node)
    requires TableOk(t)
    ensures var r := HashCons(t, next, l, lo, hi);
      && r.node.Decision? && r.node.name == l && r.node.low == lo && r.node.high == hi
      && (r.found <==> Sig(l, Some(lo), Some(hi)) in t)
  {
    var sig := Sig(l, Some(lo), Some(hi));
    if sig in t {
      assert SigOf(t[sig]) == sig;
    }
  }

  /** Hash-consing children the table registers keeps the table sound,
      only adds the returned node, and registers it. */
  lemma HashConsKeeps(t: UniqueTable, next: nat, l: string, lo: Node, hi: Node)
    requires TableFresh(t, next) && Registered(t, lo) && Registered(t, hi)
    ensures var r := HashCons(t, next, l, lo, hi);
      && TableFresh(r.table, r.next) && next <= r.next
      && Extends(t, r.table) && Registered(r.table, r.node)
      && |r.table| == |t| + (if r.found then 0 else 1)
      && (forall k :: k in r.table ==> k in t || r.table[k] == r.node)
  {
    var sig := Sig(l, Some(lo), Some(hi));
    if sig in t {
      assert Registered(t, t[sig]);
    } else {
      var n := Decision(next, l, lo, hi);
      assert SigOf(n) == sig;
      Register(t, n);
    }
  }

  /** `_make_node` is idempotent: asking again for the same label and
      children finds the node made the first time. */
  lemma HashConsAgain(t: UniqueTable, next: nat, l: string, lo: Node, hi: Node)
    ensures var r := HashCons(t, next, l, lo, hi);
      HashCons(r.table, r.next, l, lo, hi) == Consed(r.node, r.table, r.next, true)
  {
  }
}
