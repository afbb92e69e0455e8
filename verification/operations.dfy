/** `BDDOperations` and the whole-diagram combinators (bdd/operations.py):
    Shannon expansion of a binary operator over two roots, memoised in an
    apply cache keyed by (operator, identity, identity), with nodes made
    through a unique table; negation; and the structural equivalence test.

    Each combinator makes a fresh engine, so a cache and a table live for
    one combinator call. The ids the engine hands out come from the same
    global counter as everywhere else, threaded here as `next`. */
module Operations {
  import opened Results
  import opened Interpretations
  import opened Strings
  import opened Formulas
  import opened Nodes
  import opened Diagrams
  import opened Traversals
  import opened Reduction

  /** The operators `_apply_terminal` knows. */
  datatype Op = AndOp | OrOp | XorOp | ImpliesOp | IffOp

  /** The operator an operator name stands for, if any. */
  function OpOf(op: string): Option<Op>
  {
    if op == "AND" then Some(AndOp)
    else if op == "OR" then Some(OrOp)
    else if op == "XOR" then Some(XorOp)
    else if op == "IMPLIES" then Some(ImpliesOp)
    else if op == "IFF" then Some(IffOp)
    else None
  }

  predicate Known(op: string)
  {
    OpOf(op).Some?
  }

  /** The truth function of each operator. */
  function Eval(o: Op, x: bool, y: bool): bool
  {
    match o
    case AndOp => x && y
    case OrOp => x || y
    case XorOp => x != y
    case ImpliesOp => !x || y
    case IffOp => x == y
  }

  /** `_apply_terminal`: the operator on two truth values; a name it does
      not know is an error. */
  function ApplyTerminal(op: string, x: bool, y: bool): (r: Result<bool>)
    ensures r.Ok? <==> Known(op)
    ensures r.Err? ==> r.error == UnknownOperation(op)
  {
    match OpOf(op)
    case Some(o) => Ok(Eval(o, x, y))
    case None => Err(UnknownOperation(op))
  }

  /** The formula connective each operator name stands for: exclusive or
      is the negated biconditional. */
  function Connective(o: Op, f: Formula, g: Formula): Formula
  {
    match o
    case AndOp => And(f, g)
    case OrOp => Or(f, g)
    case XorOp => Not(Iff(f, g))
    case ImpliesOp => Implies(f, g)
    case IffOp => Iff(f, g)
  }

  /** Each operator is the truth function of its connective. */
  lemma EvalIsConnective(o: Op, f: Formula, g: Formula, i: Interpretation)
    ensures Eval(o, Holds(f, i), Holds(g, i)) == Holds(Connective(o, f, g), i)
  {
  }

  // ---------------------------------------------------------------------
  // The engine

  datatype CacheKey = CacheKey(op: string, a: Node, b: Node)

  /** `BDDOperations`: the apply cache, the unique table, and the next id. */
  datatype Engine = Engine(cache: map<CacheKey, Node>, unique: UniqueTable, next: nat)

  /** A node an engine operation returns, with the engine afterwards. */
  datatype Applied = Applied(node: Node, engine: Engine)

  /** `BDDOperations()`: an empty cache and a table holding the two
      terminals. */
  function NewEngine(next: nat): (e: Engine)
    ensures e.cache == map[] && TableFresh(e.unique, next) && |e.unique| == 2
  {
    SeededOk();
    assert SigOf(TRUE) != SigOf(FALSE);
    Engine(map[], Seeded, next)
  }

  /** `_make_node`. */
  function MakeNode(l: string, lo: Node, hi: Node, e: Engine): Applied
  {
    var h := HashCons(e.unique, e.next, l, lo, hi);
    Applied(h.node, e.(unique := h.table, next := h.next))
  }

  /** `clear_cache`. */
  function ClearCache(e: Engine): Engine
  {
    e.(cache := map[])
  }

  /** The variable `apply` splits on and the operands of its two recursive
      calls. */
  datatype Split = Split(name: string, a0: Node, a1: Node, b0: Node, b1: Node)

  /** The top-variable choice of `apply`: the label of the only decision,
      or the smaller label (by Python's `<=` on strings) of two decisions;
      an operand that does not test that label is passed to both branches
      unchanged. Whatever the labels, both operands are the Shannon
      expansion of their cofactors on the chosen variable. */
  function Cofactors(a: Node, b: Node): (r: Split)
    requires a.Decision? || b.Decision?
    ensures Size(r.a0) + Size(r.b0) < Size(a) + Size(b)
    ensures Size(r.a1) + Size(r.b1) < Size(a) + Size(b)
    ensures forall i :: Value(a, i) == if Lookup(i, r.name) then Value(r.a1, i) else Value(r.a0, i)
    ensures forall i :: Value(b, i) == if Lookup(i, r.name) then Value(r.b1, i) else Value(r.b0, i)
  {
    if a.Terminal? then Split(b.name, a, a, b.low, b.high)
    else if b.Terminal? then Split(a.name, a.low, a.high, b, b)
    else if LessEq(a.name, b.name) then
      if a.name == b.name then Split(a.name, a.low, a.high, b.low, b.high)
      else Split(a.name, a.low, a.high, b, b)
    else Split(b.name, a, a, b.low, b.high)
  }

  /** `apply`. A cached result is returned as is; two terminals give the
      terminal of the operator's value; otherwise the two cofactor results
      are joined. Every result is cached under the call's key. */
  function Apply(op: string, a: Node, b: Node, e: Engine): (r: Result<Applied>)
    ensures r.Err? ==> !Known(op) && r.error == UnknownOperation(op)
    ensures r.Ok? ==> CacheKey(op, a, b) in r.value.engine.cache
    ensures r.Ok? ==> r.value.engine.cache[CacheKey(op, a, b)] == r.value.node
    decreases Size(a) + Size(b)
  {
    var key := CacheKey(op, a, b);
    if key in e.cache then Ok(Applied(e.cache[key], e))
    else if a.Terminal? && b.Terminal? then
      var v :- ApplyTerminal(op, a.value, b.value);
      var n := if v then TRUE else FALSE;
      Ok(Applied(n, e.(cache := e.cache[key := n])))
    else
      var c := Cofactors(a, b);
      var lo :- Apply(op, c.a0, c.b0, e);
      var hi :- Apply(op, c.a1, c.b1, lo.engine);
      Ok(Join(key, c.name, lo.node, hi.node, hi.engine))
  }

  /** The end of `apply` on a decision: equal cofactor results are returned
      as they are, different ones get a node through `_make_node`; either
      way the result is cached under `key`. */
  function Join(key: CacheKey, l: string, lo: Node, hi: Node, e: Engine): (r: Applied)
    ensures key in r.engine.cache && r.engine.cache[key] == r.node
  {
    var m := if NodesEqual(lo, hi) then Applied(lo, e) else MakeNode(l, lo, hi, e);
    Applied(m.node, m.engine.(cache := m.engine.cache[key := m.node]))
  }

  /** `apply_not`: the same decisions with the terminals swapped, made
      through `_make_node`; the apply cache is neither read nor written. */
  function ApplyNot(n: Node, e: Engine): (r: Applied)
    ensures r.engine.cache == e.cache
    ensures e.next <= r.engine.next
  {
    match n
    case Terminal(b) => Applied(if !b then TRUE else FALSE, e)
    case Decision(_, l, lo, hi) =>
      var x := ApplyNot(lo, e);
      var y := ApplyNot(hi, x.engine);
      MakeNode(l, x.node, y.node, y.engine)
  }

  // ---------------------------------------------------------------------
  // Engine invariants

  /** What every engine keeps: a sound table with fresh ids, and a cache of
      known operators whose results are registered and hold no redundant
      node. */
  ghost predicate EngineOk(e: Engine)
  {
    && TableFresh(e.unique, e.next)
    && (forall k :: k in e.cache ==> Known(k.op))
    && (forall k :: k in e.cache ==> Registered(e.unique, e.cache[k]) && NoRedundant(Reach(e.cache[k])))
  }

  /** Every cached node computes its key's operator pointwise. */
  ghost predicate CacheSound(c: map<CacheKey, Node>)
  {
    forall k :: k in c ==> Computes(OpOf(k.op), k.a, k.b, c[k])
  }

  /** `n` computes the operator on `a` and `b` at every interpretation. */
  ghost predicate Computes(o: Option<Op>, a: Node, b: Node, n: Node)
  {
    o.Some? && forall i :: Value(n, i) == Eval(o.value, Value(a, i), Value(b, i))
  }

  lemma NewEngineOk(next: nat)
    ensures EngineOk(NewEngine(next)) && CacheSound(NewEngine(next).cache)
  {
  }

  /** `_make_node` on registered children keeps the table sound, returns
      the decision on those children, and registers it. */
  lemma MakeNodeFacts(l: string, lo: Node, hi: Node, e: Engine)
    requires TableFresh(e.unique, e.next) && Registered(e.unique, lo) && Registered(e.unique, hi)
    ensures var m := MakeNode(l, lo, hi, e);
      && m.node.Decision? && m.node.name == l && m.node.low == lo && m.node.high == hi
      && TableFresh(m.engine.unique, m.engine.next) && Extends(e.unique, m.engine.unique)
      && Registered(m.engine.unique, m.node) && m.engine.cache == e.cache
  {
    HashConsNode(e.unique, e.next, l, lo, hi);
    HashConsKeeps(e.unique, e.next, l, lo, hi);
  }

  /** `clear_cache` empties the cache and nothing else: the engine stays
      sound and `_make_node` finds what it found before. */
  lemma ClearCacheKeeps(e: Engine, l: string, lo: Node, hi: Node)
    requires EngineOk(e)
    ensures EngineOk(ClearCache(e)) && CacheSound(ClearCache(e).cache)
    ensures ClearCache(e).cache == map[]
    ensures MakeNode(l, lo, hi, ClearCache(e)).node == MakeNode(l, lo, hi, e).node
  {
  }

  // ---------------------------------------------------------------------
  // What apply computes

  /** An operator `_apply_terminal` does not know fails as soon as a
      terminal pair is reached, which every call does. */
  lemma {:induction false} ApplyUnknown(op: string, a: Node, b: Node, e: Engine)
    requires !Known(op) && (forall k :: k in e.cache ==> Known(k.op))
    ensures Apply(op, a, b, e) == Err(UnknownOperation(op))
    decreases Size(a) + Size(b)
  {
    if !(a.Terminal? && b.Terminal?) {
      var c := Cofactors(a, b);
      ApplyUnknown(op, c.a0, c.b0, e);
    }
  }

  /** With a known operator `apply` succeeds, keeps the engine sound and
      returns a registered node with no redundant node below it. */
  lemma {:induction false} ApplyInv(op: string, a: Node, b: Node, e: Engine)
    requires EngineOk(e) && Known(op)
    ensures var r := Apply(op, a, b, e);
      && r.Ok?
      && EngineOk(r.value.engine)
      && Extends(e.unique, r.value.engine.unique)
      && Registered(r.value.engine.unique, r.value.node)
      && NoRedundant(Reach(r.value.node))
    decreases Size(a) + Size(b)
  {
    var key := CacheKey(op, a, b);
    if key in e.cache {
    } else if a.Terminal? && b.Terminal? {
      var n := if ApplyTerminal(op, a.value, b.value).value then TRUE else FALSE;
      assert Reach(n) == {n};
      assert InTable(e.unique, TRUE) && InTable(e.unique, FALSE);
    } else {
      var c := Cofactors(a, b);
      ApplyInv(op, c.a0, c.b0, e);
      var lo := Apply(op, c.a0, c.b0, e).value;
      ApplyInv(op, c.a1, c.b1, lo.engine);
      var hi := Apply(op, c.a1, c.b1, lo.engine).value;
      RegisteredGrows(lo.engine.unique, hi.engine.unique, lo.node);
      JoinInv(key, c.name, lo.node, hi.node, hi.engine);
    }
  }

  /** The join keeps the engine sound and returns a registered node with no
      redundant node below it. */
  lemma JoinInv(key: CacheKey, l: string, lo: Node, hi: Node, e: Engine)
    requires EngineOk(e) && Known(key.op)
    requires Registered(e.unique, lo) && Registered(e.unique, hi)
    requires NoRedundant(Reach(lo)) && NoRedundant(Reach(hi))
    ensures var r := Join(key, l, lo, hi, e);
      && EngineOk(r.engine)
      && Extends(e.unique, r.engine.unique)
      && Registered(r.engine.unique, r.node)
      && NoRedundant(Reach(r.node))
  {
    if !NodesEqual(lo, hi) {
      MakeNodeFacts(l, lo, hi, e);
      var m := MakeNode(l, lo, hi, e);
      forall k | k in e.cache ensures Registered(m.engine.unique, e.cache[k]) {
        RegisteredGrows(e.unique, m.engine.unique, e.cache[k]);
      }
    }
  }

  /** `apply` computes the operator pointwise, and the cache stays sound. */
  lemma {:induction false} ApplyMeaning(op: string, a: Node, b: Node, e: Engine)
    requires EngineOk(e) && CacheSound(e.cache) && Known(op)
    ensures Apply(op, a, b, e).Ok?
    ensures var r := Apply(op, a, b, e).value;
      CacheSound(r.engine.cache) && Computes(OpOf(op), a, b, r.node)
    decreases Size(a) + Size(b)
  {
    ApplyInv(op, a, b, e);
    var key := CacheKey(op, a, b);
    if key in e.cache {
    } else if a.Terminal? && b.Terminal? {
    } else {
      var c := Cofactors(a, b);
      ApplyMeaning(op, c.a0, c.b0, e);
      ApplyInv(op, c.a0, c.b0, e);
      var lo := Apply(op, c.a0, c.b0, e).value;
      ApplyMeaning(op, c.a1, c.b1, lo.engine);
      ApplyInv(op, c.a1, c.b1, lo.engine);
      var hi := Apply(op, c.a1, c.b1, lo.engine).value;
      JoinMeaning(op, a, b, c, lo.node, hi.node, hi.engine);
    }
  }

  /** The join of cofactor results that compute the operator computes it
      on the operands. */
  lemma JoinMeaning(op: string, a: Node, b: Node, c: Split, lo: Node, hi: Node, e: Engine)
    requires Known(op) && (a.Decision? || b.Decision?) && c == Cofactors(a, b)
    requires TableOk(e.unique) && CacheSound(e.cache)
    requires Computes(OpOf(op), c.a0, c.b0, lo) && Computes(OpOf(op), c.a1, c.b1, hi)
    ensures var r := Join(CacheKey(op, a, b), c.name, lo, hi, e);
      CacheSound(r.engine.cache) && Computes(OpOf(op), a, b, r.node)
  {
    var o := OpOf(op).value;
    var r := Join(CacheKey(op, a, b), c.name, lo, hi, e);
    assert r.engine.cache == e.cache[CacheKey(op, a, b) := r.node];
    assert forall i :: Value(r.node, i) == if Lookup(i, c.name) then Value(hi, i) else Value(lo, i) by {
      if NodesEqual(lo, hi) {
        forall i ensures Value(lo, i) == Value(hi, i) {
          EqualNodesSameValue(lo, hi, i);
        }
      } else {
        HashConsNode(e.unique, e.next, c.name, lo, hi);
      }
    }
    forall i ensures Value(r.node, i) == Eval(o, Value(a, i), Value(b, i)) {
      Shannon(o, Lookup(i, c.name), Value(c.a0, i), Value(c.a1, i), Value(c.b0, i), Value(c.b1, i));
    }
  }

  /** Shannon expansion on truth values: an operator commutes with a
      choice made on both operands alike. */
  lemma Shannon(o: Op, x: bool, a0: bool, a1: bool, b0: bool, b1: bool)
    ensures Eval(o, if x then a1 else a0, if x then b1 else b0)
         == if x then Eval(o, a1, b1) else Eval(o, a0, b0)
  {
  }

  /** Repeating an `apply` on the engine it left returns the cached
      result and changes nothing. */
  lemma ApplyRepeats(op: string, a: Node, b: Node, e: Engine)
    requires Apply(op, a, b, e).Ok?
    ensures var r := Apply(op, a, b, e).value;
      Apply(op, a, b, r.engine) == Ok(r)
  {
  }

  // ---------------------------------------------------------------------
  // What apply_not computes

  /** The shape with its terminals swapped. */
  function Negate(s: Shape): Shape
  {
    match s
    case Leaf(b) => Leaf(!b)
    case Branch(l, lo, hi) => Branch(l, Negate(lo), Negate(hi))
  }

  lemma {:induction false} NegateInjective(s: Shape, t: Shape)
    ensures Negate(s) == Negate(t) ==> s == t
  {
    if s.Branch? && t.Branch? {
      NegateInjective(s.low, t.low);
      NegateInjective(s.high, t.high);
    }
  }

  /** `apply_not` keeps the table sound and registers its result. */
  lemma {:induction false} ApplyNotInv(n: Node, e: Engine)
    requires TableFresh(e.unique, e.next)
    ensures var r := ApplyNot(n, e);
      && TableFresh(r.engine.unique, r.engine.next)
      && Extends(e.unique, r.engine.unique)
      && Registered(r.engine.unique, r.node)
  {
    match n
    case Terminal(b) =>
      assert Reach(ApplyNot(n, e).node) == {ApplyNot(n, e).node};
    case Decision(_, l, lo, hi) =>
      ApplyNotInv(lo, e);
      var x := ApplyNot(lo, e);
      ApplyNotInv(hi, x.engine);
      var y := ApplyNot(hi, x.engine);
      RegisteredGrows(x.engine.unique, y.engine.unique, x.node);
      MakeNodeFacts(l, x.node, y.node, y.engine);
  }

  /** `apply_not` keeps every label and the shape, swapping the terminals;
      so it computes the negation. */
  lemma {:induction false} ApplyNotShape(n: Node, e: Engine)
    requires TableFresh(e.unique, e.next)
    ensures ShapeOf(ApplyNot(n, e).node) == Negate(ShapeOf(n))
    ensures forall i :: Value(ApplyNot(n, e).node, i) == !Value(n, i)
  {
    match n
    case Terminal(b) =>
    case Decision(_, l, lo, hi) =>
      var x := ApplyNot(lo, e);
      var y := ApplyNot(hi, x.engine);
      assert ShapeOf(x.node) == Negate(ShapeOf(lo)) && (forall i :: Value(x.node, i) == !Value(lo, i))
        && TableFresh(x.engine.unique, x.engine.next) && Registered(x.engine.unique, x.node) by {
        ApplyNotShape(lo, e);
        ApplyNotInv(lo, e);
      }
      assert ShapeOf(y.node) == Negate(ShapeOf(hi)) && (forall i :: Value(y.node, i) == !Value(hi, i))
        && TableFresh(y.engine.unique, y.engine.next) && Registered(y.engine.unique, y.node)
        && Extends(x.engine.unique, y.engine.unique) by {
        ApplyNotShape(hi, x.engine);
        ApplyNotInv(hi, x.engine);
      }
      RegisteredGrows(x.engine.unique, y.engine.unique, x.node);
      MakeNodeFacts(l, x.node, y.node, y.engine);
  }

  /** Negating a root with no redundant node makes none. */
  lemma {:induction false} ApplyNotNoRedundant(n: Node, e: Engine)
    requires TableFresh(e.unique, e.next) && NoRedundant(Reach(n))
    ensures NoRedundant(Reach(ApplyNot(n, e).node))
  {
    match n
    case Terminal(b) =>
      assert Reach(ApplyNot(n, e).node) == {ApplyNot(n, e).node};
    case Decision(_, l, lo, hi) =>
      var x := ApplyNot(lo, e);
      var y := ApplyNot(hi, x.engine);
      assert n in Reach(n);
      assert NoRedundant(Reach(x.node)) && ShapeOf(x.node) == Negate(ShapeOf(lo))
        && TableFresh(x.engine.unique, x.engine.next) && Registered(x.engine.unique, x.node) by {
        ApplyNotNoRedundant(lo, e);
        ApplyNotShape(lo, e);
        ApplyNotInv(lo, e);
      }
      assert NoRedundant(Reach(y.node)) && ShapeOf(y.node) == Negate(ShapeOf(hi))
        && TableFresh(y.engine.unique, y.engine.next) && Registered(y.engine.unique, y.node)
        && Extends(x.engine.unique, y.engine.unique) by {
        ApplyNotNoRedundant(hi, x.engine);
        ApplyNotShape(hi, x.engine);
        ApplyNotInv(hi, x.engine);
      }
      RegisteredGrows(x.engine.unique, y.engine.unique, x.node);
      MakeNodeFacts(l, x.node, y.node, y.engine);
      NodesEqualIffSameShape(lo, hi);
      NodesEqualIffSameShape(x.node, y.node);
      NegateInjective(ShapeOf(lo), ShapeOf(hi));
  }

  // ---------------------------------------------------------------------
  // Whole-diagram combinators

  /** `bdd_and`, `bdd_or`, `bdd_xor`, `bdd_implies` and `bdd_iff`: apply the
      operator to the two roots in a fresh engine; the result has no
      formula and the sorted union of the two orders. A missing root fails
      on attribute access inside `apply`. */
  function Combine(op: string, d1: Diagram, d2: Diagram, next: nat): Result<(Diagram, nat)>
  {
    if d1.root.None? || d2.root.None? then Err(EmptyDiagram)
    else
      var r :- Apply(op, d1.root.value, d2.root.value, NewEngine(next));
      Ok((Diagram(None, Some(r.node), SortedSet(d1.order + d2.order)), r.engine.next))
  }

  function BddAnd(d1: Diagram, d2: Diagram, next: nat): Result<(Diagram, nat)> { Combine("AND", d1, d2, next) }
  function BddOr(d1: Diagram, d2: Diagram, next: nat): Result<(Diagram, nat)> { Combine("OR", d1, d2, next) }
  function BddXor(d1: Diagram, d2: Diagram, next: nat): Result<(Diagram, nat)> { Combine("XOR", d1, d2, next) }
  function BddImplies(d1: Diagram, d2: Diagram, next: nat): Result<(Diagram, nat)> { Combine("IMPLIES", d1, d2, next) }
  function BddIff(d1: Diagram, d2: Diagram, next: nat): Result<(Diagram, nat)> { Combine("IFF", d1, d2, next) }

  /** `bdd_not`: negate the root in a fresh engine, keep the order. */
  function BddNot(d: Diagram, next: nat): Result<(Diagram, nat)>
  {
    if d.root.None? then Err(EmptyDiagram)
    else
      var r := ApplyNot(d.root.value, NewEngine(next));
      Ok((Diagram(None, Some(r.node), d.order), r.engine.next))
  }

  /** A combinator succeeds exactly when both roots exist and the operator
      is known; its root computes the operator pointwise, `is_reduced`
      accepts it, and its order lists the variables of both orders sorted
      and without repeats. */
  lemma CombineCorrect(op: string, d1: Diagram, d2: Diagram, next: nat)
    ensures var r := Combine(op, d1, d2, next);
      && (r.Ok? <==> d1.root.Some? && d2.root.Some? && Known(op))
      && (d1.root.None? || d2.root.None? ==> r == Err(EmptyDiagram))
      && (r.Err? && d1.root.Some? && d2.root.Some? ==> r.error == UnknownOperation(op))
      && (r.Ok? ==>
            var d := r.value.0;
            && d.formula.None? && d.root.Some?
            && StrictlySorted(d.order) && Elems(d.order) == Elems(d1.order) + Elems(d2.order)
            && IsReduced(d)
            && Computes(OpOf(op), d1.root.value, d2.root.value, d.root.value))
  {
    if d1.root.Some? && d2.root.Some? {
      var e := NewEngine(next);
      NewEngineOk(next);
      if Known(op) {
        ApplyInv(op, d1.root.value, d2.root.value, e);
        ApplyMeaning(op, d1.root.value, d2.root.value, e);
        var a := Apply(op, d1.root.value, d2.root.value, e).value;
        var d := Diagram(None, Some(a.node), SortedSet(d1.order + d2.order));
        RegisteredSigsUniqueAll(a.engine.unique, a.node);
        IsReducedCorrect(d);
      } else {
        ApplyUnknown(op, d1.root.value, d2.root.value, e);
      }
    }
  }

  /** A registered node has no two decisions with one signature. */
  lemma RegisteredSigsUniqueAll(t: UniqueTable, n: Node)
    requires Registered(t, n)
    ensures SigsUnique(Reach(n))
  {
    forall d, e | d in Reach(n) && e in Reach(n) && d.Decision? && e.Decision? && SigOf(d) == SigOf(e)
      ensures d == e
    {
      RegisteredSigsUnique(t, n, d, e);
    }
  }

  /** `bdd_not` succeeds exactly when there is a root; the new root
      computes the negation, and the order is copied. */
  lemma BddNotCorrect(d: Diagram, next: nat)
    ensures var r := BddNot(d, next);
      && (r.Ok? <==> d.root.Some?)
      && (r.Err? ==> r.error == EmptyDiagram)
      && (r.Ok? ==>
            && r.value.0.formula.None? && r.value.0.order == d.order && r.value.0.root.Some?
            && forall i :: Value(r.value.0.root.value, i) == !Value(d.root.value, i))
  {
    if d.root.Some? {
      NewEngineOk(next);
      ApplyNotShape(d.root.value, NewEngine(next));
    }
  }

  // ---------------------------------------------------------------------
  // are_equivalent

  /** The diagram `are_equivalent` compares: the one given when
      `is_reduced` accepts it, otherwise a copy reduced by `BDD.reduce`. */
  function ForComparison(d: Diagram, next: nat): (r: (Diagram, nat))
    ensures r.0.root.Some? == d.root.Some?
  {
    if IsReduced(d) then (d, next)
    else
      ReduceDiagramCorrect(d, next);
      var r := ReduceDiagram(d, next);
      (r.diagram, r.next)
  }

  /** `are_equivalent`: `_nodes_equal` on the two compared roots, which is
      the structural `==` of `BDDNode`; a missing root fails on attribute
      access. */
  function AreEquivalent(d1: Diagram, d2: Diagram, next: nat): Result<bool>
  {
    var c1 := ForComparison(d1, next);
    var c2 := ForComparison(d2, c1.1);
    if c1.0.root.None? || c2.0.root.None? then Err(EmptyDiagram)
    else Ok(NodesEqual(c1.0.root.value, c2.0.root.value))
  }

  /** The compared diagram means what the given one means, and is reduced. */
  lemma ForComparisonFacts(d: Diagram, next: nat)
    requires d.root.Some?
    ensures var c := ForComparison(d, next).0;
      && IsReduced(c)
      && forall i :: Value(c.root.value, i) == Value(d.root.value, i)
  {
    if !IsReduced(d) {
      ReduceDiagramCorrect(d, next);
    }
  }

  /** Preparing a diagram for comparison keeps the variable its root tests
      when the root's two branches differ somewhere. */
  lemma ComparedRootTest(d: Diagram, next: nat, i: Interpretation)
    requires d.root.Some? && d.root.value.Decision?
    requires Value(d.root.value.low, i) != Value(d.root.value.high, i)
    ensures var c := ForComparison(d, next).0;
      c.root.Some? && c.root.value.Decision? && c.root.value.name == d.root.value.name
  {
    if !IsReduced(d) {
      ReduceKeepsRootTest(d.root.value, next, i);
    }
  }

  /** `are_equivalent` never calls two different functions equivalent:
      a true answer means the roots agree everywhere. */
  lemma EquivalentSound(d1: Diagram, d2: Diagram, next: nat)
    ensures AreEquivalent(d1, d2, next).Ok? <==> d1.root.Some? && d2.root.Some?
    ensures AreEquivalent(d1, d2, next) == Ok(true) ==>
      forall i :: Value(d1.root.value, i) == Value(d2.root.value, i)
  {
    if d1.root.Some? && d2.root.Some? {
      var c1 := ForComparison(d1, next);
      var c2 := ForComparison(d2, c1.1);
      ForComparisonFacts(d1, next);
      ForComparisonFacts(d2, c1.1);
      forall i ensures Value(d1.root.value, i) == Value(d2.root.value, i) || !NodesEqual(c1.0.root.value, c2.0.root.value) {
        if NodesEqual(c1.0.root.value, c2.0.root.value) {
          EqualNodesSameValue(c1.0.root.value, c2.0.root.value, i);
        }
      }
    }
  }
}
