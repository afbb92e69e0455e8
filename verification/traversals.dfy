/** The three depth-first traversals of bdd/diagram.py that carry a visited
    set: `count_nodes`, `get_all_nodes` and `is_reduced`. The source's
    visited set holds node ids; here it holds the nodes themselves, which is
    the same thing for a well-identified diagram (see `Nodes`). */
module Traversals {
  import opened Nodes
  import opened Diagrams

  /** A set of nodes that holds everything below each of its members: the
      nodes a traversal has finished with. */
  ghost predicate Closed(c: set<Node>)
  {
    forall x :: x in c ==> Reach(x) <= c
  }

  lemma ReachClosed(n: Node)
    ensures Closed(Reach(n))
  {
    forall x | x in Reach(n) ensures Reach(x) <= Reach(n) {
      ReachBelow(n, x);
    }
  }

  /** The nodes a traversal entering a child of `n` has seen: those it has
      finished with (`c`) and those on its path (`s`, now with `n`). The
      path stays clear of what lies below the child. */
  lemma Descend(n: Node, s: set<Node>)
    requires n.Decision? && s * Reach(n) == {}
    ensures (s + {n}) * Reach(n.low) == {}
    ensures (s + {n}) * Reach(n.high) == {}
  {
    NotBelowItself(n);
  }

  // ---------------------------------------------------------------------
  // count_nodes

  /** `_count_nodes_recursive`: the count of nodes not yet visited, and the
      visited set afterwards. */
  datatype Counted = Counted(visited: set<Node>, count: nat)

  function CountFrom(n: Node, visited: set<Node>): Counted
  {
    if n in visited then Counted(visited, 0)
    else match n
      case Terminal(_) => Counted(visited + {n}, 1)
      case Decision(_, _, l, h) =>
        var lo := CountFrom(l, visited + {n});
        var hi := CountFrom(h, lo.visited);
        Counted(hi.visited, 1 + lo.count + hi.count)
  }

  /** `count_nodes`; a diagram without a root has none. */
  function CountNodes(d: Diagram): nat
  {
    if d.root.None? then 0 else CountFrom(d.root.value, {}).count
  }

  /** Entering `n` with the finished nodes `c` and the path `s`, the
      traversal visits exactly what `n` reaches and counts the nodes among
      them it had not seen. */
  lemma {:induction false} CountFromSpec(n: Node, c: set<Node>, s: set<Node>)
    requires Closed(c) && s * Reach(n) == {}
    ensures CountFrom(n, c + s).visited == c + s + Reach(n)
    ensures CountFrom(n, c + s).count == |Reach(n) - (c + s)|
    decreases n, 2
  {
    var v := c + s;
    assert n in Reach(n);
    if n in v {
      assert n in c;
      assert Reach(n) <= c;
      assert Reach(n) - v == {};
    } else if n.Decision? {
      CountDecision(n, c, s);
    } else {
      assert Reach(n) - v == {n};
    }
  }

  /** The step of `CountFromSpec` at an unvisited decision. */
  lemma {:induction false} CountDecision(n: Node, c: set<Node>, s: set<Node>)
    requires Closed(c) && s * Reach(n) == {}
    requires n.Decision? && n !in c + s
    ensures CountFrom(n, c + s).visited == c + s + Reach(n)
    ensures CountFrom(n, c + s).count == |Reach(n) - (c + s)|
    decreases n, 1
  {
    var v := c + s;
    var lo := CountFrom(n.low, v + {n});
    var hi := CountFrom(n.high, lo.visited);
    CountLow(n, c, s);
    CountHigh(n, c, s, lo.visited);
    assert CountFrom(n, v) == Counted(hi.visited, 1 + lo.count + hi.count);
    CountCombine(n, v, lo.visited, lo.count, hi.visited, hi.count);
  }

  /** The traversal of the low child of an unvisited decision. */
  lemma {:induction false} CountLow(n: Node, c: set<Node>, s: set<Node>)
    requires Closed(c) && s * Reach(n) == {}
    requires n.Decision? && n !in c + s
    ensures var v1 := c + s + {n};
      CountFrom(n.low, v1) == Counted(v1 + Reach(n.low), |Reach(n.low) - v1|)
    decreases n, 0
  {
    Descend(n, s);
    assert c + s + {n} == c + (s + {n});
    CountFromSpec(n.low, c, s + {n});
  }

  /** The traversal of the high child, entered once the low child is done. */
  lemma {:induction false} CountHigh(n: Node, c: set<Node>, s: set<Node>, lv: set<Node>)
    requires Closed(c) && s * Reach(n) == {}
    requires n.Decision? && n !in c + s
    requires lv == c + s + {n} + Reach(n.low)
    ensures CountFrom(n.high, lv) == Counted(lv + Reach(n.high), |Reach(n.high) - lv|)
    decreases n, 0
  {
    Descend(n, s);
    ReachClosed(n.low);
    var c2 := c + Reach(n.low);
    assert c2 + (s + {n}) == lv;
    CountFromSpec(n.high, c2, s + {n});
  }

  /** The nodes and counts of the two children add up to those of `n`. */
  lemma CountCombine(n: Node, v: set<Node>, lv: set<Node>, lc: nat, hv: set<Node>, hc: nat)
    requires n.Decision? && n !in v
    requires lv == v + {n} + Reach(n.low) && lc == |Reach(n.low) - (v + {n})|
    requires hv == lv + Reach(n.high) && hc == |Reach(n.high) - lv|
    ensures hv == v + Reach(n)
    ensures 1 + lc + hc == |Reach(n) - v|
  {
    SplitVisit(n, v);
  }

  /** The nodes `n` reaches outside `v`: `n` itself, those its low child
      reaches outside `v` and `n`, and those its high child reaches beyond
      these; the three parts are disjoint. */
  lemma SplitVisit(n: Node, v: set<Node>)
    requires n.Decision? && n !in v
    ensures var v1 := v + {n};
      var b := Reach(n.low) - v1;
      var h := Reach(n.high) - (v1 + Reach(n.low));
      Reach(n) - v == {n} + b + h && |Reach(n) - v| == 1 + |b| + |h|
  {
    var v1 := v + {n};
    var b := Reach(n.low) - v1;
    var h := Reach(n.high) - (v1 + Reach(n.low));
    assert Reach(n) - v == {n} + b + h;
    assert {n} * b == {};
    assert ({n} + b) * h == {};
    assert |{n} + b| == 1 + |b|;
  }

  /** `count_nodes` counts every node reachable from the root once. */
  lemma CountNodesCorrect(d: Diagram)
    requires d.root.Some?
    ensures CountNodes(d) == |Reach(d.root.value)|
  {
    var e: set<Node> := {};
    CountFromSpec(d.root.value, e, e);
    assert e + e == e;
  }

  // ---------------------------------------------------------------------
  // get_all_nodes

  /** `_collect_nodes`: appends each node not yet visited, in depth-first
      preorder, low before high. */
  datatype Collected = Collected(visited: set<Node>, nodes: seq<Node>)

  function CollectFrom(n: Node, visited: set<Node>, acc: seq<Node>): Collected
  {
    if n in visited then Collected(visited, acc)
    else match n
      case Terminal(_) => Collected(visited + {n}, acc + [n])
      case Decision(_, _, l, h) =>
        var lo := CollectFrom(l, visited + {n}, acc + [n]);
        CollectFrom(h, lo.visited, lo.nodes)
  }

  /** `get_all_nodes`. */
  function AllNodes(d: Diagram): seq<Node>
  {
    if d.root.None? then [] else CollectFrom(d.root.value, {}, []).nodes
  }

  function NodeSet(s: seq<Node>): set<Node>
  {
    set x | x in s
  }

  predicate NoRepeats(s: seq<Node>)
  {
    forall a, b :: 0 <= a < b < |s| ==> s[a] != s[b]
  }

  /** Collecting visits what counting visits and appends one node per node
      counted, keeping what was collected before. */
  lemma {:induction false} CollectLikeCount(n: Node, visited: set<Node>, acc: seq<Node>)
    ensures CollectFrom(n, visited, acc).visited == CountFrom(n, visited).visited
    ensures |CollectFrom(n, visited, acc).nodes| == |acc| + CountFrom(n, visited).count
    ensures CollectFrom(n, visited, acc).nodes[..|acc|] == acc
  {
    if n !in visited && n.Decision? {
      CollectLikeCount(n.low, visited + {n}, acc + [n]);
      var lo := CollectFrom(n.low, visited + {n}, acc + [n]);
      CollectLikeCount(n.high, lo.visited, lo.nodes);
      var r := CollectFrom(n.high, lo.visited, lo.nodes);
      assert r.nodes[..|acc|] == r.nodes[..|acc + [n]|][..|acc|];
    }
  }

  /** Every node appended is one newly visited, and none twice. */
  lemma {:induction false} CollectNoRepeats(n: Node, visited: set<Node>, acc: seq<Node>)
    requires NoRepeats(acc) && NodeSet(acc) <= visited
    ensures var r := CollectFrom(n, visited, acc);
      NoRepeats(r.nodes) && NodeSet(r.nodes) == NodeSet(acc) + (r.visited - visited) && visited <= r.visited
  {
    if n !in visited {
      var acc1 := acc + [n];
      assert NodeSet(acc1) == NodeSet(acc) + {n};
      assert NoRepeats(acc1) by {
        forall a, b | 0 <= a < b < |acc1| ensures acc1[a] != acc1[b] {
          if b == |acc| {
            assert acc1[a] in NodeSet(acc);
          }
        }
      }
      if n.Decision? {
        CollectNoRepeats(n.low, visited + {n}, acc1);
        var lo := CollectFrom(n.low, visited + {n}, acc1);
        CollectNoRepeats(n.high, lo.visited, lo.nodes);
      }
    }
  }

  /** `get_all_nodes` lists every node reachable from the root exactly once,
      the root first, as many as `count_nodes` counts. */
  lemma AllNodesCorrect(d: Diagram)
    requires d.root.Some?
    ensures NodeSet(AllNodes(d)) == Reach(d.root.value)
    ensures NoRepeats(AllNodes(d))
    ensures |AllNodes(d)| == CountNodes(d)
    ensures AllNodes(d)[0] == d.root.value
  {
    var n := d.root.value;
    var r := CollectFrom(n, {}, []);
    assert NodeSet(r.nodes) == r.visited && NoRepeats(r.nodes) by {
      CollectNoRepeats(n, {}, []);
    }
    assert r.visited == Reach(n) && |r.nodes| == CountNodes(d) by {
      CollectLikeCount(n, {}, []);
      var e: set<Node> := {};
      CountFromSpec(n, e, e);
      assert e + e == e;
    }
    assert r.nodes[0] == n by {
      CollectStartsAt(n, {}, []);
    }
  }

  /** A node not yet visited is appended right after what was collected. */
  lemma CollectStartsAt(n: Node, visited: set<Node>, acc: seq<Node>)
    requires n !in visited
    ensures |CollectFrom(n, visited, acc).nodes| > |acc|
    ensures CollectFrom(n, visited, acc).nodes[|acc|] == n
  {
    if n.Decision? {
      var lo := CollectFrom(n.low, visited + {n}, acc + [n]);
      CollectLikeCount(n.low, visited + {n}, acc + [n]);
      CollectLikeCount(n.high, lo.visited, lo.nodes);
      var r := CollectFrom(n.high, lo.visited, lo.nodes);
      assert r.nodes[..|lo.nodes|][..|acc| + 1] == lo.nodes[..|acc| + 1] == acc + [n];
    }
  }

  // ---------------------------------------------------------------------
  // is_reduced

  /** No node in `x` is redundant. */
  ghost predicate NoRedundant(x: set<Node>)
  {
    forall d :: d in x ==> !IsRedundant(d)
  }

  /** No two decisions in `x` share a label and the identities of both
      children. */
  ghost predicate SigsUnique(x: set<Node>)
  {
    forall d, e :: d in x && e in x && d.Decision? && e.Decision? && SigOf(d) == SigOf(e) ==> d == e
  }

  /** The signatures of the decisions in `x`. */
  ghost function SigsOf(x: set<Node>): set<Sig>
  {
    set d | d in x && d.Decision? :: SigOf(d)
  }

  /** What `is_reduced` is meant to decide: below the root there is no
      redundant node and no two decisions with one signature. */
  ghost predicate Reduced(n: Node)
  {
    NoRedundant(Reach(n)) && SigsUnique(Reach(n))
  }

  /** `_check_reduced`: the verdict, with the visited nodes and the
      signatures seen afterwards. On a false verdict the sets do not matter:
      the caller stops. */
  datatype Checked = Checked(visited: set<Node>, sigs: set<Sig>, ok: bool)

  function CheckFrom(n: Node, visited: set<Node>, sigs: set<Sig>): Checked
  {
    if n in visited then Checked(visited, sigs, true)
    else match n
      case Terminal(_) => Checked(visited + {n}, sigs, true)
      case Decision(_, _, l, h) =>
        if NodesEqual(l, h) then Checked(visited + {n}, sigs, false)
        else if SigOf(n) in sigs then Checked(visited + {n}, sigs, false)
        else
          var lo := CheckFrom(l, visited + {n}, sigs + {SigOf(n)});
          if !lo.ok then lo
          else CheckFrom(h, lo.visited, lo.sigs)
  }

  /** `is_reduced`: a diagram without a root counts as reduced. */
  function IsReduced(d: Diagram): bool
  {
    d.root.None? || CheckFrom(d.root.value, {}, {}).ok
  }

  /** Entering `n` with the finished nodes `c`, the path `s` and their
      signatures, the check succeeds exactly when `n` reaches no redundant
      node and no signature repeats among all nodes seen. */
  lemma {:induction false} CheckFromSpec(n: Node, c: set<Node>, s: set<Node>, sigs: set<Sig>)
    requires Closed(c) && s * Reach(n) == {}
    requires NoRedundant(c + s) && SigsUnique(c + s) && sigs == SigsOf(c + s)
    ensures var r := CheckFrom(n, c + s, sigs);
      && (r.ok <==> NoRedundant(Reach(n)) && SigsUnique(c + s + Reach(n)))
      && (r.ok ==> r.visited == c + s + Reach(n) && r.sigs == SigsOf(r.visited))
  {
    var v := c + s;
    if n in v {
      assert n !in s;
      assert Reach(n) <= c;
      assert v + Reach(n) == v;
    } else if n.Terminal? {
      assert Reach(n) == {n};
      assert SigsOf(v + {n}) == SigsOf(v);
    } else if NodesEqual(n.low, n.high) {
    } else if SigOf(n) in sigs {
      var d :| d in v && d.Decision? && SigOf(d) == SigOf(n);
      assert d != n;
    } else {
      Descend(n, s);
      var v1 := v + {n};
      var sigs1 := sigs + {SigOf(n)};
      assert v1 == c + (s + {n});
      assert SigsOf(v1) == sigs1;
      assert SigsUnique(v1);
      CheckFromSpec(n.low, c, s + {n}, sigs1);
      var lo := CheckFrom(n.low, v1, sigs1);
      assert v1 + Reach(n.low) <= v + Reach(n);
      if lo.ok {
        ReachClosed(n.low);
        var c2 := c + Reach(n.low);
        assert lo.visited == c2 + (s + {n});
        CheckFromSpec(n.high, c2, s + {n}, lo.sigs);
        assert lo.visited + Reach(n.high) == v + Reach(n);
      }
    }
  }

  /** `is_reduced` decides `Reduced`. */
  lemma IsReducedCorrect(d: Diagram)
    requires d.root.Some?
    ensures IsReduced(d) <==> Reduced(d.root.value)
  {
    var e: set<Node> := {};
    assert e + e == e;
    assert SigsOf(e) == {};
    CheckFromSpec(d.root.value, e, e, {});
  }
}
