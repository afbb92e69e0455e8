/** The formula AST of bdd/formula.py: a closed set of variants, each with
    `evaluate` and `get_variables`. */
module Formulas {
  import opened Results
  import opened Interpretations
  import opened Strings

  datatype Formula =
    | Variable(name: string)
    | Not(operand: Formula)
    | And(left: Formula, right: Formula)
    | Or(left: Formula, right: Formula)
    | Implies(left: Formula, right: Formula)
    | Iff(left: Formula, right: Formula)

  /** `get_variables`: every variable name occurring in the formula. */
  function Vars(f: Formula): set<string>
  {
    match f
    case Variable(n) => {n}
    case Not(g) => Vars(g)
    case And(l, r) => Vars(l) + Vars(r)
    case Or(l, r) => Vars(l) + Vars(r)
    case Implies(l, r) => Vars(l) + Vars(r)
    case Iff(l, r) => Vars(l) + Vars(r)
  }

  /** The number of connectives and variables in the formula. */
  function FormulaSize(f: Formula): nat
  {
    match f
    case Variable(_) => 1
    case Not(g) => 1 + FormulaSize(g)
    case And(l, r) => 1 + FormulaSize(l) + FormulaSize(r)
    case Or(l, r) => 1 + FormulaSize(l) + FormulaSize(r)
    case Implies(l, r) => 1 + FormulaSize(l) + FormulaSize(r)
    case Iff(l, r) => 1 + FormulaSize(l) + FormulaSize(r)
  }

  /** The classical truth function of the formula, every variable read
      through `Lookup`. This is the reference the evaluator is held to. */
  function Holds(f: Formula, i: Interpretation): bool
  {
    match f
    case Variable(n) => Lookup(i, n)
    case Not(g) => !Holds(g, i)
    case And(l, r) => Holds(l, i) && Holds(r, i)
    case Or(l, r) => Holds(l, i) || Holds(r, i)
    case Implies(l, r) => !Holds(l, i) || Holds(r, i)
    case Iff(l, r) => Holds(l, i) == Holds(r, i)
  }

  /** `evaluate`, with Python's short-circuit `and`/`or`: the right operand of
      a conjunction whose left side is false (of a disjunction whose left
      side is true, of an implication whose left side is false) is never
      evaluated, so an unassigned variable there raises nothing. A
      biconditional evaluates both sides. */
  function Evaluate(f: Formula, i: Interpretation): (r: Result<bool>)
    ensures r.Ok? ==> r.value == Holds(f, i)
    ensures Vars(f) <= i.Keys ==> r.Ok?
    ensures r.Err? ==> r.error.Unassigned? && r.error.name in Vars(f) && r.error.name !in i
  {
    match f
    case Variable(n) =>
      if n in i then Ok(i[n]) else Err(Unassigned(n))
    case Not(g) =>
      var a :- Evaluate(g, i);
      Ok(!a)
    case And(l, r) =>
      var a :- Evaluate(l, i);
      if !a then Ok(false) else Evaluate(r, i)
    case Or(l, r) =>
      var a :- Evaluate(l, i);
      if a then Ok(true) else Evaluate(r, i)
    case Implies(l, r) =>
      var a :- Evaluate(l, i);
      if !a then Ok(true) else Evaluate(r, i)
    case Iff(l, r) =>
      var a :- Evaluate(l, i);
      var b :- Evaluate(r, i);
      Ok(a == b)
  }

  /** The truth value depends only on the formula's own variables. */
  lemma {:induction false} HoldsLocal(f: Formula, i: Interpretation, j: Interpretation)
    requires forall v :: v in Vars(f) ==> Lookup(i, v) == Lookup(j, v)
    ensures Holds(f, i) == Holds(f, j)
  {
    match f
    case Variable(n) =>
    case Not(g) => HoldsLocal(g, i, j);
    case And(l, r) => HoldsLocal(l, i, j); HoldsLocal(r, i, j);
    case Or(l, r) => HoldsLocal(l, i, j); HoldsLocal(r, i, j);
    case Implies(l, r) => HoldsLocal(l, i, j); HoldsLocal(r, i, j);
    case Iff(l, r) => HoldsLocal(l, i, j); HoldsLocal(r, i, j);
  }

  /** Evaluating a variable yields its value, and fails exactly when it is unassigned. */
  lemma EvaluateVariable(n: string, i: Interpretation)
    ensures Evaluate(Variable(n), i).Err? <==> Get(i, n).None?
    ensures Get(i, n).Some? ==> Evaluate(Variable(n), i) == Ok(Get(i, n).value)
  {
  }

  /** The short-circuit is observable: `p ∧ q` with `p` false evaluates to
      false although `q` is unassigned, while `p ↔ q` fails. */
  lemma ShortCircuit()
    ensures Evaluate(And(Variable("p"), Variable("q")), map["p" := false]) == Ok(false)
    ensures Evaluate(Or(Variable("p"), Variable("q")), map["p" := true]) == Ok(true)
    ensures Evaluate(Iff(Variable("p"), Variable("q")), map["p" := false]) == Err(Unassigned("q"))
  {
  }

  /** A listing of the formula's variables (in occurrence order, repeats kept),
      from which `sorted(get_variables())` is formed. */
  function VarList(f: Formula): (r: seq<string>)
    ensures Elems(r) == Vars(f)
  {
    match f
    case Variable(n) => [n]
    case Not(g) => VarList(g)
    case And(l, r) => VarList(l) + VarList(r)
    case Or(l, r) => VarList(l) + VarList(r)
    case Implies(l, r) => VarList(l) + VarList(r)
    case Iff(l, r) => VarList(l) + VarList(r)
  }

  /** `sorted(formula.get_variables())`: the variables, each once, ascending. */
  function SortedVars(f: Formula): (r: seq<string>)
    ensures StrictlySorted(r)
    ensures Elems(r) == Vars(f)
    ensures |r| > 0
  {
    var r := SortedSet(VarList(f));
    assert |r| > 0 by {
      VarsNonEmpty(f);
      var v :| v in Vars(f);
      assert v in Elems(r);
    }
    r
  }

  /** The grammar has no constants: every formula mentions a variable. */
  lemma VarsNonEmpty(f: Formula)
    ensures Vars(f) != {}
  {
  }

  /** `get_variables` of "p ∨ (q ∧ r)" is {p, q, r}. */
  lemma VarsExample()
    ensures Vars(Or(Variable("p"), And(Variable("q"), Variable("r")))) == {"p", "q", "r"}
  {
  }
}
