/** `Interpretation` and `PartialInterpretation` (bdd/truth_table.py): an
    assignment of truth values to some variables. The Python class wraps a
    mutable dict; here an interpretation is an immutable map, so `assign`
    returns the updated map and `copy` cannot alias. */
module Interpretations {
  import opened Results

  type Interpretation = map<string, bool>

  /** `Interpretation()` / `Interpretation({})`: nothing assigned. */
  const Empty: Interpretation := map[]

  /** `get`: the value of `v`, or `None` when `v` is unassigned. */
  function Get(i: Interpretation, v: string): (r: Option<bool>)
    ensures r.Some? <==> v in i
    ensures r.Some? ==> r.value == i[v]
  {
    if v in i then Some(i[v]) else None
  }

  /** `assign`: sets (or overwrites) the value of one variable. */
  function Assign(i: Interpretation, v: string, b: bool): (r: Interpretation)
    ensures Get(r, v) == Some(b)
    ensures forall w :: w != v ==> Get(r, w) == Get(i, w)
    ensures r.Keys == i.Keys + {v}
  {
    i[v := b]
  }

  /** `is_complete`: every listed variable has a value. */
  function IsComplete(i: Interpretation, vars: seq<string>): (r: bool)
    ensures r <==> forall k :: 0 <= k < |vars| ==> vars[k] in i
  {
    if |vars| == 0 then true
    else vars[0] in i && IsComplete(i, vars[1..])
  }

  /** `copy`: an interpretation with the same assignments. Because the model's
      interpretations are values, later assignments to the copy cannot reach
      the original. */
  function Copy(i: Interpretation): (r: Interpretation)
    ensures r.Keys == i.Keys
    ensures forall v :: v in i ==> Get(r, v) == Get(i, v)
  {
    i
  }

  /** `__eq__`: equal exactly when the assignment maps are equal. */
  predicate Equal(i: Interpretation, j: Interpretation)
  {
    i == j
  }

  /** `PartialInterpretation.is_defined_for`. */
  predicate IsDefinedFor(i: Interpretation, v: string)
    ensures IsDefinedFor(i, v) <==> Get(i, v).Some?
  {
    v in i
  }

  /** `PartialInterpretation.extend`: a new interpretation that also binds
      `v` to `b`; the receiver is left as it was. */
  function Extend(i: Interpretation, v: string, b: bool): (r: Interpretation)
    ensures IsDefinedFor(r, v) && Get(r, v) == Some(b)
    ensures forall w :: w != v ==> Get(r, w) == Get(i, w)
    ensures forall w :: IsDefinedFor(i, w) ==> IsDefinedFor(r, w)
  {
    Assign(Copy(i), v, b)
  }

  /** Assigning into a copy leaves the original's answers unchanged, and
      interpretations are equal exactly when they answer `get` alike. */
  lemma CopyIsIndependent(i: Interpretation, v: string, b: bool)
    ensures forall w :: Get(i, w) == Get(Copy(i), w)
    ensures Assign(Copy(i), v, b) == Assign(i, v, b)
  {
  }

  lemma {:induction false} EqualIffSameAnswers(i: Interpretation, j: Interpretation)
    ensures Equal(i, j) <==> forall w :: Get(i, w) == Get(j, w)
  {
    if forall w :: Get(i, w) == Get(j, w) {
      assert i.Keys == j.Keys by {
        forall w ensures w in i <==> w in j {
          assert Get(i, w) == Get(j, w);
        }
      }
      forall w | w in i ensures i[w] == j[w] {
        assert Get(i, w) == Get(j, w);
      }
    }
  }

  /** The value a total reading of `i` gives `v`: unassigned variables read as
      false. Used only where every variable that matters is assigned. */
  function Lookup(i: Interpretation, v: string): bool
  {
    v in i && i[v]
  }
}
