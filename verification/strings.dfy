/** Python's ordering of `str` values and the two uses of `sorted` the
    source makes: `sorted(list)` (duplicates kept) and `sorted(set(...))`
    (duplicates dropped). */
module Strings {

  /** `a < b` on Python strings: code-point lexicographic order, where a
      proper prefix is smaller than the longer string. */
  predicate Less(a: string, b: string)
  {
    if |a| == 0 then |b| > 0
    else if |b| == 0 then false
    else if a[0] != b[0] then a[0] < b[0]
    else Less(a[1..], b[1..])
  }

  /** `a <= b` on Python strings. */
  predicate LessEq(a: string, b: string)
  {
    a == b || Less(a, b)
  }

  lemma LessIrreflexive(a: string)
    ensures !Less(a, a)
  {
    if |a| > 0 {
      LessIrreflexive(a[1..]);
    }
  }

  lemma LessTransitive(a: string, b: string, c: string)
    requires Less(a, b) && Less(b, c)
    ensures Less(a, c)
  {
    if |a| > 0 && |b| > 0 && |c| > 0 && a[0] == b[0] && b[0] == c[0] {
      LessTransitive(a[1..], b[1..], c[1..]);
    }
  }

  lemma LessTotal(a: string, b: string)
    ensures a == b || Less(a, b) || Less(b, a)
  {
    if |a| > 0 && |b| > 0 && a[0] == b[0] {
      LessTotal(a[1..], b[1..]);
      if a[1..] == b[1..] {
        assert a == [a[0]] + a[1..] && b == [b[0]] + b[1..];
      }
    }
  }

  lemma LessAsymmetric(a: string, b: string)
    requires Less(a, b)
    ensures !Less(b, a)
  {
    if Less(b, a) {
      LessTransitive(a, b, a);
      LessIrreflexive(a);
    }
  }

  /** The set of elements of a list. */
  function Elems(s: seq<string>): set<string>
  {
    set k | k in s
  }

  ghost predicate Sorted(s: seq<string>)
  {
    forall i, j :: 0 <= i < j < |s| ==> LessEq(s[i], s[j])
  }

  ghost predicate StrictlySorted(s: seq<string>)
  {
    forall i, j :: 0 <= i < j < |s| ==> Less(s[i], s[j])
  }

  /** Inserts `x` into a sorted list, before the first element it does not exceed. */
  function Insert(x: string, s: seq<string>): (r: seq<string>)
    requires Sorted(s)
    ensures Sorted(r)
    ensures multiset(r) == multiset(s) + multiset{x}
  {
    if |s| == 0 then [x]
    else if LessEq(x, s[0]) then
      assert forall j :: 0 < j < |s| ==> LessEq(x, s[j]) by {
        forall j | 0 < j < |s| ensures LessEq(x, s[j]) {
          if x != s[0] && s[0] != s[j] { LessTransitive(x, s[0], s[j]); }
        }
      }
      [x] + s
    else
      var t := Insert(x, s[1..]);
      assert s == [s[0]] + s[1..];
      LessTotal(x, s[0]);
      assert forall k :: 0 <= k < |t| ==> LessEq(s[0], t[k]) by {
        forall k | 0 <= k < |t| ensures LessEq(s[0], t[k]) {
          assert t[k] in multiset(t);
          if t[k] != x {
            assert t[k] in multiset(s[1..]);
            var j :| 0 <= j < |s[1..]| && s[1..][j] == t[k];
            assert s[j + 1] == t[k];
          }
        }
      }
      [s[0]] + t
  }

  /** `sorted(s)`: the elements of `s`, duplicates kept, in ascending order. */
  function Sort(s: seq<string>): (r: seq<string>)
    ensures Sorted(r)
    ensures multiset(r) == multiset(s)
  {
    if |s| == 0 then []
    else
      assert s == [s[0]] + s[1..];
      Insert(s[0], Sort(s[1..]))
  }

  /** Inserts `x` into a strictly ascending list unless it is already there. */
  function InsertNew(x: string, s: seq<string>): (r: seq<string>)
    requires StrictlySorted(s)
    ensures StrictlySorted(r)
    ensures Elems(r) == Elems(s) + {x}
  {
    if |s| == 0 then [x]
    else if x == s[0] then s
    else if Less(x, s[0]) then
      assert forall j :: 0 < j < |s| ==> Less(x, s[j]) by {
        forall j | 0 < j < |s| ensures Less(x, s[j]) {
          LessTransitive(x, s[0], s[j]);
        }
      }
      [x] + s
    else
      var t := InsertNew(x, s[1..]);
      assert s == [s[0]] + s[1..];
      LessTotal(x, s[0]);
      assert forall k :: 0 <= k < |t| ==> Less(s[0], t[k]) by {
        forall k | 0 <= k < |t| ensures Less(s[0], t[k]) {
          assert t[k] in Elems(t);
          if t[k] != x {
            var j :| 0 <= j < |s[1..]| && s[1..][j] == t[k];
            assert s[j + 1] == t[k];
          }
        }
      }
      assert Elems([s[0]] + t) == {s[0]} + Elems(t);
      assert Elems(s) == {s[0]} + Elems(s[1..]);
      [s[0]] + t
  }

  /** `sorted(set(s))`: the distinct elements of `s` in strictly ascending order. */
  function SortedSet(s: seq<string>): (r: seq<string>)
    ensures StrictlySorted(r)
    ensures Elems(r) == Elems(s)
  {
    if |s| == 0 then []
    else
      assert s == [s[0]] + s[1..];
      InsertNew(s[0], SortedSet(s[1..]))
  }

  /** A finite set has exactly one strictly ascending listing, so
      `SortedSet` depends only on the set of elements it is given. */
  lemma {:induction false} StrictListingUnique(a: seq<string>, b: seq<string>)
    requires StrictlySorted(a) && StrictlySorted(b)
    requires Elems(a) == Elems(b)
    ensures a == b
    decreases |a|
  {
    assert |a| > 0 <==> |b| > 0 by {
      if |a| > 0 { assert a[0] in Elems(a); }
      if |b| > 0 { assert b[0] in Elems(b); }
    }
    if |a| > 0 {
      // The heads are both the least element of the common set.
      assert b[0] in Elems(a);
      assert a[0] in Elems(b);
      var i :| 0 <= i < |a| && a[i] == b[0];
      var j :| 0 <= j < |b| && b[j] == a[0];
      if a[0] != b[0] {
        assert 0 < i && 0 < j;
        LessAsymmetric(a[0], a[i]);
      }
      assert Elems(a[1..]) == Elems(a) - {a[0]} by {
        forall k | k in a[1..] ensures k != a[0] {
          var m :| 0 <= m < |a[1..]| && a[1..][m] == k;
          assert a[m + 1] == k;
          LessIrreflexive(a[0]);
        }
        assert a == [a[0]] + a[1..];
      }
      assert Elems(b[1..]) == Elems(b) - {b[0]} by {
        forall k | k in b[1..] ensures k != b[0] {
          var m :| 0 <= m < |b[1..]| && b[1..][m] == k;
          assert b[m + 1] == k;
          LessIrreflexive(b[0]);
        }
        assert b == [b[0]] + b[1..];
      }
      StrictListingUnique(a[1..], b[1..]);
      assert a == [a[0]] + a[1..] && b == [b[0]] + b[1..];
    }
  }

  /** No element occurs twice. */
  predicate Distinct(s: seq<string>)
  {
    forall a, b :: 0 <= a < b < |s| ==> s[a] != s[b]
  }

  lemma {:induction false} DistinctCounts(s: seq<string>)
    requires Distinct(s)
    ensures forall x :: multiset(s)[x] <= 1
  {
    if |s| > 0 {
      DistinctCounts(s[1..]);
      assert s == [s[0]] + s[1..];
      assert s[0] !in multiset(s[1..]);
    }
  }

  lemma CountsDistinct(s: seq<string>)
    requires forall x :: multiset(s)[x] <= 1
    ensures Distinct(s)
  {
    forall a, b | 0 <= a < b < |s| ensures s[a] != s[b] {
      assert s == s[..b] + s[b..];
      assert s[a] in multiset(s[..b]) by { assert s[..b][a] == s[a]; }
      assert s[b] in multiset(s[b..]) by { assert s[b..][0] == s[b]; }
      var m := multiset(s[..b]) + multiset(s[b..]);
      assert multiset(s) == m;
      assert m[s[b]] == multiset(s[..b])[s[b]] + multiset(s[b..])[s[b]];
    }
  }

  /** A permutation of a list without duplicates has none either, and has
      the same elements and length. */
  lemma PermutationKeepsDistinct(s: seq<string>, r: seq<string>)
    requires Distinct(s) && multiset(r) == multiset(s)
    ensures Distinct(r) && Elems(r) == Elems(s) && |r| == |s|
  {
    DistinctCounts(s);
    CountsDistinct(r);
    assert |r| == |multiset(r)| == |multiset(s)| == |s|;
    forall x ensures x in Elems(r) <==> x in Elems(s) {
      assert x in r <==> x in multiset(r);
      assert x in s <==> x in multiset(s);
    }
  }

  /** Distinct and ascending is strictly ascending. */
  lemma SortedDistinctIsStrict(s: seq<string>)
    requires Sorted(s) && Distinct(s)
    ensures StrictlySorted(s)
  {
  }
}
