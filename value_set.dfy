/** The value set behind the tree widget: the array of integers the component
    keeps as its ground truth, and the two updates the widget applies to it
    (add a value, then sort ascending; filter a value out). */
module ValueSet {

  /** The array the component starts with. It is NOT in ascending order. */
  function Seed(): seq<int> {
    [50, 30, 70, 20, 40, 60, 80, 10, 25, 35, 65]
  }

  predicate StrictlyIncreasing(s: seq<int>) {
    forall i, j :: 0 <= i < j < |s| ==> s[i] < s[j]
  }

  predicate NonDecreasing(s: seq<int>) {
    forall i, j :: 0 <= i < j < |s| ==> s[i] <= s[j]
  }

  /** No value occurs twice. */
  predicate Distinct(s: seq<int>) {
    forall i, j :: 0 <= i < j < |s| ==> s[i] != s[j]
  }

  // ---------------------------------------------------------------------
  // Ascending sort, as done by `sort((a, b) => a - b)` on integers
  // ---------------------------------------------------------------------

  /** Places `x` into an already ascending sequence. */
  function InsertOrdered(x: int, s: seq<int>): (r: seq<int>)
    requires NonDecreasing(s)
    ensures NonDecreasing(r)
    ensures multiset(r) == multiset(s) + multiset{x}
  {
    if s == [] || x <= s[0] then [x] + s
    else
      var t := InsertOrdered(x, s[1..]);
      assert s == [s[0]] + s[1..];
      BoundKept(s[0], s[1..], x, t);
      ConsAscending(s[0], t);
      [s[0]] + t
  }

  /** A lower bound of `s` and `x` is a lower bound of any rearrangement of
      `s` with `x` added. */
  lemma BoundKept(lo: int, s: seq<int>, x: int, t: seq<int>)
    requires forall i :: 0 <= i < |s| ==> lo <= s[i]
    requires lo <= x
    requires multiset(t) == multiset(s) + multiset{x}
    ensures forall k :: 0 <= k < |t| ==> lo <= t[k]
  {
    forall k | 0 <= k < |t| ensures lo <= t[k] {
      assert t[k] in multiset(t);
      if t[k] != x {
        assert t[k] in multiset(s);
        var i :| 0 <= i < |s| && s[i] == t[k];
      }
    }
  }

  lemma ConsAscending(a: int, t: seq<int>)
    requires NonDecreasing(t)
    requires forall k :: 0 <= k < |t| ==> a <= t[k]
    ensures NonDecreasing([a] + t)
  {
    var s := [a] + t;
    forall i, j | 0 <= i < j < |s| ensures s[i] <= s[j] {
      assert s[j] == t[j - 1];
      if i > 0 {
        assert s[i] == t[i - 1];
      }
    }
  }

  /** The ascending rearrangement of `s`. */
  function Sort(s: seq<int>): (r: seq<int>)
    ensures NonDecreasing(r)
    ensures multiset(r) == multiset(s)
  {
    if s == [] then []
    else
      assert s == [s[0]] + s[1..];
      InsertOrdered(s[0], Sort(s[1..]))
  }

  /** There is only one ascending arrangement of a multiset, so any correct
      sort produces exactly what `Sort` produces. */
  lemma {:induction false} SortedPermutationUnique(a: seq<int>, b: seq<int>)
    requires NonDecreasing(a) && NonDecreasing(b)
    requires multiset(a) == multiset(b)
    ensures a == b
  {
    assert |a| == |multiset(a)| == |multiset(b)| == |b|;
    if a != [] {
      assert a[0] in multiset(b) && b[0] in multiset(a);
      HeadIsLeast(a, b[0]);
      HeadIsLeast(b, a[0]);
      var x := a[0];
      assert b[0] == x;
      var ta, tb := a[1..], b[1..];
      assert a == [x] + ta;
      assert b == [x] + tb;
      assert multiset(ta) == multiset(tb) by {
        assert multiset(a) == multiset{x} + multiset(ta);
        assert multiset(b) == multiset{x} + multiset(tb);
        forall y ensures multiset(ta)[y] == multiset(tb)[y] {
          assert multiset(a)[y] == multiset{x}[y] + multiset(ta)[y];
          assert multiset(b)[y] == multiset{x}[y] + multiset(tb)[y];
        }
      }
      SortedPermutationUnique(ta, tb);
    }
  }

  lemma HeadIsLeast(s: seq<int>, x: int)
    requires NonDecreasing(s) && x in s
    ensures s[0] <= x
  {
    var k :| 0 <= k < |s| && s[k] == x;
    assert k == 0 || s[0] <= s[k];
  }

  /** Sorting a sequence that is already ascending changes nothing. */
  lemma SortAscendingIsIdentity(s: seq<int>)
    requires NonDecreasing(s)
    ensures Sort(s) == s
  {
    SortedPermutationUnique(Sort(s), s);
  }

  // ---------------------------------------------------------------------
  // Distinctness through multiplicities
  // ---------------------------------------------------------------------

  lemma {:induction false} DistinctIffSingleCounts(s: seq<int>)
    ensures Distinct(s) <==> forall x :: multiset(s)[x] <= 1
  {
    if s != [] {
      var t := s[1..];
      assert s == [s[0]] + t;
      DistinctIffSingleCounts(t);
      if Distinct(s) {
        assert Distinct(t) by {
          forall i, j | 0 <= i < j < |t| ensures t[i] != t[j] {
            assert t[i] == s[i + 1] && t[j] == s[j + 1];
          }
        }
        assert s[0] !in t by {
          forall k | 0 <= k < |t| ensures t[k] != s[0] {
            assert t[k] == s[k + 1];
          }
        }
      }
      if forall x :: multiset(s)[x] <= 1 {
        forall x ensures multiset(t)[x] <= 1 {
          assert multiset(s)[x] == multiset{s[0]}[x] + multiset(t)[x];
        }
        assert multiset(s)[s[0]] == 1 + multiset(t)[s[0]];
        forall i, j | 0 <= i < j < |s| ensures s[i] != s[j] {
          if i == 0 {
            assert s[j] == t[j - 1];
          } else {
            assert s[i] == t[i - 1] && s[j] == t[j - 1];
          }
        }
      }
    }
  }

  /** Two duplicate-free sequences with the same members hold the same
      multiset of values. */
  lemma SameMembersSameMultiset(a: seq<int>, b: seq<int>)
    requires Distinct(a) && Distinct(b)
    requires forall x :: x in a <==> x in b
    ensures multiset(a) == multiset(b)
  {
    DistinctIffSingleCounts(a);
    DistinctIffSingleCounts(b);
    forall x ensures multiset(a)[x] == multiset(b)[x] {
      assert x in a <==> x in multiset(a);
      assert x in b <==> x in multiset(b);
    }
  }

  /** Sorting a duplicate-free sequence gives the strictly increasing
      sequence of its members. */
  lemma SortOfSameMembers(s: seq<int>, t: seq<int>)
    requires Distinct(s) && StrictlyIncreasing(t)
    requires forall x :: x in s <==> x in t
    ensures Sort(s) == t
  {
    StrictIsDistinct(t);
    SameMembersSameMultiset(s, t);
    SortedPermutationUnique(Sort(s), t);
  }

  /** A sequence that is ascending and has no repeats is strictly increasing. */
  lemma AscendingDistinctIsStrict(s: seq<int>)
    requires NonDecreasing(s) && Distinct(s)
    ensures StrictlyIncreasing(s)
  {
  }

  lemma StrictIsDistinct(s: seq<int>)
    requires StrictlyIncreasing(s)
    ensures Distinct(s) && NonDecreasing(s)
  {
  }

  // ---------------------------------------------------------------------
  // Insert: skip a present value, otherwise append and sort ascending
  // ---------------------------------------------------------------------

  function Insert(s: seq<int>, v: int): (r: seq<int>)
    ensures v in r
    ensures v in s ==> r == s
    ensures v !in s ==> NonDecreasing(r) && multiset(r) == multiset(s) + multiset{v}
  {
    if v in s then s
    else
      var r := Sort(s + [v]);
      assert v in multiset(r);
      r
  }

  /** Inserting the same value twice is the same as inserting it once. */
  lemma InsertIdempotent(s: seq<int>, v: int)
    ensures Insert(Insert(s, v), v) == Insert(s, v)
  {
  }

  /** A new value grows the set by exactly one element, and every old element
      is kept. */
  lemma InsertNewValue(s: seq<int>, v: int)
    requires v !in s
    ensures |Insert(s, v)| == |s| + 1
    ensures forall x :: x in Insert(s, v) <==> x in s || x == v
  {
    var r := Insert(s, v);
    assert |r| == |multiset(r)| == |multiset(s)| + 1 == |s| + 1;
    forall x ensures x in r <==> x in s || x == v {
      assert x in r <==> x in multiset(r);
      assert x in s <==> x in multiset(s);
    }
  }

  /** Inserting a new value into a duplicate-free array, ordered or not,
      yields a strictly increasing array. */
  lemma InsertNewIsStrict(s: seq<int>, v: int)
    requires Distinct(s) && v !in s
    ensures StrictlyIncreasing(Insert(s, v))
  {
    var r := Insert(s, v);
    DistinctIffSingleCounts(s);
    forall x ensures multiset(r)[x] <= 1 {
      assert x in s <==> x in multiset(s);
    }
    DistinctIffSingleCounts(r);
    AscendingDistinctIsStrict(r);
  }

  /** Insert keeps a strictly increasing array strictly increasing. */
  lemma InsertKeepsStrict(s: seq<int>, v: int)
    requires StrictlyIncreasing(s)
    ensures StrictlyIncreasing(Insert(s, v))
  {
    if v !in s {
      StrictIsDistinct(s);
      InsertNewIsStrict(s, v);
    }
  }

  /** Insert keeps an array free of duplicates. */
  lemma InsertKeepsDistinct(s: seq<int>, v: int)
    requires Distinct(s)
    ensures Distinct(Insert(s, v))
  {
    if v !in s {
      InsertNewIsStrict(s, v);
      StrictIsDistinct(Insert(s, v));
    }
  }

  /** Adding a value the array does not hold, sorted or not, gives the one
      ascending array holding the old elements and `v`. */
  lemma InsertIsSortedUnion(s: seq<int>, v: int, t: seq<int>)
    requires v !in s
    requires NonDecreasing(t) && multiset(t) == multiset(s) + multiset{v}
    ensures Insert(s, v) == t
  {
    SortedPermutationUnique(Insert(s, v), t);
  }

  // ---------------------------------------------------------------------
  // Delete: keep every element that differs from the value, in order
  // ---------------------------------------------------------------------

  function Delete(s: seq<int>, v: int): (r: seq<int>)
    ensures v !in r
    ensures multiset(r) == multiset(s)[v := 0]
  {
    if s == [] then []
    else
      assert s == [s[0]] + s[1..];
      (if s[0] == v then [] else [s[0]]) + Delete(s[1..], v)
  }

  /** Filtering distributes over concatenation: the survivors keep their
      original relative order. */
  lemma {:induction false} DeleteAppend(a: seq<int>, b: seq<int>, v: int)
    ensures Delete(a + b, v) == Delete(a, v) + Delete(b, v)
  {
    if a != [] {
      assert (a + b)[1..] == a[1..] + b;
      DeleteAppend(a[1..], b, v);
    } else {
      assert a + b == b;
    }
  }

  /** Deleting an absent value changes nothing. */
  lemma {:induction false} DeleteAbsent(s: seq<int>, v: int)
    requires v !in s
    ensures Delete(s, v) == s
  {
    if s != [] {
      assert v !in s[1..];
      DeleteAbsent(s[1..], v);
      assert Delete(s, v) == [s[0]] + Delete(s[1..], v);
      assert s == [s[0]] + s[1..];
    }
  }

  /** Every element other than `v` survives the deletion. */
  lemma DeleteKeepsOthers(s: seq<int>, v: int)
    ensures forall x :: x in Delete(s, v) <==> x in s && x != v
  {
    var r := Delete(s, v);
    forall x ensures x in r <==> x in s && x != v {
      assert x in r <==> x in multiset(r);
      assert x in s <==> x in multiset(s);
    }
  }

  /** Delete keeps a strictly increasing array strictly increasing. */
  lemma {:induction false} DeleteKeepsStrict(s: seq<int>, v: int)
    requires StrictlyIncreasing(s)
    ensures StrictlyIncreasing(Delete(s, v))
  {
    if s != [] {
      var t := s[1..];
      DeleteKeepsStrict(t, v);
      DeleteKeepsOthers(t, v);
      var d := Delete(t, v);
      forall k | 0 <= k < |d| ensures s[0] < d[k] {
        assert d[k] in d;
        var i :| 0 <= i < |t| && t[i] == d[k];
        assert t[i] == s[i + 1];
      }
    }
  }

  /** Delete keeps an array free of duplicates. */
  lemma DeleteKeepsDistinct(s: seq<int>, v: int)
    requires Distinct(s)
    ensures Distinct(Delete(s, v))
  {
    var r := Delete(s, v);
    DistinctIffSingleCounts(s);
    forall x ensures multiset(r)[x] <= 1 {
    }
    DistinctIffSingleCounts(r);
  }

  // ---------------------------------------------------------------------
  // Any sequence of user actions
  // ---------------------------------------------------------------------

  /** The three ways the widget changes its value set. */
  datatype Op = Add(v: int) | Remove(v: int) | Clear

  function Apply(s: seq<int>, op: Op): seq<int> {
    match op
    case Add(v) => Insert(s, v)
    case Remove(v) => Delete(s, v)
    case Clear => []
  }

  function ApplyAll(s: seq<int>, ops: seq<Op>): seq<int>
    decreases |ops|
  {
    if ops == [] then s else ApplyAll(Apply(s, ops[0]), ops[1..])
  }

  /** Starting strictly increasing, every run of adds, removes and resets
      stays strictly increasing. */
  lemma {:induction false} ActionsKeepStrict(s: seq<int>, ops: seq<Op>)
    requires StrictlyIncreasing(s)
    ensures StrictlyIncreasing(ApplyAll(s, ops))
    decreases |ops|
  {
    if ops != [] {
      match ops[0] {
        case Add(v) => InsertKeepsStrict(s, v);
        case Remove(v) => DeleteKeepsStrict(s, v);
        case Clear =>
      }
      ActionsKeepStrict(Apply(s, ops[0]), ops[1..]);
    }
  }

  /** Starting duplicate-free (as the unsorted seed is), every run of adds,
      removes and resets stays duplicate-free. */
  lemma {:induction false} ActionsKeepDistinct(s: seq<int>, ops: seq<Op>)
    requires Distinct(s)
    ensures Distinct(ApplyAll(s, ops))
    decreases |ops|
  {
    if ops != [] {
      match ops[0] {
        case Add(v) => InsertKeepsDistinct(s, v);
        case Remove(v) => DeleteKeepsDistinct(s, v);
        case Clear =>
      }
      ActionsKeepDistinct(Apply(s, ops[0]), ops[1..]);
    }
  }

  /** Once a new value is added to a duplicate-free set, the set is strictly
      increasing from then on, whatever follows. */
  lemma ActionsAfterNewAddAreStrict(s: seq<int>, v: int, ops: seq<Op>)
    requires Distinct(s) && v !in s
    ensures StrictlyIncreasing(ApplyAll(s, [Add(v)] + ops))
  {
    InsertNewIsStrict(s, v);
    assert ([Add(v)] + ops)[1..] == ops;
    ActionsKeepStrict(Insert(s, v), ops);
  }
}
