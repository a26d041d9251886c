/** The tree the widget draws: built afresh from the value set by midpoint
    splitting, searched by ordinary binary-search-tree descent, and summarised
    by statistics computed from the array length alone. */
module BstTree {
  import opened ValueSet

  datatype Tree = Nil | Node(left: Tree, value: int, right: Tree)

  function Size(t: Tree): nat {
    match t
    case Nil => 0
    case Node(l, _, r) => Size(l) + 1 + Size(r)
  }

  function Height(t: Tree): nat {
    match t
    case Nil => 0
    case Node(l, _, r) => 1 + if Height(l) < Height(r) then Height(r) else Height(l)
  }

  /** Nodes with no children. */
  function LeafCount(t: Tree): nat {
    match t
    case Nil => 0
    case Node(l, _, r) => if l == Nil && r == Nil then 1 else LeafCount(l) + LeafCount(r)
  }

  function InOrder(t: Tree): seq<int> {
    match t
    case Nil => []
    case Node(l, v, r) => InOrder(l) + [v] + InOrder(r)
  }

  function Values(t: Tree): set<int> {
    match t
    case Nil => {}
    case Node(l, v, r) => Values(l) + {v} + Values(r)
  }

  /** Left < Parent < Right at every node. */
  predicate IsBst(t: Tree) {
    match t
    case Nil => true
    case Node(l, v, r) =>
      IsBst(l) && IsBst(r) &&
      (forall x :: x in Values(l) ==> x < v) &&
      (forall x :: x in Values(r) ==> v < x)
  }

  // ---------------------------------------------------------------------
  // buildTreeFromArray
  // ---------------------------------------------------------------------

  /** The tree over `arr[low]` through `arr[high]`, rooted at the
      element at index floor((low + high) / 2). */
  function Build(arr: seq<int>, low: int, high: int): Tree
    requires 0 <= low <= high + 1 <= |arr|
    decreases high + 1 - low
  {
    if low > high then Nil
    else
      var mid := (low + high) / 2;
      Node(Build(arr, low, mid - 1), arr[mid], Build(arr, mid + 1, high))
  }

  /** The tree over the whole array, as drawn by the widget. */
  function BuildTree(arr: seq<int>): Tree {
    Build(arr, 0, |arr| - 1)
  }

  /** One step of the build, unfolded: the midpoint lies in the range. */
  lemma BuildNode(arr: seq<int>, low: int, high: int)
    requires 0 <= low <= high < |arr|
    ensures var mid := (low + high) / 2;
      low <= mid <= high &&
      Build(arr, low, high) == Node(Build(arr, low, mid - 1), arr[mid], Build(arr, mid + 1, high))
  {
  }

  /** The build over `[low, high]` is empty exactly when `low > high`, and
      otherwise has one node per element of the range. */
  lemma {:induction false} BuildSize(arr: seq<int>, low: int, high: int)
    requires 0 <= low <= high + 1 <= |arr|
    ensures Build(arr, low, high) == Nil <==> low > high
    ensures Size(Build(arr, low, high)) == high - low + 1
    decreases high + 1 - low
  {
    if low <= high {
      var mid := (low + high) / 2;
      BuildNode(arr, low, high);
      BuildSize(arr, low, mid - 1);
      BuildSize(arr, mid + 1, high);
    }
  }

  /** The root of a non-empty range is its midpoint element; the left half
      has floor((n - 1) / 2) nodes and the right half ceil((n - 1) / 2). */
  lemma BuildShape(arr: seq<int>, low: int, high: int)
    requires 0 <= low <= high < |arr|
    ensures var t := Build(arr, low, high);
      t.Node? && t.value == arr[(low + high) / 2] &&
      Size(t.left) == (high - low) / 2 &&
      Size(t.right) == (high - low + 1) / 2
  {
    var mid := (low + high) / 2;
    BuildNode(arr, low, high);
    BuildSize(arr, low, mid - 1);
    BuildSize(arr, mid + 1, high);
  }

  /** Reading the built tree in order gives back the array range. */
  lemma {:induction false} InOrderBuild(arr: seq<int>, low: int, high: int)
    requires 0 <= low <= high + 1 <= |arr|
    ensures InOrder(Build(arr, low, high)) == arr[low..high + 1]
    decreases high + 1 - low
  {
    if low <= high {
      var mid := (low + high) / 2;
      InOrderBuild(arr, low, mid - 1);
      InOrderBuild(arr, mid + 1, high);
      InOrderFromHalves(arr, low, high);
    }
  }

  /** A non-empty range reads back in order once both halves do. */
  lemma InOrderFromHalves(arr: seq<int>, low: int, high: int)
    requires 0 <= low <= high < |arr|
    requires InOrder(Build(arr, low, (low + high) / 2 - 1)) == arr[low..(low + high) / 2]
    requires InOrder(Build(arr, (low + high) / 2 + 1, high)) == arr[(low + high) / 2 + 1..high + 1]
    ensures InOrder(Build(arr, low, high)) == arr[low..high + 1]
  {
    var mid := (low + high) / 2;
    BuildNode(arr, low, high);
    SliceAround(arr, low, mid, high);
  }

  lemma SliceAround(arr: seq<int>, low: int, mid: int, high: int)
    requires 0 <= low <= mid <= high < |arr|
    ensures arr[low..high + 1] == arr[low..mid] + [arr[mid]] + arr[mid + 1..high + 1]
  {
  }

  /** The in-order traversal of the drawn tree is the array itself, sorted
      or not, so the tree has one node per array element. */
  lemma InOrderBuildTree(arr: seq<int>)
    ensures InOrder(BuildTree(arr)) == arr
    ensures Size(BuildTree(arr)) == |arr|
  {
    InOrderBuild(arr, 0, |arr| - 1);
    BuildSize(arr, 0, |arr| - 1);
    assert arr[0..|arr|] == arr;
  }

  lemma {:induction false} ValuesInOrder(t: Tree)
    ensures forall x :: x in Values(t) <==> x in InOrder(t)
  {
    match t
    case Nil =>
    case Node(l, v, r) =>
      ValuesInOrder(l);
      ValuesInOrder(r);
  }

  /** A concatenation around a pivot is strictly increasing exactly when both
      sides are, and the pivot separates them. */
  lemma StrictAroundPivot(a: seq<int>, v: int, b: seq<int>)
    ensures StrictlyIncreasing(a + [v] + b) <==>
      StrictlyIncreasing(a) && StrictlyIncreasing(b) &&
      (forall x :: x in a ==> x < v) && (forall x :: x in b ==> v < x)
  {
    var s := a + [v] + b;
    if StrictlyIncreasing(s) {
      forall i, j | 0 <= i < j < |a| ensures a[i] < a[j] {
        assert a[i] == s[i] && a[j] == s[j];
      }
      forall i, j | 0 <= i < j < |b| ensures b[i] < b[j] {
        assert b[i] == s[|a| + 1 + i] && b[j] == s[|a| + 1 + j];
      }
      forall x | x in a ensures x < v {
        var i :| 0 <= i < |a| && a[i] == x;
        assert s[i] == x && s[|a|] == v;
      }
      forall x | x in b ensures v < x {
        var i :| 0 <= i < |b| && b[i] == x;
        assert s[|a| + 1 + i] == x && s[|a|] == v;
      }
    }
    if StrictlyIncreasing(a) && StrictlyIncreasing(b) &&
      (forall x :: x in a ==> x < v) && (forall x :: x in b ==> v < x)
    {
      forall i, j | 0 <= i < j < |s| ensures s[i] < s[j] {
        if j < |a| {
        } else if i < |a| {
          assert a[i] in a;
          if j > |a| {
            assert s[j] == b[j - |a| - 1] && s[j] in b;
          }
        } else if i == |a| {
          assert s[j] == b[j - |a| - 1] && s[j] in b;
        } else {
          assert s[i] == b[i - |a| - 1] && s[j] == b[j - |a| - 1];
        }
      }
    }
  }

  /** A tree has the search-tree ordering exactly when its in-order traversal
      is strictly increasing. */
  lemma {:induction false} BstIffInOrderStrict(t: Tree)
    ensures IsBst(t) <==> StrictlyIncreasing(InOrder(t))
  {
    match t
    case Nil =>
    case Node(l, v, r) =>
      BstIffInOrderStrict(l);
      BstIffInOrderStrict(r);
      ValuesInOrder(l);
      ValuesInOrder(r);
      StrictAroundPivot(InOrder(l), v, InOrder(r));
  }

  /** The drawn tree obeys Left < Parent < Right exactly when the array is
      strictly increasing; the unsorted start array therefore does not. */
  lemma BuildTreeIsBstIff(arr: seq<int>)
    ensures IsBst(BuildTree(arr)) <==> StrictlyIncreasing(arr)
  {
    InOrderBuildTree(arr);
    BstIffInOrderStrict(BuildTree(arr));
  }

  // ---------------------------------------------------------------------
  // searchInTree
  // ---------------------------------------------------------------------

  function Search(t: Tree, x: int): bool {
    match t
    case Nil => false
    case Node(l, v, r) =>
      if v == x then true
      else if x < v then Search(l, x)
      else Search(r, x)
  }

  /** Search never reports a value the tree does not hold. */
  lemma {:induction false} SearchSound(t: Tree, x: int)
    ensures Search(t, x) ==> x in Values(t)
  {
    match t
    case Nil =>
    case Node(l, v, r) =>
      SearchSound(l, x);
      SearchSound(r, x);
  }

  /** On a search tree, search finds every value the tree holds. */
  lemma {:induction false} SearchComplete(t: Tree, x: int)
    requires IsBst(t) && x in Values(t)
    ensures Search(t, x)
  {
    match t
    case Node(l, v, r) =>
      if x < v {
        SearchComplete(l, x);
      } else if v < x {
        SearchComplete(r, x);
      }
  }

  /** Search on the tree drawn from a strictly increasing array answers
      membership in the array. */
  lemma SearchBuildTree(arr: seq<int>, x: int)
    requires StrictlyIncreasing(arr)
    ensures Search(BuildTree(arr), x) <==> x in arr
  {
    var t := BuildTree(arr);
    BuildTreeIsBstIff(arr);
    InOrderBuildTree(arr);
    ValuesInOrder(t);
    SearchSound(t, x);
    if x in arr {
      SearchComplete(t, x);
    }
  }

  /** Number of nodes the descent for `x` looks at. */
  function Visits(t: Tree, x: int): nat {
    match t
    case Nil => 0
    case Node(l, v, r) =>
      1 + if v == x then 0 else if x < v then Visits(l, x) else Visits(r, x)
  }

  /** The descent looks at no more than one node per level. */
  lemma {:induction false} VisitsWithinHeight(t: Tree, x: int)
    ensures Visits(t, x) <= Height(t)
  {
    match t
    case Nil =>
    case Node(l, v, r) =>
      VisitsWithinHeight(l, x);
      VisitsWithinHeight(r, x);
  }

  // ---------------------------------------------------------------------
  // calculateStats (integer fields)
  // ---------------------------------------------------------------------

  function Pow2(h: nat): (p: nat)
    ensures p >= 1
  {
    if h == 0 then 1 else 2 * Pow2(h - 1)
  }

  /** ceil(log2(m)): the least h with m <= 2^h. */
  function CeilLog2(m: nat): (h: nat)
    requires m >= 1
    ensures m <= Pow2(h)
    ensures h == 0 || Pow2(h - 1) < m
    decreases m
  {
    if m <= 1 then 0 else 1 + CeilLog2((m + 1) / 2)
  }

  lemma {:induction false} Pow2Monotone(a: nat, b: nat)
    requires a <= b
    ensures Pow2(a) <= Pow2(b)
    decreases b
  {
    if a < b {
      Pow2Monotone(a, b - 1);
    }
  }

  /** No smaller exponent than CeilLog2(m) reaches m. */
  lemma {:induction false} CeilLog2Least(m: nat, h: nat)
    requires m >= 1 && m <= Pow2(h)
    ensures CeilLog2(m) <= h
    decreases m
  {
    if m > 1 {
      CeilLog2Least((m + 1) / 2, h - 1);
    }
  }

  datatype Stats = Stats(height: nat, nodes: nat, leaves: nat)

  /** The statistics shown beside the tree, from the array length alone. */
  function StatsOf(arr: seq<int>): (r: Stats)
    ensures r.nodes == |arr|
    ensures |arr| == 0 ==> r.height == 0
    ensures |arr| > 0 ==> |arr| + 1 <= Pow2(r.height) && Pow2(r.height - 1) < |arr| + 1
    ensures |arr| <= 2 * r.leaves <= |arr| + 1
  {
    if |arr| == 0 then Stats(0, 0, 0)
    else Stats(CeilLog2(|arr| + 1), |arr|, (|arr| + 1) / 2)
  }

  /** Number of binary digits of n. */
  function BitLength(n: nat): nat {
    if n == 0 then 0 else 1 + BitLength(n / 2)
  }

  /** The midpoint tree over n elements has height ceil(log2(n + 1)). */
  lemma HeightOfBuild(arr: seq<int>, low: int, high: int)
    requires 0 <= low <= high + 1 <= |arr|
    ensures Height(Build(arr, low, high)) == CeilLog2(high - low + 2)
  {
    BuildHeightBits(arr, low, high, high - low + 1);
    BitsAreCeilLog2(high - low + 1);
  }

  /** The midpoint tree over n elements is as tall as n has binary digits:
      the right half is the taller one and has n / 2 elements. */
  lemma {:induction false} BuildHeightBits(arr: seq<int>, low: int, high: int, n: nat)
    requires 0 <= low <= high + 1 <= |arr|
    requires n == high - low + 1
    ensures Height(Build(arr, low, high)) == BitLength(n)
    decreases n
  {
    if low <= high {
      var mid := (low + high) / 2;
      var nl, nr := mid - low, high - mid;
      MidpointSizes(low, high);
      BuildHeightBits(arr, low, mid - 1, nl);
      BuildHeightBits(arr, mid + 1, high, nr);
      BitLengthMonotone(nl, nr);
      HeightFromHalves(arr, low, high, BitLength(nr));
    }
  }

  /** A non-empty range is one level above the taller of its halves. */
  lemma HeightFromHalves(arr: seq<int>, low: int, high: int, h: nat)
    requires 0 <= low <= high < |arr|
    requires Height(Build(arr, low, (low + high) / 2 - 1)) <= h
    requires Height(Build(arr, (low + high) / 2 + 1, high)) == h
    ensures Height(Build(arr, low, high)) == 1 + h
  {
    var mid := (low + high) / 2;
    BuildNode(arr, low, high);
    HeightOfNode(Build(arr, low, mid - 1), arr[mid], Build(arr, mid + 1, high));
  }

  lemma MidpointSizes(low: int, high: int)
    requires 0 <= low <= high
    ensures var mid := (low + high) / 2;
      low <= mid <= high && mid - low <= high - mid &&
      BitLength(high - low + 1) == 1 + BitLength(high - mid)
  {
  }

  lemma {:induction false} BitLengthMonotone(a: nat, b: nat)
    requires a <= b
    ensures BitLength(a) <= BitLength(b)
    decreases b
  {
    if a > 0 {
      BitLengthMonotone(a / 2, b / 2);
    }
  }

  /** ceil(log2(n + 1)) is the number of binary digits of n. */
  lemma {:induction false} BitsAreCeilLog2(n: nat)
    ensures CeilLog2(n + 1) == BitLength(n)
    decreases n
  {
    if n > 0 {
      BitsAreCeilLog2(n / 2);
      assert (n + 2) / 2 == n / 2 + 1;
    }
  }

  lemma HeightOfNode(l: Tree, v: int, r: Tree)
    requires Height(l) <= Height(r)
    ensures Height(Node(l, v, r)) == 1 + Height(r)
  {
  }

  /** The node and height statistics are exact for the drawn tree. */
  lemma StatsMatchTree(arr: seq<int>)
    ensures StatsOf(arr).nodes == Size(BuildTree(arr))
    ensures StatsOf(arr).height == Height(BuildTree(arr))
  {
    BuildSize(arr, 0, |arr| - 1);
    HeightOfBuild(arr, 0, |arr| - 1);
  }

  /** Any binary tree with n nodes has at most ceil(n / 2) leaves. */
  lemma {:induction false} LeavesAtMostHalf(t: Tree)
    ensures 2 * LeafCount(t) <= Size(t) + 1
  {
    match t
    case Nil =>
    case Node(l, _, r) =>
      LeavesAtMostHalf(l);
      LeavesAtMostHalf(r);
  }

  /** The leaf statistic is an upper bound on the leaves of the drawn tree. */
  lemma LeafStatBound(arr: seq<int>)
    ensures LeafCount(BuildTree(arr)) <= StatsOf(arr).leaves
  {
    BuildSize(arr, 0, |arr| - 1);
    LeavesAtMostHalf(BuildTree(arr));
  }

  /** ...and not always exact: five elements make a tree with two leaves,
      while the statistic says three. */
  lemma LeafStatInexact()
    ensures LeafCount(BuildTree([1, 2, 3, 4, 5])) == 2
    ensures StatsOf([1, 2, 3, 4, 5]).leaves == 3
  {
    var a := [1, 2, 3, 4, 5];
    var t := Node(Node(Nil, 1, Node(Nil, 2, Nil)), 3, Node(Nil, 4, Node(Nil, 5, Nil)));
    assert Build(a, 1, 1) == Node(Build(a, 1, 0), a[1], Build(a, 2, 1)) == Node(Nil, 2, Nil);
    assert Build(a, 0, 1) == Node(Build(a, 0, -1), a[0], Build(a, 1, 1)) == t.left;
    assert Build(a, 4, 4) == Node(Build(a, 4, 3), a[4], Build(a, 5, 4)) == Node(Nil, 5, Nil);
    assert Build(a, 3, 4) == Node(Build(a, 3, 2), a[3], Build(a, 4, 4)) == t.right;
    assert BuildTree(a) == Node(Build(a, 0, 1), a[2], Build(a, 3, 4)) == t;
    assert LeafCount(Node(Nil, 2, Nil)) == 1 && LeafCount(Node(Nil, 5, Nil)) == 1;
    assert LeafCount(t.left) == 1 && LeafCount(t.right) == 1;
  }
}
