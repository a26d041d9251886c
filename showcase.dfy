/** The interactive component: it owns the value set and the selection, and
    its handlers replace the value set wholesale (add-and-sort, filter,
    reset). The tree and the statistics are recomputed from the value set on
    every read. */
module Showcase {
  import opened ValueSet
  import opened BstTree

  datatype Option<T> = None | Some(value: T)

  /** What the search panel shows: the value looked up and whether it was
      found. */
  datatype SearchOutcome = SearchOutcome(value: int, found: bool)

  // ---------------------------------------------------------------------
  // The start array
  // ---------------------------------------------------------------------

  /** `s` is the start array, element by element. The lemmas about the
      start array take any `s` with `IsSeed(s)` rather than `Seed()` itself:
      on a constant sequence the verifier unfolds `BuildTree`, `Search` and
      `Sort` eagerly and the proofs become too costly. `SeedsAreThese`
      links the two forms, so each lemma applies to `Seed()`. */
  predicate IsSeed(s: seq<int>) {
    |s| == 11 &&
    s[0] == 50 && s[1] == 30 && s[2] == 70 && s[3] == 20 && s[4] == 40 &&
    s[5] == 60 && s[6] == 80 && s[7] == 10 && s[8] == 25 && s[9] == 35 &&
    s[10] == 65
  }

  /** The start array in ascending order, as the component evidently means
      it to be: the same eleven values. */
  function SortedSeed(): seq<int> {
    [10, 20, 25, 30, 35, 40, 50, 60, 65, 70, 80]
  }

  predicate IsSortedSeed(t: seq<int>) {
    |t| == 11 &&
    t[0] == 10 && t[1] == 20 && t[2] == 25 && t[3] == 30 && t[4] == 35 &&
    t[5] == 40 && t[6] == 50 && t[7] == 60 && t[8] == 65 && t[9] == 70 &&
    t[10] == 80
  }

  lemma SeedsAreThese()
    ensures IsSeed(Seed()) && IsSortedSeed(SortedSeed())
  {
  }

  /** The start array holds no value twice. */
  lemma SeedDistinct(s: seq<int>)
    requires IsSeed(s)
    ensures Distinct(s)
  {
  }

  /** The start array is not in ascending order, so by BuildTreeIsBstIff
      the tree drawn from it breaks Left < Parent < Right. */
  lemma SeedNotBst(s: seq<int>)
    requires IsSeed(s)
    ensures !StrictlyIncreasing(s) && !IsBst(BuildTree(s))
  {
    assert s[0] > s[1];
    BuildTreeIsBstIff(s);
  }

  /** Hence search misses values that are drawn: 35 is in the array, but
      the descent goes 60, 70, 50 and falls off at an empty left child. */
  lemma SeedSearchMisses(s: seq<int>)
    requires IsSeed(s)
    ensures 35 in s
    ensures !Search(BuildTree(s), 35)
  {
    assert s[9] == 35;
    SearchDescendsLeft(s, 0, 10, 35);
    SearchDescendsLeft(s, 0, 4, 35);
    SearchDescendsLeft(s, 0, 1, 35);
  }

  /** One step of the descent over a range: a value below the midpoint
      element is looked up in the left half only. */
  lemma SearchDescendsLeft(arr: seq<int>, low: int, high: int, x: int)
    requires 0 <= low <= high < |arr|
    requires x < arr[(low + high) / 2]
    ensures Search(Build(arr, low, high), x) == Search(Build(arr, low, (low + high) / 2 - 1), x)
  {
  }

  /** The ordered start array holds the same values as the original, is
      what sorting the original gives, and searching its tree answers
      membership for every value. */
  lemma SortedSeedSearch(s: seq<int>, t: seq<int>)
    requires IsSeed(s) && IsSortedSeed(t)
    ensures StrictlyIncreasing(t)
    ensures forall x :: x in t <==> x in s
    ensures Sort(s) == t
    ensures forall x :: Search(BuildTree(t), x) <==> x in s
  {
    SeedDistinct(s);
    SortedSeedSameValues(s, t);
    SortOfSameMembers(s, t);
    forall x ensures Search(BuildTree(t), x) <==> x in s {
      SearchBuildTree(t, x);
    }
  }

  lemma SortedSeedSameValues(s: seq<int>, t: seq<int>)
    requires IsSeed(s) && IsSortedSeed(t)
    ensures StrictlyIncreasing(t)
    ensures forall x :: x in t <==> x in s
  {
  }

  // ---------------------------------------------------------------------
  // The drawn tree after an update
  // ---------------------------------------------------------------------

  /** After an insert into a strictly increasing set, or of a new value into
      any duplicate-free set, searching the redrawn tree finds exactly the old
      values and the new one. */
  lemma SearchAfterInsert(s: seq<int>, v: int, x: int)
    requires StrictlyIncreasing(s) || (Distinct(s) && v !in s)
    ensures Search(BuildTree(Insert(s, v)), x) <==> x in s || x == v
  {
    if v in s {
      SearchBuildTree(s, x);
    } else {
      InsertNewIsStrict(s, v) by {
        if StrictlyIncreasing(s) {
          StrictIsDistinct(s);
        }
      }
      InsertNewValue(s, v);
      SearchBuildTree(Insert(s, v), x);
    }
  }

  /** A deleted value is never found in the redrawn tree, whatever the order
      of the array. */
  lemma DeletedNotFound(s: seq<int>, v: int)
    ensures !Search(BuildTree(Delete(s, v)), v)
  {
    var t := BuildTree(Delete(s, v));
    SearchSound(t, v);
    InOrderBuildTree(Delete(s, v));
    ValuesInOrder(t);
  }

  /** After a delete from a strictly increasing set, every other value is
      still found and nothing else is. */
  lemma SearchAfterDelete(s: seq<int>, v: int, x: int)
    requires StrictlyIncreasing(s)
    ensures Search(BuildTree(Delete(s, v)), x) <==> x in s && x != v
  {
    DeleteKeepsStrict(s, v);
    DeleteKeepsOthers(s, v);
    SearchBuildTree(Delete(s, v), x);
  }

  // ---------------------------------------------------------------------
  // The component state
  // ---------------------------------------------------------------------

  class BinaryTreeShowcase {
    /** The value set: the ground truth the tree is drawn from. */
    var bst: seq<int>
    /** The value of the node the user clicked, if any. */
    var selectedNode: Option<int>
    var searchResult: Option<SearchOutcome>

    /** The value set never holds a value twice. */
    ghost predicate Valid()
      reads this
    {
      Distinct(bst)
    }

    /** The component as it starts, with the unsorted start array
        (SeedNotBst: its tree is not a search tree). */
    constructor ()
      ensures Valid()
      ensures bst == Seed() && selectedNode == None && searchResult == None
    {
      bst := Seed();
      selectedNode := None;
      searchResult := None;
    }

    /** The component started from the ordered start array: the value set
        is strictly increasing from the first draw, so (BuildTreeIsBstIff)
        its tree is a search tree. */
    constructor Sorted()
      ensures Valid() && StrictlyIncreasing(bst)
      ensures bst == SortedSeed() && selectedNode == None && searchResult == None
    {
      var t := SortedSeed();
      assert StrictlyIncreasing(t);
      StrictIsDistinct(t);
      bst := t;
      selectedNode := None;
      searchResult := None;
    }

    /** The tree drawn for the current value set. */
    function TreeData(): (t: Tree)
      reads this
      ensures InOrder(t) == bst && Size(t) == |bst|
    {
      InOrderBuildTree(bst);
      BuildTree(bst)
    }

    /** The statistics shown for the current value set. */
    function CurrentStats(): (r: Stats)
      reads this
      ensures r.nodes == Size(TreeData()) && r.height == Height(TreeData())
      ensures LeafCount(TreeData()) <= r.leaves
    {
      StatsMatchTree(bst);
      LeafStatBound(bst);
      StatsOf(bst)
    }

    /** Looks `v` up in the drawn tree and records the answer. */
    method HandleSearch(v: int)
      modifies this`searchResult
      ensures searchResult == Some(SearchOutcome(v, Search(TreeData(), v)))
      ensures StrictlyIncreasing(bst) ==> (searchResult.value.found <==> v in bst)
    {
      var found := Search(TreeData(), v);
      searchResult := Some(SearchOutcome(v, found));
      if StrictlyIncreasing(bst) {
        SearchBuildTree(bst, v);
      }
    }

    /** Adds `v` unless it is already present, keeping the array ascending. */
    method AddToBst(v: int)
      requires Valid()
      modifies this`bst
      ensures Valid()
      ensures bst == Insert(old(bst), v)
      ensures v in old(bst) ==> bst == old(bst)
      ensures v !in old(bst) ==> StrictlyIncreasing(bst) && |bst| == |old(bst)| + 1
      ensures old(StrictlyIncreasing(bst)) ==> StrictlyIncreasing(bst)
      ensures old(StrictlyIncreasing(bst)) || v !in old(bst) ==>
        forall x :: Search(TreeData(), x) <==> x in old(bst) || x == v
    {
      var s := bst;
      if v !in s {
        InsertNewIsStrict(s, v);
        InsertNewValue(s, v);
        StrictIsDistinct(Insert(s, v));
      }
      if StrictlyIncreasing(s) {
        InsertKeepsStrict(s, v);
      }
      if StrictlyIncreasing(s) || v !in s {
        forall x ensures Search(BuildTree(Insert(s, v)), x) <==> x in s || x == v {
          SearchAfterInsert(s, v, x);
        }
      }
      bst := Insert(s, v);
    }

    /** Removes every occurrence of `v` and clears the selection. */
    method RemoveFromBst(v: int)
      requires Valid()
      modifies this`bst, this`selectedNode
      ensures Valid()
      ensures bst == Delete(old(bst), v) && selectedNode == None
      ensures !Search(TreeData(), v)
      ensures old(StrictlyIncreasing(bst)) ==> StrictlyIncreasing(bst)
      ensures old(StrictlyIncreasing(bst)) ==>
        forall x :: Search(TreeData(), x) <==> x in old(bst) && x != v
    {
      var s := bst;
      DeleteKeepsDistinct(s, v);
      DeletedNotFound(s, v);
      if StrictlyIncreasing(s) {
        DeleteKeepsStrict(s, v);
        forall x ensures Search(BuildTree(Delete(s, v)), x) <==> x in s && x != v {
          SearchAfterDelete(s, v, x);
        }
      }
      bst := Delete(s, v);
      selectedNode := None;
    }

    /** Clicking a node selects it, or deselects it if it was selected. */
    method ToggleSelection(v: int)
      modifies this`selectedNode
      ensures selectedNode == if old(selectedNode) == Some(v) then None else Some(v)
    {
      selectedNode := if selectedNode == Some(v) then None else Some(v);
    }

    /** The delete button, shown only while a node is selected. */
    method DeleteSelected()
      requires Valid() && selectedNode.Some?
      modifies this`bst, this`selectedNode
      ensures Valid()
      ensures bst == Delete(old(bst), old(selectedNode).value) && selectedNode == None
      ensures !Search(TreeData(), old(selectedNode).value)
    {
      RemoveFromBst(selectedNode.value);
    }

    /** The reset button empties the value set and clears selection and
        search result. */
    method Reset()
      modifies this
      ensures Valid() && StrictlyIncreasing(bst)
      ensures bst == [] && selectedNode == None && searchResult == None
      ensures TreeData() == Nil && CurrentStats() == Stats(0, 0, 0)
    {
      bst := [];
      selectedNode := None;
      searchResult := None;
    }
  }
}
