# Binary search tree showcase: the tree engine

This project models the small binary-search-tree engine inside the
`BinaryTreeShowcase` React component (`src/App.jsx`). The component keeps an
array of integers as its ground truth (`bst`). On every render it builds a
tree from that array by recursive midpoint splitting (`buildTreeFromArray`),
and it computes node count, height and leaf count from the array length
alone (`calculateStats`). Search is an ordinary binary-search-tree descent
(`searchInTree`). The handlers replace the array wholesale:

- add: skip a value already present, otherwise append and sort ascending;
- remove: filter out every element equal to the value;
- reset: empty the array.

Three modules follow that split:

- `ValueSet` (`value_set.dfy`): the array and its updates. It holds the
  ascending sort that add uses, the add and remove updates, and runs of user
  actions.
- `BstTree` (`bst_tree.dfy`): the tree, the midpoint build, search and the
  statistics.
- `Showcase` (`showcase.dfy`): the component as a class. Its `bst`,
  `selectedNode` and `searchResult` fields are reassigned by the handlers. It
  also holds the facts about the start array and the facts about the redrawn
  tree after an update.

The start array `[50, 30, 70, 20, 40, 60, 80, 10, 25, 35, 65]` is not in
ascending order, and the code draws it as it is. Only an add of a value not
yet present sorts the array; an add of a present value and a remove leave
the order as it was. So every ordering and search property below is stated
for a strictly increasing array, or for an array after a new value was
added. The page itself says that the tree "automatically maintains BST
property" (src/App.jsx:241) and lists "Left < Parent < Right" and "In-order
traversal = sorted" among its properties (src/App.jsx:382-384). The model
follows the code, and "## Findings" records where the first tree breaks
those claims.

## Model

| member | source | states |
|---|---|---|
| `ValueSet.Seed` | src/App.jsx:6 | the start array, in the order the code lists it; `Showcase.SeedsAreThese` ties it to the element-wise description used by the start-array lemmas |
| `ValueSet.Sort` | src/App.jsx:53 | the result of `sort((a, b) => a - b)` is ascending and holds the same multiset of values as the input |
| `ValueSet.SortedPermutationUnique` | src/App.jsx:53 | two ascending sequences with the same multiset of values are equal, so any correct ascending sort returns exactly what `Sort` returns |
| `ValueSet.SortAscendingIsIdentity` | src/App.jsx:53 | sorting an array that is already ascending leaves it unchanged |
| `ValueSet.Insert` | src/App.jsx:52-53 | after an add the value is present; a value already present leaves the array unchanged; otherwise the result is ascending and holds the old values plus exactly one copy of `v` |
| `ValueSet.InsertIdempotent` | src/App.jsx:52 | adding the same value twice gives the same array as adding it once |
| `ValueSet.InsertNewValue` | src/App.jsx:52-53 | adding an absent value grows the array by one, and the members afterwards are exactly the old members and `v` |
| `ValueSet.InsertNewIsStrict` | src/App.jsx:52-53 | adding an absent value to a duplicate-free array, sorted or not, yields a strictly increasing array |
| `ValueSet.InsertKeepsStrict` | src/App.jsx:52-53 | add keeps a strictly increasing array strictly increasing |
| `ValueSet.InsertKeepsDistinct` | src/App.jsx:52-53 | add keeps an array free of duplicates |
| `ValueSet.InsertIsSortedUnion` | src/App.jsx:52-53 | on any array that does not hold `v`, sorted or not, adding `v` gives the one ascending array with the old values plus `v` |
| `ValueSet.Delete` | src/App.jsx:62 | after the filter `v` is absent and every other value keeps its multiplicity |
| `ValueSet.DeleteAppend` | src/App.jsx:62 | filtering a concatenation is the concatenation of the filtered parts, so the survivors keep their relative order |
| `ValueSet.DeleteAbsent` | src/App.jsx:62 | removing an absent value leaves the array unchanged |
| `ValueSet.DeleteKeepsOthers` | src/App.jsx:62 | after removing `v`, a value is present exactly when it was present before and differs from `v` |
| `ValueSet.DeleteKeepsStrict` | src/App.jsx:62 | remove keeps a strictly increasing array strictly increasing |
| `ValueSet.DeleteKeepsDistinct` | src/App.jsx:62 | remove keeps an array free of duplicates |
| `ValueSet.Apply` | src/App.jsx:49-66 | one user action: an add is `Insert`, a remove is `Delete`, a reset (src/App.jsx:348-352) is the empty array |
| `ValueSet.ApplyAll` | src/App.jsx:49-66 | a run of user actions, applied left to right |
| `ValueSet.ActionsKeepStrict` | src/App.jsx:49-66 | from a strictly increasing array, any run of adds, removes and resets (the reset button is at src/App.jsx:348-352) leaves the array strictly increasing |
| `ValueSet.ActionsKeepDistinct` | src/App.jsx:49-66 | from a duplicate-free array such as the start array, any run of adds, removes and resets (the reset button is at src/App.jsx:348-352) leaves it duplicate-free |
| `ValueSet.ActionsAfterNewAddAreStrict` | src/App.jsx:49-66 | once a new value has been added to a duplicate-free array, the array is strictly increasing after any later run of adds, removes and resets (src/App.jsx:348-352) |
| `BstTree.Build` | src/App.jsx:12-20 | the midpoint build over `arr[low]` through `arr[high]`; its size, shape, in-order traversal and height are stated by `BuildSize`, `BuildShape`, `InOrderBuild` and `HeightOfBuild` |
| `BstTree.BuildTree` | src/App.jsx:12 | the build with the default arguments `low = 0` and `high = arr.length - 1` |
| `BstTree.BuildSize` | src/App.jsx:12-20 | the build over `[low, high]` is empty exactly when `low > high`, and it has `high - low + 1` nodes |
| `BstTree.BuildShape` | src/App.jsx:14-18 | a non-empty range is rooted at `arr[floor((low + high) / 2)]`, with `floor((n - 1) / 2)` nodes on the left and `ceil((n - 1) / 2)` on the right |
| `BstTree.InOrderBuild` | src/App.jsx:12-20 | the in-order traversal of the build over `[low, high]` is `arr[low..high + 1]`, that is `arr[low]` through `arr[high]` |
| `BstTree.InOrderBuildTree` | src/App.jsx:12-20 | for any array, sorted or not, the in-order traversal of the drawn tree is the array, and the node count is its length |
| `BstTree.IsBst` | src/App.jsx:382-384 | Left < Parent < Right at every node, stated on the sets of values below each node |
| `BstTree.BstIffInOrderStrict` | src/App.jsx:382-384 | a tree has Left < Parent < Right at every node exactly when its in-order traversal is strictly increasing |
| `BstTree.BuildTreeIsBstIff` | src/App.jsx:12-20 | the drawn tree is a binary search tree exactly when the array is strictly increasing |
| `BstTree.Search` | src/App.jsx:34-39 | the descent: empty gives false, a match gives true, a smaller value goes left and any other goes right; its meaning is stated by the three lemmas below |
| `BstTree.SearchSound` | src/App.jsx:34-39 | search never reports a value the tree does not hold, whatever the tree's shape |
| `BstTree.SearchComplete` | src/App.jsx:34-39 | on a binary search tree, search finds every value the tree holds |
| `BstTree.SearchBuildTree` | src/App.jsx:34-39 | on the tree drawn from a strictly increasing array, search returns true exactly when the value is in the array |
| `BstTree.VisitsWithinHeight` | src/App.jsx:34-39 | the descent looks at no more nodes than the tree's height, one per level |
| `BstTree.CeilLog2` | src/App.jsx:24 | the height formula `ceil(log2(m))` in integers: `m <= 2^h`, and `2^(h-1) < m` when `h > 0` |
| `BstTree.CeilLog2Least` | src/App.jsx:24 | no exponent smaller than `CeilLog2(m)` reaches `m` |
| `BstTree.StatsOf` | src/App.jsx:22-29 | nodes is the array length; height is 0 on an empty array and otherwise the least `h` with `n + 1 <= 2^h`; leaves is `ceil(n / 2)` (zero when empty) |
| `BstTree.BitsAreCeilLog2` | src/App.jsx:24 | `ceil(log2(n + 1))` equals the number of binary digits of `n` |
| `BstTree.BuildHeightBits` | src/App.jsx:12-20 | the midpoint build over `n` elements is exactly as tall as `n` has binary digits |
| `BstTree.HeightOfBuild` | src/App.jsx:12-24 | the midpoint build over `n` elements has height exactly `ceil(log2(n + 1))` |
| `BstTree.StatsMatchTree` | src/App.jsx:22-29 | the node and height statistics equal the node count and height of the drawn tree |
| `BstTree.LeavesAtMostHalf` | src/App.jsx:25 | any binary tree with `n` nodes has at most `ceil(n / 2)` leaves |
| `BstTree.LeafStatBound` | src/App.jsx:25 | the leaf statistic is an upper bound on the leaves of the drawn tree |
| `BstTree.LeafStatInexact` | src/App.jsx:25 | the bound is not always exact: five elements give a tree with two leaves, and the statistic says three |
| `Showcase.SeedDistinct` | src/App.jsx:6 | the start array holds no value twice |
| `Showcase.SeedNotBst` | src/App.jsx:6 | the start array is not strictly increasing, and the tree drawn from it is not a binary search tree |
| `Showcase.SearchDescendsLeft` | src/App.jsx:37 | a value below the midpoint element of a range is looked up in the left half only |
| `Showcase.SeedSearchMisses` | src/App.jsx:6 | 35 is in the start array, but search on the tree drawn from it returns false |
| `Showcase.SortedSeedSameValues` | src/App.jsx:6 | the ascending start array is strictly increasing and holds exactly the values of the original |
| `Showcase.SortedSeedSearch` | src/App.jsx:6 | sorting the start array gives the ascending start array, and search on its tree finds exactly the start values |
| `Showcase.SearchAfterInsert` | src/App.jsx:49-59 | after an add to a strictly increasing array, or of a new value to any duplicate-free array, search on the redrawn tree finds exactly the old values and `v` |
| `Showcase.DeletedNotFound` | src/App.jsx:61-66 | after a remove, search never finds the removed value, whatever the array's order |
| `Showcase.SearchAfterDelete` | src/App.jsx:61-66 | after a remove from a strictly increasing array, search finds exactly the old values other than `v` |
| `Showcase.BinaryTreeShowcase.constructor` | src/App.jsx:5-10 | the component starts with the unsorted start array, no selection and no search result, and the array is duplicate-free |
| `Showcase.BinaryTreeShowcase.Sorted` | src/App.jsx:6 | corrected start: the ascending start array, strictly increasing from the first draw |
| `Showcase.BinaryTreeShowcase.TreeData` | src/App.jsx:68 | the drawn tree reads back the value set in order and has one node per value |
| `Showcase.BinaryTreeShowcase.CurrentStats` | src/App.jsx:69 | the displayed node count and height are those of the drawn tree, and the displayed leaf count bounds its real leaves |
| `Showcase.BinaryTreeShowcase.HandleSearch` | src/App.jsx:41-47 | records the looked-up value and the search answer; on a strictly increasing array the answer is membership |
| `Showcase.BinaryTreeShowcase.AddToBst` | src/App.jsx:49-59 | the new array is the insert of `v`; a present value changes nothing; a new value makes the array strictly increasing and one longer; a strictly increasing array stays so; when the old array was strictly increasing or `v` is new, search afterwards finds exactly the old values and `v` (on the unsorted start array, adding the present 35 leaves it unfindable) |
| `Showcase.BinaryTreeShowcase.RemoveFromBst` | src/App.jsx:61-66 | the new array is the filter of `v`; the selection is cleared; `v` is not found afterwards, whatever the order; when the old array was strictly increasing, it stays so and search finds exactly the other old values |
| `Showcase.BinaryTreeShowcase.ToggleSelection` | src/App.jsx:122 | clicking the selected node deselects it; clicking any other node selects it |
| `Showcase.BinaryTreeShowcase.DeleteSelected` | src/App.jsx:309-317 | with a node selected, the delete button removes its value and clears the selection |
| `Showcase.BinaryTreeShowcase.Reset` | src/App.jsx:348-352 | the array, the selection and the search result are cleared; the tree is empty and all statistics are zero |

## Findings

| source | as written | input that shows it | evidently intended | confidence | as-written member | corrected member |
|---|---|---|---|---|---|---|
| src/App.jsx:6 | the start array is in insertion order, and the tree is drawn from it directly | the start array itself: the root is 60, its left child is 70, and 70's left child is 50; searching 35 goes 60, 70, 50 and returns "not found" although 35 is drawn | the start array in ascending order, so that the first tree obeys Left < Parent < Right, which the page advertises at src/App.jsx:382-384 | high (not executed) | `Showcase.SeedSearchMisses` | `Showcase.BinaryTreeShowcase.Sorted` |

## Left out

- The `balanced` flag (src/App.jsx:30): it compares fractional parts of a floating-point `Math.log2` result.
- The `depth` field of the empty statistics (src/App.jsx:23): it is the constant 0 and is never displayed.
- `BstTree.CeilLog2`: computes `ceil(log2(m))` exactly in integers, so floating-point rounding of `Math.log2` is not modelled.
- Text input handling: `trim` and `parseInt` (src/App.jsx:42, 50-51), the `isNaN` guard of the search (src/App.jsx:43), and clearing the input box (src/App.jsx:57). The handlers take an `int`.
- The add path has no `isNaN` guard (src/App.jsx:50-52). Text that `parseInt` cannot read, such as ".5", yields NaN; `includes` does not find it, so NaN is appended, the comparator `a - b` returns NaN for it, and `filter(v => v !== val)` at src/App.jsx:62 can never remove it. The model's handlers take an `int`, so a NaN entering the array, and never leaving it, is not modelled.
- The `stats` state (src/App.jsx:10, 55, 64). It is written but never read, since the page shows `calculateStats(bst)` instead.
- All rendering, such as the `TreeNode` component, SVG layout with floating-point offsets, icons and styling (src/App.jsx:71-391), apart from the click and button handlers modelled above.
- JavaScript numbers are doubles. The model uses unbounded integers, so values beyond 2^53 are not modelled.
- `Showcase.BinaryTreeShowcase.Sorted`: does not state in its own contract that the tree is a binary search tree. That follows from strict increase by `BstTree.BuildTreeIsBstIff`, and `Showcase.SortedSeedSearch` states it for search.
