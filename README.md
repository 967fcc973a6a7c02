# MuscleCode backend: a verified model of its decision logic and algorithm catalogue

MuscleCode's main backend service is a NestJS learning platform. Learners work through content
nodes: modules, lessons and exercises. Access to a node comes from explicit permissions and from
permission groups. New users go through an onboarding quiz. Chat messages are built from typed
content elements. The service also seeds a catalogue of classic algorithms, each with reference
solutions in several languages, lessons and tests.

This project models, in Dafny, two parts of that service:

- **The backend decision logic.**
  - Permission levels and their ranking. Selecting the nearest, strongest permission through a
    node's ancestors. Grant, revoke and update (`Permission`).
  - Guards on who may see, change or delete a group and its members (`Group`).
  - Onboarding quiz scoring and the recommendations drawn from it (`Onboarding`).
  - Looking up an item in a lesson body, logging lesson interactions, editing a node and
    replacing a module's lessons (`Content`, `LessonInteraction`, with JSON values in `Json`).
  - The slug, file-extension and fallback-file helpers of the algorithm generator
    (`AlgorithmGeneration`).
  - Classifying files and ordering lessons in the catalogue's seed loader (`AlgorithmLoader`).
  - Displaying user names from the identity provider's database (`Keycloak`).
  - Dispatching a chat content element on its type tag (`ContentElements`).
- **The reference solutions of the algorithm catalogue.**
  - The sorts and iterative binary search stored as text in the seed (`SeedSorts`), and its
    `Graph` class (`SeedGraph`).
  - Recursive binary search (`BinarySearch`).
  - Search trees: an unbalanced binary search tree, an AVL tree and a red-black tree
    (`BinaryTreeSearch`, `Avl`, `RedBlack`), plus tree traversals and tree comparison
    (`TreeTraversal`, `TreeCompare`).
  - A trie (`Trie`).
  - Hash maps with open addressing and with separate chaining (`OpenAddressing`,
    `SeparateChaining`).
  - Min-heap and max-heap (`MinHeap`, `MaxHeap`, `HeapShape`).
  - A doubly linked list and a bounded queue (`DoublyLinkedList`, `LinkedQueue`).
  - Graph algorithms: BFS, cycle detection, Dijkstra, articulation points and Hamiltonian cycles
    (`GraphListBfs`, `CycleDetection`, `Dijkstra`, `ArticulationPoints`, `HamiltonianCycle`,
    over `Digraph`).
  - Huffman coding and grid A* (`Huffman`, `AStar`, `AStarExamples`).

Each source file is one module. How a module is modelled follows its source:

- Code that mutates state becomes a method with loop invariants, or a class whose fields the
  methods update.
- Pure logic becomes functions.
- Each operation is proved against a specification: a postcondition, plus lemmas about the
  specification functions it is tied to.
- The fixtures of the catalogue's own tests are stated as lemmas about the model.
- Prisma repositories become in-memory maps.
- Database I/O, permission answers that come from other services, fresh identifiers and clocks
  become parameters.

## Model

| member | source | states |
|---|---|---|
| BinarySearch.Mid | src/modules/algorithm/seed/algorithms/binary-search/typescript/recursive-solution.ts:44 | the overflow-safe midpoint lies inside [left, right] |
| BinarySearch.Helper | src/modules/algorithm/seed/algorithms/binary-search/typescript/recursive-solution.ts:34-55 | a result other than -1 is an index in [left, right] holding target; on a sorted array -1 is returned exactly when target does not occur in the range |
| BinarySearch.Search | src/modules/algorithm/seed/algorithms/binary-search/typescript/recursive-solution.ts:25-27 | a found index holds target; on a sorted array the result is -1 exactly when target is absent |
| BinarySearch.FoundAt | src/modules/algorithm/seed/algorithms/binary-search/typescript/recursive-solution.ts:4-6 | on a strictly increasing array the index found is the one index holding target |
| BinarySearch.NotFound | src/modules/algorithm/seed/algorithms/binary-search/typescript/recursive-solution.ts:40-42 | on a sorted array without target the search gives -1 |
| BinarySearch.SixElementFound | src/modules/algorithm/seed/algorithms/binary-search/typescript/test.ts:5-15 | [-1,0,2,4,6,8] gives 3 for 4, 0 for -1 and 5 for 8 |
| BinarySearch.SixElementMissing | src/modules/algorithm/seed/algorithms/binary-search/typescript/test.ts:17-19 | [-1,0,2,4,6,8] gives -1 for 3 |
| BinarySearch.EdgeFixtures | src/modules/algorithm/seed/algorithms/binary-search/typescript/test.ts:23-41 | the empty array gives -1; [1] finds 1 at 0 and not 2; [1,2] finds 1 at 0 and 2 at 1 |
| SeedSorts.SortedPermutationUnique | src/modules/algorithm/seed/algorithms.seed.ts:68 | two sorted permutations of one multiset are equal, so a sorted permutation determines the fixture result |
| SeedSorts.BubbleSort | src/modules/algorithm/seed/algorithms.seed.ts:58 | the array ends sorted ascending and is a permutation of the input |
| SeedSorts.Swap | src/modules/algorithm/seed/algorithms.seed.ts:58 | the destructuring swap exchanges the two cells, leaves every other cell and keeps the multiset |
| SeedSorts.BubblePass | src/modules/algorithm/seed/algorithms.seed.ts:58 | after one inner pass over arr[0..m) the suffix from m - 1 is sorted and no smaller than the prefix; the multiset is kept |
| SeedSorts.SelectionSort | src/modules/algorithm/seed/algorithms.seed.ts:143 | the array ends sorted ascending and is a permutation of the input |
| SeedSorts.MinIndexFrom | src/modules/algorithm/seed/algorithms.seed.ts:143 | the inner loop finds the first index of a minimum of arr[i..] |
| SeedSorts.InsertionSort | src/modules/algorithm/seed/algorithms.seed.ts:230 | the array ends sorted ascending and is a permutation of the input |
| SeedSorts.InsertAt | src/modules/algorithm/seed/algorithms.seed.ts:230 | one outer step extends the sorted prefix arr[0..i] and keeps the multiset |
| SeedSorts.ShiftUp | src/modules/algorithm/seed/algorithms.seed.ts:230 | the while loop moves up by one exactly the prefix elements greater than key, stopping at the first not greater |
| SeedSorts.ShiftPermutes | src/modules/algorithm/seed/algorithms.seed.ts:230 | moving key down past the shifted block keeps the multiset |
| SeedSorts.ShiftSorted | src/modules/algorithm/seed/algorithms.seed.ts:230 | placing key after the last element not above it keeps the prefix sorted |
| SeedSorts.Placed | src/modules/algorithm/seed/algorithms.seed.ts:230 | writing key into the gap the shift leaves gives a permutation of the input sorted up to i |
| SeedSorts.Merge | src/modules/algorithm/seed/algorithms.seed.ts:318 | merge returns a permutation of left + right, sorted when both inputs are |
| SeedSorts.MergeHeads | src/modules/algorithm/seed/algorithms.seed.ts:318 | the while loop stops when one side is used up, having taken heads in order |
| SeedSorts.MergeSort | src/modules/algorithm/seed/algorithms.seed.ts:318 | mergeSort returns a sorted permutation of its input |
| SeedSorts.BinarySearch | src/modules/algorithm/seed/algorithms.seed.ts:408-425 | a result other than -1 is an index holding target; on a sorted array -1 is returned exactly when target is absent |
| SeedSorts.DistinctSameElements | src/modules/algorithm/seed/algorithms.seed.ts:68 | two duplicate-free sequences with the same elements are permutations of each other |
| SeedSorts.SortedOutcome | src/modules/algorithm/seed/algorithms.seed.ts:68 | a sorted permutation of a duplicate-free input equals its sorted listing |
| SeedSorts.BubbleSortFixture | src/modules/algorithm/seed/algorithms.seed.ts:68 | bubbleSort([64,34,25,12,22,11,90]) is [11,12,22,25,34,64,90] |
| SeedSorts.SelectionSortFixture | src/modules/algorithm/seed/algorithms.seed.ts:153 | selectionSort([64,25,12,22,11]) is [11,12,22,25,64] |
| SeedSorts.InsertionSortFixture | src/modules/algorithm/seed/algorithms.seed.ts:240 | insertionSort([5,2,4,6,1,3]) is [1,2,3,4,5,6] |
| SeedSorts.MergeSortFixture | src/modules/algorithm/seed/algorithms.seed.ts:328 | mergeSort([38,27,43,3,9,82,10]) is [3,9,10,27,38,43,82] |
| SeedSorts.BinarySearchFixtures | src/modules/algorithm/seed/algorithms.seed.ts:440-441 | [1,3,4,6,8,9,11] finds 6 at index 3 and reports -1 for 5 |
| SeedGraph.WithEdge | src/modules/algorithm/seed/algorithms.seed.ts:623 | addEdge pushes onto existing lists only, so the set of listed vertices never changes |
| SeedGraph.WithEdgeSymmetric | src/modules/algorithm/seed/algorithms.seed.ts:623 | an edge between two listed vertices, or two unlisted ones, keeps every edge paired with its reverse |
| SeedGraph.WithEdgeOneSided | src/modules/algorithm/seed/algorithms.seed.ts:623 | an edge with only one listed end is recorded one way only, breaking the symmetry |
| SeedGraph.WithEdgeBetween | src/modules/algorithm/seed/algorithms.seed.ts:623 | an edge between two distinct listed vertices appends each end to the other's list |
| SeedGraph.DfsHelper | src/modules/algorithm/seed/algorithms.seed.ts:623 | dfsHelper records vertex first, keeps the earlier record, adds only reachable vertices, and leaves every finished vertex with all successors visited |
| SeedGraph.DfsFrom | src/modules/algorithm/seed/algorithms.seed.ts:623 | dfs lists start first, no vertex twice, and exactly the vertices reachable from start |
| SeedGraph.Graph.constructor | src/modules/algorithm/seed/algorithms.seed.ts:623 | a new graph has no lists |
| SeedGraph.Graph.AddVertex | src/modules/algorithm/seed/algorithms.seed.ts:623 | addVertex adds an empty list for a new vertex and changes nothing for a listed one |
| SeedGraph.Graph.AddEdge | src/modules/algorithm/seed/algorithms.seed.ts:623 | addEdge updates the lists as WithEdge does |
| SeedGraph.Graph.Dfs | src/modules/algorithm/seed/algorithms.seed.ts:623 | dfs lists start first, no vertex twice, and exactly the reachable vertices |
| SeedGraph.Graph.Bfs | src/modules/algorithm/seed/algorithms.seed.ts:710 | bfs lists start first, no vertex twice, exactly the reachable vertices, and a vertex within d steps never after one farther away |
| SeedGraph.BuildFixture | src/modules/algorithm/seed/algorithms.seed.ts:633 | the six addVertex and five addEdge calls of the test give the lists 0-1, 0-2, 1-3, 2-4, 2-5 both ways |
| SeedGraph.FixtureReachable | src/modules/algorithm/seed/algorithms.seed.ts:633 | in the fixture graph exactly the vertices 0..5 are reachable from 0 |
| SeedGraph.TraversalFixture | src/modules/algorithm/seed/algorithms.seed.ts:720 | dfs(0) and bfs(0) on the fixture both list 0 first and then each of 1..5 once |
| Digraph.ClosedHoldsWalk | src/modules/algorithm/seed/algorithms.seed.ts:623 | a set closed under successors that holds start holds every reachable vertex |
| Digraph.NoDupBound | src/modules/algorithm/seed/algorithms.seed.ts:623 | a duplicate-free listing drawn from a set is no longer than the set |
| GraphListBfs.Bfs | src/modules/algorithm/seed/algorithms/graph-list-bfs/languages/typescript/iterative-solution.ts:24-58 | start comes first, no vertex twice, exactly the vertices reachable from start (a missing list counts as empty), and a vertex within d steps never after one farther away |
| GraphListBfs.ExpandVertex | src/modules/algorithm/seed/algorithms/graph-list-bfs/languages/typescript/iterative-solution.ts:44-54 | the neighbour loop enqueues and marks each unvisited successor in list order, keeping the search invariant |
| GraphListBfs.VisitNeighbor | src/modules/algorithm/seed/algorithms/graph-list-bfs/languages/typescript/iterative-solution.ts:49-53 | a visited neighbour is skipped; an unvisited one is appended to the queue and marked visited |
| GraphListBfs.BfsInit | src/modules/algorithm/seed/algorithms/graph-list-bfs/languages/typescript/iterative-solution.ts:32-33 | the initial queue [start] with start visited satisfies the search invariant |
| GraphListBfs.BfsDequeue | src/modules/algorithm/seed/algorithms/graph-list-bfs/languages/typescript/iterative-solution.ts:38-41 | moving the queue head to the result keeps the invariant |
| GraphListBfs.BfsDiscover | src/modules/algorithm/seed/algorithms/graph-list-bfs/languages/typescript/iterative-solution.ts:51-52 | an enqueued neighbour sits one level below the vertex that found it, keeping the invariant |
| GraphListBfs.BfsComplete | src/modules/algorithm/seed/algorithms/graph-list-bfs/languages/typescript/iterative-solution.ts:36-55 | once every listed vertex is expanded, every walk from start ends at a listed vertex no farther than the walk |
| GraphListBfs.BfsConclusion | src/modules/algorithm/seed/algorithms/graph-list-bfs/languages/typescript/iterative-solution.ts:57 | the final state gives start first, no duplicates, exactly the reachable set and level order |
| GraphListBfs.VisitedBound | src/modules/algorithm/seed/algorithms/graph-list-bfs/languages/typescript/iterative-solution.ts:36 | the visited set never outgrows the graph's vertices plus start, so the loop ends |
| GraphListBfs.SingleVertexFixture | src/modules/algorithm/seed/algorithms/graph-list-bfs/javascript/test.js:30-35 | bfs({A: []}, A) is [A] |
| GraphListBfs.DisconnectedFixture | src/modules/algorithm/seed/algorithms/graph-list-bfs/javascript/test.js:37-45 | on the disconnected graph bfs from A is [A, B] |
| BinaryTree.ElemsSize | src/modules/algorithm/seed/algorithms/binary-tree-traversal/go/iterative-solution.go:4-22 | the number of values a tree holds is its number of nodes |
| BinaryTree.InOrderElems | src/modules/algorithm/seed/algorithms/binary-tree-traversal/go/iterative-solution.go:4-22 | the in-order listing holds exactly the tree's values, with multiplicity |
| BinaryTree.BstOrdered | src/modules/algorithm/seed/algorithms/binary-tree-search/languages/typescript/iterative-solution.ts:32-36 | the insertion order (smaller left, not smaller right) implies the non-strict order |
| BinaryTree.ContainsElems | src/modules/algorithm/seed/algorithms/binary-tree-search/languages/typescript/iterative-solution.ts:6-18 | a node holds k exactly when k is among the tree's values |
| BinaryTree.OrderedSorted | src/modules/algorithm/seed/algorithms/binary-tree-search/languages/typescript/iterative-solution.ts:23-46 | the non-strict order holds exactly when the in-order listing is sorted |
| BinaryTreeSearch.SearchStep | src/modules/algorithm/seed/algorithms/binary-tree-search/languages/typescript/iterative-solution.ts:11-15 | in a search tree a held key other than the current value lies on the side the walk takes |
| BinaryTreeSearch.Search | src/modules/algorithm/seed/algorithms/binary-tree-search/languages/typescript/iterative-solution.ts:6-18 | true only for a held key; on a search tree true exactly when the key is held |
| BinaryTreeSearch.Insert | src/modules/algorithm/seed/algorithms/binary-tree-search/languages/typescript/iterative-solution.ts:23-46 | the result holds the old values plus key; a non-empty root stays the root; an empty tree becomes the single new node |
| BinaryTreeSearch.InsertBst | src/modules/algorithm/seed/algorithms/binary-tree-search/languages/typescript/iterative-solution.ts:30-44 | insertion keeps the search-tree order, equal keys going right |
| BinaryTreeSearch.InsertOrdered | src/modules/algorithm/seed/algorithms/binary-tree-search/languages/typescript/iterative-solution.ts:30-44 | insertion keeps the non-strict order |
| BinaryTreeSearch.InsertBound | src/modules/algorithm/seed/algorithms/binary-tree-search/languages/typescript/iterative-solution.ts:30-44 | a key on the right side of a bound keeps the whole tree on that side |
| BinaryTreeSearch.InsertThenSearch | src/modules/algorithm/seed/algorithms/binary-tree-search/languages/typescript/iterative-solution.ts:6-46 | after insert(root, key) search finds key |
| BinaryTreeSearch.RemoveMin | src/modules/algorithm/seed/algorithms/binary-tree-search/languages/typescript/iterative-solution.ts:76-89 | unlinking the leftmost node returns its value and a tree holding the rest |
| BinaryTreeSearch.RemoveMinBst | src/modules/algorithm/seed/algorithms/binary-tree-search/languages/typescript/iterative-solution.ts:76-89 | in a search tree the leftmost value is the least and unlinking it keeps the order |
| BinaryTreeSearch.RemoveNode | src/modules/algorithm/seed/algorithms/binary-tree-search/languages/typescript/iterative-solution.ts:72-91 | removeNode takes exactly the node's own value out, using the in-order successor when both children exist |
| BinaryTreeSearch.RemoveNodeBst | src/modules/algorithm/seed/algorithms/binary-tree-search/languages/typescript/iterative-solution.ts:72-91 | removeNode keeps the search-tree order |
| BinaryTreeSearch.DeleteAbsent | src/modules/algorithm/seed/algorithms/binary-tree-search/languages/typescript/iterative-solution.ts:68-69 | deleting a key that is not held returns the tree unchanged |
| BinaryTreeSearch.DeletePresent | src/modules/algorithm/seed/algorithms/binary-tree-search/languages/typescript/iterative-solution.ts:93-103 | deleting a held key from a search tree removes exactly one occurrence of it; deleting the root returns the replacement |
| BinaryTreeSearch.DeleteBst | src/modules/algorithm/seed/algorithms/binary-tree-search/languages/typescript/iterative-solution.ts:51-104 | deletion keeps the search-tree order |
| Avl.StoredHeight | src/modules/algorithm/seed/algorithms/avl-tree/languages/typescript/recursive-solution.ts:25-27 | with consistent stored heights getHeight is the height of the tree |
| Avl.RightRotate | src/modules/algorithm/seed/algorithms/avl-tree/languages/typescript/recursive-solution.ts:30-43 | rightRotate succeeds exactly when the left child exists (else the x.right access throws), returns a node and keeps the in-order sequence |
| Avl.LeftRotate | src/modules/algorithm/seed/algorithms/avl-tree/languages/typescript/recursive-solution.ts:46-59 | leftRotate succeeds exactly when the right child exists, returns a node and keeps the in-order sequence |
| Avl.Rebalance | src/modules/algorithm/seed/algorithms/avl-tree/languages/typescript/recursive-solution.ts:82-106 | the four rotation cases keep the in-order sequence |
| Avl.InsertNode | src/modules/algorithm/seed/algorithms/avl-tree/languages/typescript/recursive-solution.ts:67-107 | a successful insertNode returns a node |
| Avl.SearchNode | src/modules/algorithm/seed/algorithms/avl-tree/languages/typescript/recursive-solution.ts:119-123 | a node found holds the value searched for, and the value is in the tree |
| Avl.InsertElems | src/modules/algorithm/seed/algorithms/avl-tree/languages/typescript/recursive-solution.ts:67-77 | insertNode adds exactly one occurrence of the value |
| Avl.RotateOrdered | src/modules/algorithm/seed/algorithms/avl-tree/languages/typescript/recursive-solution.ts:30-59 | rotations keep the non-strict search-tree order |
| Avl.InsertOrdered | src/modules/algorithm/seed/algorithms/avl-tree/languages/typescript/recursive-solution.ts:67-107 | insertNode keeps the non-strict search-tree order |
| Avl.RotateHeights | src/modules/algorithm/seed/algorithms/avl-tree/languages/typescript/recursive-solution.ts:39-40 | a rotation recomputes each moved node's height as one more than the larger child height |
| Avl.InsertHeights | src/modules/algorithm/seed/algorithms/avl-tree/languages/typescript/recursive-solution.ts:79 | after insertNode every stored height is one more than the larger child height |
| Avl.RotateLeftLeft | src/modules/algorithm/seed/algorithms/avl-tree/languages/typescript/recursive-solution.ts:84-87 | in the left-left case one right rotation gives a balanced node |
| Avl.RotateLeftRight | src/modules/algorithm/seed/algorithms/avl-tree/languages/typescript/recursive-solution.ts:94-98 | in the left-right case the two rotations give a balanced node |
| Avl.RotateRightRight | src/modules/algorithm/seed/algorithms/avl-tree/languages/typescript/recursive-solution.ts:89-92 | in the right-right case one left rotation gives a balanced node |
| Avl.RotateRightLeft | src/modules/algorithm/seed/algorithms/avl-tree/languages/typescript/recursive-solution.ts:100-104 | in the right-left case the two rotations give a balanced node |
| Avl.InsertBalanced | src/modules/algorithm/seed/algorithms/avl-tree/languages/typescript/recursive-solution.ts:67-107 | with a key not yet held, insertNode keeps a balanced tree balanced with consistent heights, growing by at most one |
| Avl.InsertAvl | src/modules/algorithm/seed/algorithms/avl-tree/languages/typescript/recursive-solution.ts:67-107 | on an AVL tree without the key, insertNode succeeds, gives an AVL tree holding the old keys plus the new one, at most one level taller |
| Avl.EqualKeyNoRotation | src/modules/algorithm/seed/algorithms/avl-tree/languages/typescript/recursive-solution.ts:72-76 | an equal key goes right and matches no rotation case: inserting 2, 1, 1 leaves balance factor 2 at the root |
| Avl.SearchFinds | src/modules/algorithm/seed/algorithms/avl-tree/languages/typescript/recursive-solution.ts:119-123 | on an ordered tree searchNode finds a node exactly when the value is held |
| Avl.SearchContains | src/modules/algorithm/seed/algorithms/avl-tree/languages/typescript/recursive-solution.ts:119-123 | on an ordered tree the descent by comparison succeeds exactly when the value occurs anywhere in the tree |
| Avl.ThrownElems | src/modules/algorithm/seed/algorithms/avl-tree/languages/typescript/recursive-solution.ts:67-104 | when insertNode throws, the tree seen from the root already holds exactly the old values plus the new one, because the child links written below the failing rotation stay |
| Avl.SpineThrows | src/modules/algorithm/seed/algorithms/avl-tree/languages/typescript/recursive-solution.ts:67-104 | inserting 0 four times builds an unbalanced right spine; inserting -1 then throws in the right-left case, after the root has taken -1 as its left child |
| Avl.AvlTree.constructor | src/modules/algorithm/seed/algorithms/avl-tree/languages/typescript/recursive-solution.ts:20-22 | a new tree is empty |
| Avl.AvlTree.Insert | src/modules/algorithm/seed/algorithms/avl-tree/languages/typescript/recursive-solution.ts:110-112 | insert replaces the root with insertNode's result; when a rotation meets a missing child it throws, and the root then shows the in-place writes made before the throw (the new value already linked in); on an AVL tree without the key it does not throw and keeps the AVL property |
| Avl.AvlTree.Search | src/modules/algorithm/seed/algorithms/avl-tree/languages/typescript/recursive-solution.ts:115-117 | search returns a node holding value, found exactly when an ordered tree holds value |
| Avl.FixtureTrees | src/modules/algorithm/seed/algorithms/avl-tree/languages/typescript/test.ts:14-21 | inserting 40, 20, 10, 25, 30, 22 builds the trees step by step, with the rotations the source performs |
| Avl.FixtureSearches | src/modules/algorithm/seed/algorithms/avl-tree/languages/typescript/test.ts:23-26 | in the fixture tree 25 is the root, and 22 and 30 are found at their nodes |
| Avl.InsertSearchFixture | src/modules/algorithm/seed/algorithms/avl-tree/languages/typescript/test.ts:14-77 | after the six inserts search finds 25, 22 and 30 |
| RedBlack.PlugInOrder | src/modules/algorithm/seed/algorithms/red-black-tree/typescript/iterative-solution.ts:103-139 | replacing a subtree by one with the same in-order listing keeps the listing of the whole tree |
| RedBlack.LeftRotate | src/modules/algorithm/seed/algorithms/red-black-tree/typescript/iterative-solution.ts:103-120 | leftRotate keeps the in-order sequence; a missing right child leaves the node as it is |
| RedBlack.RightRotate | src/modules/algorithm/seed/algorithms/red-black-tree/typescript/iterative-solution.ts:122-139 | rightRotate keeps the in-order sequence; a missing left child leaves the node as it is |
| RedBlack.LeafInsertProjects | src/modules/algorithm/seed/algorithms/red-black-tree/typescript/iterative-solution.ts:26-47 | with the colours dropped, the red leaf insertion is the search-tree insertion, equal keys going right |
| RedBlack.PlugInsert | src/modules/algorithm/seed/algorithms/red-black-tree/typescript/iterative-solution.ts:31-47 | inserting at the end of the walk is inserting into the whole tree |
| RedBlack.PlugNoRedRed | src/modules/algorithm/seed/algorithms/red-black-tree/typescript/iterative-solution.ts:55 | when the focus is not red below a red parent the loop's exit leaves no red node with a red child |
| RedBlack.FixStep | src/modules/algorithm/seed/algorithms/red-black-tree/typescript/iterative-solution.ts:55-97 | one fixup iteration returns a node and moves the focus strictly up the path |
| RedBlack.FixStepInOrder | src/modules/algorithm/seed/algorithms/red-black-tree/typescript/iterative-solution.ts:55-97 | a fixup iteration changes only colours and shape: the listing of the tree stays |
| RedBlack.FixStepColors | src/modules/algorithm/seed/algorithms/red-black-tree/typescript/iterative-solution.ts:60-74 | a fixup iteration keeps the root frame black; a rotation case leaves the focus under a black parent |
| RedBlack.FixStepRb | src/modules/algorithm/seed/algorithms/red-black-tree/typescript/iterative-solution.ts:55-97 | a fixup iteration keeps the focus red and every other red-black condition |
| RedBlack.GrandparentExists | src/modules/algorithm/seed/algorithms/red-black-tree/typescript/iterative-solution.ts:56-57 | the parent of a red focus is never the black root, so the grandparent exists |
| RedBlack.Descend | src/modules/algorithm/seed/algorithms/red-black-tree/typescript/iterative-solution.ts:28-38 | the walk records every node passed, ends at the empty place where value goes, and the recorded path rebuilds the tree |
| RedBlack.InsertFixup | src/modules/algorithm/seed/algorithms/red-black-tree/typescript/iterative-solution.ts:54-101 | the fixup keeps the listing, ends with a black root, and clears the one red-red pair an insertion makes |
| RedBlack.RedBlackTree.constructor | src/modules/algorithm/seed/algorithms/red-black-tree/typescript/iterative-solution.ts:23 | a new tree is empty |
| RedBlack.RedBlackTree.Insert | src/modules/algorithm/seed/algorithms/red-black-tree/typescript/iterative-solution.ts:26-51 | after insert the root is black, no red node has a red child, the order holds and the values gain value |
| RedBlack.RedBlackTree.Search | src/modules/algorithm/seed/algorithms/red-black-tree/typescript/iterative-solution.ts:142-151 | a node found holds value; on an ordered tree a node is found exactly when value is held |
| RedBlack.InsertListing | src/modules/algorithm/seed/algorithms/red-black-tree/typescript/iterative-solution.ts:26-51 | a tree listing like the leaf insertion holds one more value and keeps the order |
| TreeTraversal.PushLeftSpine | src/modules/algorithm/seed/algorithms/binary-tree-traversal/go/iterative-solution.go:10-13 | the inner loop pushes only nodes, and the stack then owes current's in-order listing before what it owed |
| TreeTraversal.InOrderTraversal | src/modules/algorithm/seed/algorithms/binary-tree-traversal/go/iterative-solution.go:4-22 | the result is the left, root, right listing of the tree |
| TreeTraversal.PushIfNode | src/modules/algorithm/seed/algorithms/binary-tree-traversal/go/iterative-solution.go:37-42 | pushing a child only when it is a node owes the same as if nil children were walked |
| TreeTraversal.PreOrderTraversal | src/modules/algorithm/seed/algorithms/binary-tree-traversal/go/iterative-solution.go:25-45 | the result is the root, left, right listing of the tree; nil gives the empty listing |
| TreeTraversal.RootRightLeftPass | src/modules/algorithm/seed/algorithms/binary-tree-traversal/go/iterative-solution.go:53-66 | the first stack pass emits root, right subtree, left subtree |
| TreeTraversal.ReadBackwards | src/modules/algorithm/seed/algorithms/binary-tree-traversal/go/iterative-solution.go:68-70 | the closing loop reads output from its last entry down |
| TreeTraversal.ReverseRootRightLeft | src/modules/algorithm/seed/algorithms/binary-tree-traversal/go/iterative-solution.go:67-70 | root-right-left read backwards is left, right, root |
| TreeTraversal.PostOrderTraversal | src/modules/algorithm/seed/algorithms/binary-tree-traversal/go/iterative-solution.go:48-72 | the result is the left, right, root listing of the tree; nil gives the empty listing |
| TreeTraversal.TraversalLengths | src/modules/algorithm/seed/algorithms/binary-tree-traversal/go/iterative-solution.go:4-72 | each traversal is as long as the tree has nodes |
| TreeCompare.SameIsEqual | src/modules/algorithm/seed/algorithms/binary-tree-compare/typescript/iterative-solution.ts:32-61 | same shape and same values at every position is equality of the trees |
| TreeCompare.SameReflexive | src/modules/algorithm/seed/algorithms/binary-tree-compare/typescript/iterative-solution.ts:32-61 | every tree is the same as itself |
| TreeCompare.SameSymmetric | src/modules/algorithm/seed/algorithms/binary-tree-compare/typescript/iterative-solution.ts:32-61 | sameness is symmetric |
| TreeCompare.PairsFront | src/modules/algorithm/seed/algorithms/binary-tree-compare/typescript/iterative-solution.ts:37 | the queued pairs are all equal exactly when the front pair and the rest are |
| TreeCompare.IsSameTree | src/modules/algorithm/seed/algorithms/binary-tree-compare/typescript/iterative-solution.ts:32-61 | true exactly when the trees have the same shape and values; two nils give true, one nil gives false |
| TreeCompare.DifferentShapesFixture | src/modules/algorithm/seed/algorithms/binary-tree-compare/javascript/test.js:14-25 | [1,2,3] and [1,2,null,3] are not the same |
| Trie.CountAppend | src/modules/algorithm/seed/algorithms/trie/languages/typescript/iterative-solution.ts:20-30 | inserting w raises the count of words equal to q by one exactly when q is w, and of words starting with q exactly when q is a prefix of w |
| Trie.CountRemove | src/modules/algorithm/seed/algorithms/trie/languages/typescript/iterative-solution.ts:76-85 | erasing one occurrence of w lowers those counts by one in the same cases |
| Trie.PrefixZero | src/modules/algorithm/seed/algorithms/trie/languages/typescript/iterative-solution.ts:65-74 | when no word starts with q, none starts with or equals a longer string |
| Trie.EqualPrefix | src/modules/algorithm/seed/algorithms/trie/languages/typescript/iterative-solution.ts:65-74 | a live word counts among the words starting with each of its prefixes |
| Trie.CountsNonNegative | src/modules/algorithm/seed/algorithms/trie/languages/typescript/iterative-solution.ts:76-85 | while the store agrees with the live words no counter is negative |
| Trie.InsertThenErase | src/modules/algorithm/seed/algorithms/trie/languages/typescript/iterative-solution.ts:20-30 | erasing a word right after inserting it restores every count |
| Trie.PartialStep | src/modules/algorithm/seed/algorithms/trie/languages/typescript/iterative-solution.ts:22-28 | each step of the walk moves the next node's prefixCount by one |
| Trie.InsertFinish | src/modules/algorithm/seed/algorithms/trie/languages/typescript/iterative-solution.ts:29 | raising the last node's wordCount completes an insertion: the store agrees with the words plus the new one |
| Trie.EraseFinish | src/modules/algorithm/seed/algorithms/trie/languages/typescript/iterative-solution.ts:84 | lowering the last node's wordCount completes an erasure: the store agrees with the words minus one occurrence |
| Trie.Trie.constructor | src/modules/algorithm/seed/algorithms/trie/languages/typescript/iterative-solution.ts:16-18 | a new trie holds no words |
| Trie.Trie.Insert | src/modules/algorithm/seed/algorithms/trie/languages/typescript/iterative-solution.ts:20-30 | insert adds one occurrence of word to the live words and keeps the counters in agreement |
| Trie.Trie.Descend | src/modules/algorithm/seed/algorithms/trie/languages/typescript/iterative-solution.ts:23-27 | a missing child is created with zero counters and the child's prefixCount goes up by one |
| Trie.Trie.Walk | src/modules/algorithm/seed/algorithms/trie/languages/typescript/iterative-solution.ts:33-39 | the walk reaches the node of path s, or stops where no word passes through s |
| Trie.Trie.Search | src/modules/algorithm/seed/algorithms/trie/languages/typescript/iterative-solution.ts:32-41 | search is true exactly when some live word equals word |
| Trie.Trie.StartsWith | src/modules/algorithm/seed/algorithms/trie/languages/typescript/iterative-solution.ts:43-52 | startsWith is true exactly when prefix is non-empty and some live word starts with it; the empty prefix gives false |
| Trie.Trie.CountWordsEqualTo | src/modules/algorithm/seed/algorithms/trie/languages/typescript/iterative-solution.ts:54-63 | the number of live words equal to word |
| Trie.Trie.CountWordsStartingWith | src/modules/algorithm/seed/algorithms/trie/languages/typescript/iterative-solution.ts:65-74 | the number of live words starting with a non-empty prefix, with multiplicity; 0 for the empty prefix |
| Trie.Trie.Erase | src/modules/algorithm/seed/algorithms/trie/languages/typescript/iterative-solution.ts:76-85 | an absent word changes nothing; a live one loses one occurrence, and the counters stay in agreement |
| OpenAddressing.StringHash | src/modules/algorithm/seed/algorithms/hash-map/languages/typescript/open-addressing-solution.ts:18-23 | the hash folds the UTF-16 code units of the key string, multiplying by 31 and adding each unit modulo the capacity, and stays below the capacity |
| OpenAddressing.HashString | src/modules/algorithm/seed/algorithms/hash-map/languages/typescript/open-addressing-solution.ts:19-23 | the loop over `charCodeAt(i)` for i below the string's length, counted in UTF-16 code units, computes StringHash |
| OpenAddressing.Units | src/modules/algorithm/seed/algorithms/hash-map/languages/typescript/open-addressing-solution.ts:20-21 | a character below U+10000 is one code unit equal to its code; any other is a high and a low surrogate that encode it |
| OpenAddressing.Utf16 | src/modules/algorithm/seed/algorithms/hash-map/languages/typescript/open-addressing-solution.ts:18-21 | the code units of a string, at least one per character |
| OpenAddressing.BasicPlaneUnits | src/modules/algorithm/seed/algorithms/hash-map/languages/typescript/open-addressing-solution.ts:20-21 | without characters beyond U+FFFF, the code units are the character codes one to one |
| OpenAddressing.AstralIsTwoUnits | src/modules/algorithm/seed/algorithms/hash-map/languages/typescript/open-addressing-solution.ts:20-21 | U+1F600 counts as the two code units D83D DE00, so a string holding it is one longer than its characters |
| OpenAddressing.HashOf | src/modules/algorithm/seed/algorithms/hash-map/languages/typescript/open-addressing-solution.ts:14-24 | hash lies in [0, capacity) for non-negative number keys and for string keys |
| OpenAddressing.Hash | src/modules/algorithm/seed/algorithms/hash-map/languages/typescript/open-addressing-solution.ts:14-24 | hash computes HashOf, below the capacity |
| OpenAddressing.NextSlot | src/modules/algorithm/seed/algorithms/hash-map/languages/typescript/open-addressing-solution.ts:35 | (index + 1) % capacity is the next slot, round to 0 after the last |
| OpenAddressing.Probe | src/modules/algorithm/seed/algorithms/hash-map/languages/typescript/open-addressing-solution.ts:30-39 | the probe stops only at a free slot or the key's own slot |
| OpenAddressing.ProbeNone | src/modules/algorithm/seed/algorithms/hash-map/languages/typescript/open-addressing-solution.ts:36-38 | the probe stops nowhere exactly when one full turn meets only other keys |
| OpenAddressing.ProbeAfterWrite | src/modules/algorithm/seed/algorithms/hash-map/languages/typescript/open-addressing-solution.ts:41-42 | writing key where its probe stops leaves the probe stopping there |
| OpenAddressing.OccupiedUpdate | src/modules/algorithm/seed/algorithms/hash-map/languages/typescript/open-addressing-solution.ts:41-43 | writing a slot changes the number of used slots by what was and what is there |
| OpenAddressing.PutThenGet | src/modules/algorithm/seed/algorithms/hash-map/languages/typescript/open-addressing-solution.ts:26-61 | put(k, v) and then get(k) gives v |
| OpenAddressing.RemoveHidesDisplacedKey | src/modules/algorithm/seed/algorithms/hash-map/languages/typescript/open-addressing-solution.ts:63-79 | with two slots, after put(0), put(2) and remove(0), get(2) gives undefined: the cleared slot ends the probe |
| OpenAddressing.HashMap.constructor | src/modules/algorithm/seed/algorithms/hash-map/languages/typescript/open-addressing-solution.ts:7-12 | a new map has capacity free slots and size 0 |
| OpenAddressing.HashMap.FindSlot | src/modules/algorithm/seed/algorithms/hash-map/languages/typescript/open-addressing-solution.ts:27-39 | the probing loop stops where Probe says: the first free slot or the key's slot, or reports a full turn |
| OpenAddressing.HashMap.Put | src/modules/algorithm/seed/algorithms/hash-map/languages/typescript/open-addressing-solution.ts:26-44 | an existing key's value is overwritten with size kept; a new key fills the free slot and size grows by 1; a full turn over other keys gives 'HashMap is full' and changes nothing |
| OpenAddressing.HashMap.Get | src/modules/algorithm/seed/algorithms/hash-map/languages/typescript/open-addressing-solution.ts:46-61 | get returns the value at the probe's stop when it holds key, else undefined |
| OpenAddressing.HashMap.Remove | src/modules/algorithm/seed/algorithms/hash-map/languages/typescript/open-addressing-solution.ts:63-79 | a found key's slot is cleared and size drops by 1; otherwise nothing changes |
| OpenAddressing.HashMap.SizeValue | src/modules/algorithm/seed/algorithms/hash-map/languages/typescript/open-addressing-solution.ts:81-83 | size is the number of used slots |
| OpenAddressing.HashMap.IsEmpty | src/modules/algorithm/seed/algorithms/hash-map/languages/typescript/open-addressing-solution.ts:85-87 | isEmpty holds exactly when no slot is in use |
| OpenAddressingFixed.FindHeld | src/modules/algorithm/seed/algorithms/hash-map/languages/typescript/open-addressing-solution.ts:46-61 | with tombstones, the probe for a held key stops at its slot |
| OpenAddressingFixed.GetFinds | src/modules/algorithm/seed/algorithms/hash-map/languages/typescript/open-addressing-solution.ts:46-61 | with tombstones, get finds every stored key's value and nothing for a key not stored |
| OpenAddressingFixed.PutReachable | src/modules/algorithm/seed/algorithms/hash-map/languages/typescript/open-addressing-solution.ts:41-42 | writing key where its probe stops keeps every key held once and reachable |
| OpenAddressingFixed.PutKeepsReachable | src/modules/algorithm/seed/algorithms/hash-map/languages/typescript/open-addressing-solution.ts:26-44 | put keeps every key reachable and the count right, stores the value, and leaves every other key's answer |
| OpenAddressingFixed.PutFull | src/modules/algorithm/seed/algorithms/hash-map/languages/typescript/open-addressing-solution.ts:36-38 | put fails only when no slot is free and the key is not stored |
| OpenAddressingFixed.RemoveReachable | src/modules/algorithm/seed/algorithms/hash-map/languages/typescript/open-addressing-solution.ts:68-71 | a tombstone in the removed slot keeps every other key reachable |
| OpenAddressingFixed.RemoveKeepsReachable | src/modules/algorithm/seed/algorithms/hash-map/languages/typescript/open-addressing-solution.ts:63-79 | remove with a tombstone keeps every other key's value findable and the removed key gone |
| OpenAddressingFixed.EmptyTable | src/modules/algorithm/seed/algorithms/hash-map/languages/typescript/open-addressing-solution.ts:7-12 | the constructor's table holds nothing |
| OpenAddressingFixed.TombstoneKeepsDisplacedKey | src/modules/algorithm/seed/algorithms/hash-map/languages/typescript/open-addressing-solution.ts:63-79 | on the corrected table, after put(0), put(2) and remove(0), get(2) still gives 2's value |
| SeparateChaining.FindIn | src/modules/algorithm/seed/algorithms/hash-map/typescript/separate-chaining-solution.ts:65-70 | the position of the first node holding key, None exactly when no node holds it |
| SeparateChaining.PutThenGet | src/modules/algorithm/seed/algorithms/hash-map/typescript/separate-chaining-solution.ts:36-73 | put(k, v) then get(k) gives v, and get of every other key is as before |
| SeparateChaining.PutKeepsBucket | src/modules/algorithm/seed/algorithms/hash-map/typescript/separate-chaining-solution.ts:40-58 | put keeps each bucket's keys hashing to it and distinct, and adds a node exactly when key was absent |
| SeparateChaining.RemoveThenGet | src/modules/algorithm/seed/algorithms/hash-map/typescript/separate-chaining-solution.ts:75-93 | after remove(k) get(k) gives undefined, and get of every other key is as before |
| SeparateChaining.RemoveKeepsBucket | src/modules/algorithm/seed/algorithms/hash-map/typescript/separate-chaining-solution.ts:75-93 | remove keeps the bucket right and drops a node exactly when key was there |
| SeparateChaining.TotalUpdate | src/modules/algorithm/seed/algorithms/hash-map/typescript/separate-chaining-solution.ts:58 | replacing one bucket changes the node total by the difference in its length |
| SeparateChaining.TotalZero | src/modules/algorithm/seed/algorithms/hash-map/typescript/separate-chaining-solution.ts:99-101 | the node total is 0 exactly when every bucket is empty |
| SeparateChaining.ChainedMap.constructor | src/modules/algorithm/seed/algorithms/hash-map/typescript/separate-chaining-solution.ts:18-22 | capacity empty buckets and size 0 |
| SeparateChaining.ChainedMap.Put | src/modules/algorithm/seed/algorithms/hash-map/typescript/separate-chaining-solution.ts:36-59 | an existing key gets the new value with size kept; a new key goes to the head of its bucket and size grows by 1 |
| SeparateChaining.ChainedMap.Get | src/modules/algorithm/seed/algorithms/hash-map/typescript/separate-chaining-solution.ts:61-73 | get returns the value of the first node of key's bucket holding key, undefined when none does |
| SeparateChaining.RemoveFromBucket | src/modules/algorithm/seed/algorithms/hash-map/typescript/separate-chaining-solution.ts:77-92 | the walk unlinks exactly the first node holding key, from the head or past its predecessor, and reports whether there was one |
| SeparateChaining.RemoveAt | src/modules/algorithm/seed/algorithms/hash-map/typescript/separate-chaining-solution.ts:81-86 | unlinking at the head drops the first node and unlinking past a predecessor drops just the matching node |
| SeparateChaining.ChainedMap.Remove | src/modules/algorithm/seed/algorithms/hash-map/typescript/separate-chaining-solution.ts:75-93 | a present key's first node is unlinked and size shrinks by 1; an absent key changes nothing |
| SeparateChaining.ChainedMap.SizeValue | src/modules/algorithm/seed/algorithms/hash-map/typescript/separate-chaining-solution.ts:95-97 | size is the number of nodes |
| SeparateChaining.ChainedMap.IsEmpty | src/modules/algorithm/seed/algorithms/hash-map/typescript/separate-chaining-solution.ts:99-101 | isEmpty holds exactly when size is 0, that is when every bucket is empty |
| HeapShape.Parent | src/modules/algorithm/seed/algorithms/min-heap/languages/python/iterative-solution.py:27 | (index - 1) // 2 is below index |
| HeapShape.ParentChildren | src/modules/algorithm/seed/algorithms/min-heap/languages/python/iterative-solution.py:37-38 | the slots whose parent is k are exactly 2k + 1 and 2k + 2 |
| HeapShape.Swapped | src/modules/algorithm/seed/algorithms/min-heap/languages/python/iterative-solution.py:52-53 | the swap exchanges two slots, leaves the others and keeps the multiset |
| HeapShape.LastToRoot | src/modules/algorithm/seed/algorithms/min-heap/languages/python/iterative-solution.py:15 | moving the popped last entry to the root removes exactly the old root from the multiset |
| MinHeap.RootIsMin | src/modules/algorithm/seed/algorithms/min-heap/languages/python/iterative-solution.py:19-20 | the root of a min-heap is at most every entry |
| MinHeap.AppendUpInv | src/modules/algorithm/seed/algorithms/min-heap/languages/python/iterative-solution.py:6 | an appended entry may be out of order only against its parent |
| MinHeap.UpStep | src/modules/algorithm/seed/algorithms/min-heap/languages/python/iterative-solution.py:28-30 | one swap with a larger parent moves the defect one level up |
| MinHeap.Smallest | src/modules/algorithm/seed/algorithms/min-heap/languages/python/iterative-solution.py:36-44 | sink_down picks the child smaller than the node and no larger than its sibling, or the node itself |
| MinHeap.DownStep | src/modules/algorithm/seed/algorithms/min-heap/languages/python/iterative-solution.py:46-48 | one swap with the smallest child moves the defect one level down |
| MinHeap.DownDone | src/modules/algorithm/seed/algorithms/min-heap/languages/python/iterative-solution.py:49-50 | when no child is smaller the heap property holds |
| MinHeap.MinHeap.constructor | src/modules/algorithm/seed/algorithms/min-heap/languages/python/iterative-solution.py:2-3 | a new heap is empty |
| MinHeap.MinHeap.Swap | src/modules/algorithm/seed/algorithms/min-heap/languages/python/iterative-solution.py:52-53 | swap exchanges two slots |
| MinHeap.MinHeap.BubbleUp | src/modules/algorithm/seed/algorithms/min-heap/languages/python/iterative-solution.py:25-32 | bubble_up restores the heap property and keeps the multiset |
| MinHeap.MinHeap.SinkDown | src/modules/algorithm/seed/algorithms/min-heap/languages/python/iterative-solution.py:34-50 | sink_down restores the heap property from index down and keeps the multiset |
| MinHeap.MinHeap.SmallestChild | src/modules/algorithm/seed/algorithms/min-heap/languages/python/iterative-solution.py:36-44 | the slot picked is the index itself or a child smaller than it, and no child is smaller than the one picked |
| MinHeap.MinHeap.Insert | src/modules/algorithm/seed/algorithms/min-heap/languages/python/iterative-solution.py:5-7 | insert keeps the heap property, adds value to the multiset and grows the size by 1 |
| MinHeap.MinHeap.ExtractMin | src/modules/algorithm/seed/algorithms/min-heap/languages/python/iterative-solution.py:9-17 | None on an empty heap; otherwise the old root, which is the minimum, with one occurrence removed and the heap property kept |
| MinHeap.MinHeap.Peek | src/modules/algorithm/seed/algorithms/min-heap/languages/python/iterative-solution.py:19-20 | peek returns the minimum without changing the heap, None when empty |
| MinHeap.MinHeap.Size | src/modules/algorithm/seed/algorithms/min-heap/languages/python/iterative-solution.py:22-23 | size is the number of entries |
| MaxHeap.RootIsMax | src/modules/algorithm/seed/algorithms/max-heap/typescript/recursive-solution.ts:64-66 | the root of a max-heap is at least every entry |
| MaxHeap.LeavesOrdered | src/modules/algorithm/seed/algorithms/max-heap/typescript/recursive-solution.ts:11 | slots from n/2 on have no children, so buildMaxHeap starts at the last parent |
| MaxHeap.Largest | src/modules/algorithm/seed/algorithms/max-heap/typescript/recursive-solution.ts:17-27 | heapify picks the child larger than the node and no smaller than its sibling, or the node itself |
| MaxHeap.DownStep | src/modules/algorithm/seed/algorithms/max-heap/typescript/recursive-solution.ts:29-31 | one swap with the largest child moves the defect one level down |
| MaxHeap.UpStep | src/modules/algorithm/seed/algorithms/max-heap/typescript/recursive-solution.ts:43-45 | one swap with a smaller parent moves the defect one level up |
| MaxHeap.MaxHeap.constructor | src/modules/algorithm/seed/algorithms/max-heap/typescript/recursive-solution.ts:4-7 | the constructor builds a max-heap of the given entries |
| MaxHeap.MaxHeap.BuildMaxHeap | src/modules/algorithm/seed/algorithms/max-heap/typescript/recursive-solution.ts:9-14 | heapifying every parent from the last back to the root yields a max-heap with the same multiset |
| MaxHeap.MaxHeap.Heapify | src/modules/algorithm/seed/algorithms/max-heap/typescript/recursive-solution.ts:16-33 | heapify(n, i) restores the heap at i when both subtrees are heaps, keeping the multiset |
| MaxHeap.MaxHeap.Insert | src/modules/algorithm/seed/algorithms/max-heap/typescript/recursive-solution.ts:35-38 | insert keeps the max-heap property and adds value to the multiset |
| MaxHeap.MaxHeap.HeapifyUp | src/modules/algorithm/seed/algorithms/max-heap/typescript/recursive-solution.ts:40-47 | heapifyUp restores the heap property and keeps the multiset |
| MaxHeap.MaxHeap.ExtractMax | src/modules/algorithm/seed/algorithms/max-heap/typescript/recursive-solution.ts:49-62 | undefined on an empty heap; otherwise the old root, which is the maximum, with one occurrence removed, the size down by 1 and the heap property kept |
| MaxHeap.MaxHeap.Peek | src/modules/algorithm/seed/algorithms/max-heap/typescript/recursive-solution.ts:64-66 | peek returns the maximum, undefined when empty |
| MaxHeap.MaxHeap.Size | src/modules/algorithm/seed/algorithms/max-heap/typescript/recursive-solution.ts:68-70 | size is the number of entries |
| DoublyLinkedList.FirstIndex | src/modules/algorithm/seed/algorithms/doubly-linked-list/typescript/solution.ts:82-93 | the position of the first occurrence of x, None exactly when x does not occur |
| DoublyLinkedList.RemoveFirstCount | src/modules/algorithm/seed/algorithms/doubly-linked-list/typescript/solution.ts:57-79 | removing the first occurrence takes exactly one x out and shortens by one; without x nothing changes |
| DoublyLinkedList.RemoveFirstOrder | src/modules/algorithm/seed/algorithms/doubly-linked-list/typescript/solution.ts:57-79 | the others keep their order: the entries before the occurrence, then those after it |
| DoublyLinkedList.Node.constructor | src/modules/algorithm/seed/algorithms/doubly-linked-list/typescript/solution.ts:7-11 | a new node holds data with no links |
| DoublyLinkedList.List.constructor | src/modules/algorithm/seed/algorithms/doubly-linked-list/typescript/solution.ts:20-24 | a new list is empty, with null head and tail |
| DoublyLinkedList.List.Append | src/modules/algorithm/seed/algorithms/doubly-linked-list/typescript/solution.ts:27-39 | the forward sequence becomes old + [data] and size grows by 1, with prev and next kept mutual |
| DoublyLinkedList.List.Prepend | src/modules/algorithm/seed/algorithms/doubly-linked-list/typescript/solution.ts:42-54 | the forward sequence becomes [data] + old and size grows by 1 |
| DoublyLinkedList.List.Delete | src/modules/algorithm/seed/algorithms/doubly-linked-list/typescript/solution.ts:57-79 | only the first node holding data is removed; size drops exactly when data was present; head and tail stay at the ends |
| DoublyLinkedList.List.Unlink | src/modules/algorithm/seed/algorithms/doubly-linked-list/typescript/solution.ts:62-74 | unlinking the node at position i removes exactly that position |
| DoublyLinkedList.List.UnlinkInner | src/modules/algorithm/seed/algorithms/doubly-linked-list/typescript/solution.ts:62-72 | a node with a predecessor is skipped by it, and its successor's prev or the tail goes back to it |
| DoublyLinkedList.List.UnlinkHead | src/modules/algorithm/seed/algorithms/doubly-linked-list/typescript/solution.ts:64-72 | removing the head makes its successor the head with no prev, or empties the list |
| DoublyLinkedList.List.Find | src/modules/algorithm/seed/algorithms/doubly-linked-list/typescript/solution.ts:82-93 | find returns the first node holding data, or null exactly when data is absent |
| DoublyLinkedList.List.Forward | src/modules/algorithm/seed/algorithms/doubly-linked-list/typescript/solution.ts:96-104 | the walk along next from head lists the contents |
| DoublyLinkedList.List.Backward | src/modules/algorithm/seed/algorithms/doubly-linked-list/typescript/solution.ts:107-115 | the walk along prev from tail lists the contents reversed |
| LinkedQueue.Node.constructor | src/modules/algorithm/seed/algorithms/queue/python/linkedlist-solution.py:2-4 | a new node holds data with no successor |
| LinkedQueue.Queue.constructor | src/modules/algorithm/seed/algorithms/queue/python/linkedlist-solution.py:7-14 | a new queue is empty with the given capacity, unbounded by default |
| LinkedQueue.Queue.Enqueue | src/modules/algorithm/seed/algorithms/queue/python/linkedlist-solution.py:16-29 | at capacity it raises 'Queue is full' and changes nothing; otherwise item goes to the rear and count grows by 1 |
| LinkedQueue.Queue.Dequeue | src/modules/algorithm/seed/algorithms/queue/python/linkedlist-solution.py:31-42 | None when empty; otherwise the front item, enqueue order being kept, with the rear cleared when the last item leaves |
| LinkedQueue.Queue.Peek | src/modules/algorithm/seed/algorithms/queue/python/linkedlist-solution.py:44-50 | the front item without removing it, None when empty |
| LinkedQueue.Queue.IsEmptyQueue | src/modules/algorithm/seed/algorithms/queue/python/linkedlist-solution.py:52-56 | is_empty holds exactly when there are no items |
| LinkedQueue.Queue.IsFullQueue | src/modules/algorithm/seed/algorithms/queue/python/linkedlist-solution.py:58-62 | is_full holds exactly when count equals a given capacity, never for the unbounded default |
| LinkedQueue.Queue.Size | src/modules/algorithm/seed/algorithms/queue/python/linkedlist-solution.py:64-68 | size is the number of items |
| CycleDetection.CycleThroughPath | src/modules/algorithm/seed/algorithms/cycle-detection/languages/typescript/recursive-solution.ts:47-50 | an edge from the end of the current path back onto it closes a cycle |
| CycleDetection.RankedAcyclic | src/modules/algorithm/seed/algorithms/cycle-detection/languages/typescript/recursive-solution.ts:53-55 | a finishing order in which every successor finishes earlier leaves no cycle |
| CycleDetection.DfsDetectCycle | src/modules/algorithm/seed/algorithms/cycle-detection/languages/typescript/recursive-solution.ts:34-56 | true only when the graph has a cycle; false leaves vertex finished, taken off the path, with every successor finished earlier |
| CycleDetection.HasCycleInGraph | src/modules/algorithm/seed/algorithms/cycle-detection/languages/typescript/recursive-solution.ts:15-57 | on a graph whose successors are all vertices, true exactly when the directed graph has a cycle, self-loops included; the empty graph gives false |
| CycleDetection.ListNode.constructor | src/modules/algorithm/seed/algorithms/cycle-detection/languages/typescript/recursive-solution.ts:99-107 | a new node holds val and links to nothing |
| CycleDetection.DetectCycle | src/modules/algorithm/seed/algorithms/cycle-detection/languages/typescript/recursive-solution.ts:78-91 | true exactly when the walk from head reaches some node twice |
| CycleDetection.HasCycleInLinkedList | src/modules/algorithm/seed/algorithms/cycle-detection/languages/typescript/recursive-solution.ts:73-94 | true exactly when the walk from head reaches some node twice |
| CycleDetection.SingleNode | src/modules/algorithm/seed/algorithms/cycle-detection/languages/typescript/recursive-solution.ts:79 | a single node linked to nothing is reached once |
| CycleDetection.SmallListFixtures | src/modules/algorithm/seed/algorithms/cycle-detection/languages/typescript/recursive-solution.ts:73-94 | null and a single node give false; a node linked to itself gives true |
| Dijkstra.InitDistances | src/modules/algorithm/seed/algorithms/dijkstra-list/languages/typescript/recursive-solution.ts:48-51 | the keys are the graph's; the source is at 0 and every other key at Infinity |
| Dijkstra.SelectNext | src/modules/algorithm/seed/algorithms/dijkstra-list/languages/typescript/recursive-solution.ts:57-71 | None exactly when every unvisited key is at Infinity; otherwise the first unvisited key in key order with the least finite distance |
| Dijkstra.Relax | src/modules/algorithm/seed/algorithms/dijkstra-list/languages/typescript/recursive-solution.ts:76-90 | after the edge loop every edge of the visited key to an unvisited key of the graph is relaxed, only unvisited keys are lowered, and each finite distance is still the weight of a walk from the source |
| Dijkstra.RelaxEdge | src/modules/algorithm/seed/algorithms/dijkstra-list/languages/typescript/recursive-solution.ts:77-89 | one edge: a visited neighbour or a neighbour outside the graph is skipped; otherwise the neighbour is lowered to the distance through the current key when that is smaller |
| Dijkstra.VisitKeepsInv | src/modules/algorithm/seed/algorithms/dijkstra-list/languages/typescript/recursive-solution.ts:73-90 | visiting the selected key and relaxing its edges keeps the invariant: every finite distance is witnessed by a walk and, when no weight is negative, visited keys are final, no further than any unvisited finite key, and their edges are relaxed |
| Dijkstra.ProcessNextNode | src/modules/algorithm/seed/algorithms/dijkstra-list/languages/typescript/recursive-solution.ts:56-94 | each round visits a key not visited before; the recursion stops with the invariant kept and no unvisited key at a finite distance |
| Dijkstra.DoneIsOptimal | src/modules/algorithm/seed/algorithms/dijkstra-list/languages/typescript/recursive-solution.ts:68-71 | with no negative weight, when the recursion stops, the distance of every key reached by a walk from the source is at most the walk's weight |
| Dijkstra.Dijkstra | src/modules/algorithm/seed/algorithms/dijkstra-list/languages/typescript/recursive-solution.ts:43-100 | for any integer weights the keys are the graph's and every finite distance is the weight of a walk from the source; when no weight is negative, no walk from the source is lighter, so an unreached key stays at Infinity |
| Dijkstra.PotentialBound | src/modules/algorithm/seed/algorithms/dijkstra-list/languages/typescript/recursive-solution.ts:43-100 | a potential that is 0 at the source and grows by at most each edge's weight bounds every walk from below |
| Dijkstra.DisconnectedResult | src/modules/algorithm/seed/algorithms/dijkstra-list/languages/javascript/test.js:72-89 | any result meeting the contract of Dijkstra on the disconnected graph is A:0, B:1, C and D at Infinity |
| Dijkstra.DisconnectedFixture | src/modules/algorithm/seed/algorithms/dijkstra-list/languages/javascript/test.js:72-89 | dijkstra on the disconnected graph gives A:0, B:1, C and D at Infinity |
| Dijkstra.SimpleResult | src/modules/algorithm/seed/algorithms/dijkstra-list/languages/javascript/test.js:5-31 | any result meeting the contract of Dijkstra on the simple graph is A:0, B:2, C:5, D:6, E:8 |
| Dijkstra.SimpleFixture | src/modules/algorithm/seed/algorithms/dijkstra-list/languages/javascript/test.js:5-31 | dijkstra on the simple graph gives A:0, B:2, C:5, D:6, E:8 |
| ArticulationPoints.AddKeeps | src/modules/algorithm/seed/algorithms/articulation-points/languages/javascript/iterative-solution.js:13 | adding to the point set: a new point goes last and a known point changes nothing, so the points stay distinct |
| ArticulationPoints.Initial | src/modules/algorithm/seed/algorithms/articulation-points/languages/javascript/iterative-solution.js:8-15 | before the first vertex every array has one entry per vertex: nothing visited, no parents, no children, no points |
| ArticulationPoints.InitialInv | src/modules/algorithm/seed/algorithms/articulation-points/languages/javascript/iterative-solution.js:8-15 | the fresh state meets the search invariant |
| ArticulationPoints.RootKeepsInv | src/modules/algorithm/seed/algorithms/articulation-points/languages/javascript/iterative-solution.js:19-23 | starting a tree at an unvisited vertex keeps the invariant and visits one more vertex |
| ArticulationPoints.DiscoverKeepsInv | src/modules/algorithm/seed/algorithms/articulation-points/languages/javascript/iterative-solution.js:29-36 | discovering an unvisited neighbour: parent, child count and discovery time set, a frame pushed, the invariant kept and one more vertex visited |
| ArticulationPoints.ScanKeepsInv | src/modules/algorithm/seed/algorithms/articulation-points/languages/javascript/iterative-solution.js:37-39 | at a visited neighbour other than the parent the low-link drops to its discovery time; the invariant is kept and one fewer neighbour is left to scan |
| ArticulationPoints.ReturnKeepsInv | src/modules/algorithm/seed/algorithms/articulation-points/languages/javascript/iterative-solution.js:41-47 | popping a vertex with a parent lowers the parent's low-link and reports the parent when the child's low-link is at least the parent's time; the invariant is kept |
| ArticulationPoints.FinishRootKeepsInv | src/modules/algorithm/seed/algorithms/articulation-points/languages/javascript/iterative-solution.js:41-52 | popping a root reports it when it has more than one child and empties the stack |
| ArticulationPoints.StepKeepsInv | src/modules/algorithm/seed/algorithms/articulation-points/languages/javascript/iterative-solution.js:25-54 | one turn of the while loop keeps the invariant and decreases the loop's measure |
| ArticulationPoints.SearchTree | src/modules/algorithm/seed/algorithms/articulation-points/languages/javascript/iterative-solution.js:25-54 | the while loop runs until the tree is finished, keeps the invariant and never unmarks a vertex |
| ArticulationPoints.StepKeepsLinked | src/modules/algorithm/seed/algorithms/articulation-points/languages/javascript/iterative-solution.js:28-50 | one turn of the while loop keeps the low-link rule: at each frame, low is the least of the vertex's own time, the times of the neighbours already passed other than its parent, and the low-links of its finished children; at each finished vertex the same over all its neighbours |
| ArticulationPoints.RootLinked | src/modules/algorithm/seed/algorithms/articulation-points/languages/javascript/iterative-solution.js:19-23 | a new root starts with its low-link at its own time, which meets the rule |
| ArticulationPoints.Run | src/modules/algorithm/seed/algorithms/articulation-points/languages/javascript/iterative-solution.js:7-58 | every vertex is discovered at a distinct time and the parents form a DFS forest; each low-link is the least of the vertex's own time, the times of its neighbours other than its parent, and its children's low-links; and the distinct points are exactly the roots with more than one child and the parents with a child whose low-link is at least their own time |
| ArticulationPoints.FinalOutcome | src/modules/algorithm/seed/algorithms/articulation-points/languages/javascript/iterative-solution.js:18-57 | when every vertex is visited and the stack is empty, the search state has the outcome above |
| ArticulationPoints.FinalLowLinks | src/modules/algorithm/seed/algorithms/articulation-points/languages/javascript/iterative-solution.js:37-44 | once every vertex is finished, the low-link rule at each vertex covers all its neighbours and all its children |
| ArticulationPoints.LowLinksDetermined | src/modules/algorithm/seed/algorithms/articulation-points/languages/javascript/iterative-solution.js:37-44 | two outcomes with the same forest and times have the same low-links and report the same points: the low-links are a function of the graph and the DFS forest |
| ArticulationPoints.PathForest | src/modules/algorithm/seed/algorithms/articulation-points/languages/javascript/iterative-solution.js:7-58 | on the path 0 - 1 - 2 the outcome forces the forest 0 → 1 → 2, discovery times 0, 1, 2, and low-links 0, 1, 2 |
| ArticulationPoints.PathAsWritten | src/modules/algorithm/seed/algorithms/articulation-points/languages/javascript/iterative-solution.js:42-47 | as written, the path 0 - 1 - 2 reports exactly the vertices 0 and 1 |
| ArticulationPoints.PathCorrected | src/modules/algorithm/seed/algorithms/articulation-points/languages/javascript/iterative-solution.js:42-52 | with the parent check, the path 0 - 1 - 2 reports [1], its only cut vertex |
| ArticulationPoints.Path | src/modules/algorithm/seed/algorithms/articulation-points/languages/javascript/iterative-solution.js:7-58 | running the search on the path gives the points 0 and 1 as written and [1] with the parent check |
| ArticulationPoints.RootWithChildReported | src/modules/algorithm/seed/algorithms/articulation-points/languages/javascript/iterative-solution.js:42-47 | as written, in an undirected graph every root with a child is reported, because the parent rule also fires at a root |
| ArticulationPoints.RootRuleCorrected | src/modules/algorithm/seed/algorithms/articulation-points/languages/javascript/iterative-solution.js:48-52 | with the parent rule for non-roots only, a root is reported exactly when it has more than one child |
| ArticulationPoints.SingleEdgeAsWritten | src/modules/algorithm/seed/algorithms/articulation-points/languages/javascript/iterative-solution.js:42-47 | as written, the single edge 0 - 1 reports vertex 0 |
| ArticulationPoints.SingleEdgeCorrected | src/modules/algorithm/seed/algorithms/articulation-points/languages/javascript/iterative-solution.js:42-52 | with the parent check, the single edge 0 - 1 reports no point |
| ArticulationPoints.SingleEdge | src/modules/algorithm/seed/algorithms/articulation-points/languages/javascript/iterative-solution.js:7-58 | running the search on the single edge gives [0] as written and [] with the parent check |
| HamiltonianCycle.NextOfCycle | src/modules/algorithm/seed/algorithms/hamiltonian-cycle/languages/typescript/backtracking-solution.ts:39-40 | a cycle that begins with a path continues with a vertex of 1 up to n - 1, not on the path, joined to the path's last vertex by an edge: one of the loop's candidates |
| HamiltonianCycle.NoExtension | src/modules/algorithm/seed/algorithms/hamiltonian-cycle/languages/typescript/backtracking-solution.ts:39-57 | when every candidate fails, no cycle begins with the path |
| HamiltonianCycle.StartsAtZero | src/modules/algorithm/seed/algorithms/hamiltonian-cycle/languages/typescript/backtracking-solution.ts:12-13 | every Hamiltonian cycle begins with vertex 0, the one the search fixes first |
| HamiltonianCycle.FullPath | src/modules/algorithm/seed/algorithms/hamiltonian-cycle/languages/typescript/backtracking-solution.ts:29-36 | a path of all n vertices closes into a cycle exactly when its last vertex has an edge back to 0 |
| HamiltonianCycle.HamCycleUtil | src/modules/algorithm/seed/algorithms/hamiltonian-cycle/languages/typescript/backtracking-solution.ts:22-58 | the slots before position are kept; true leaves a simple path of all n vertices from 0 whose last vertex has an edge to 0; false restores the visited marks and means no cycle begins with the current path |
| HamiltonianCycle.TryVertex | src/modules/algorithm/seed/algorithms/hamiltonian-cycle/languages/typescript/backtracking-solution.ts:40-53 | one candidate: on failure its mark is cleared, the earlier slots are kept and no cycle continues the path with it |
| HamiltonianCycle.FindHamiltonianCycle | src/modules/algorithm/seed/algorithms/hamiltonian-cycle/languages/typescript/backtracking-solution.ts:6-21 | a returned path is a Hamiltonian cycle: n + 1 entries, from 0 back to 0, each vertex once among the first n, every step along an edge; null exactly when the graph has no such cycle |
| Huffman.WeightedSum | src/modules/algorithm/seed/algorithms/huffman-encoding/languages/typescript/solution.ts:51-56 | in a tree built by merging, a node's frequency is the sum of its leaves' frequencies |
| Huffman.Initial | src/modules/algorithm/seed/algorithms/huffman-encoding/languages/typescript/solution.ts:41-43 | one leaf per character, carrying the character and its frequency, in input order |
| Huffman.InitialProps | src/modules/algorithm/seed/algorithms/huffman-encoding/languages/typescript/solution.ts:41-43 | the leaves hold exactly the input's characters and the sum of its frequencies |
| Huffman.SortByFrequency | src/modules/algorithm/seed/algorithms/huffman-encoding/languages/typescript/solution.ts:46 | the sort keeps the number of nodes |
| Huffman.SortProps | src/modules/algorithm/seed/algorithms/huffman-encoding/languages/typescript/solution.ts:46 | the sort orders the nodes by frequency and is a permutation of them |
| Huffman.SortKeeps | src/modules/algorithm/seed/algorithms/huffman-encoding/languages/typescript/solution.ts:46 | the sort keeps the characters and the total frequency |
| Huffman.CombineLowest | src/modules/algorithm/seed/algorithms/huffman-encoding/languages/typescript/solution.ts:48-58 | on sorted nodes, the merge takes two nodes no heavier than any node left, gives it their summed frequency and keeps the rest |
| Huffman.MergeLowest | src/modules/algorithm/seed/algorithms/huffman-encoding/languages/typescript/solution.ts:45-59 | each turn of the loop merges two lowest-frequency nodes into one whose frequency is their sum, and keeps every other node |
| Huffman.MergeKeeps | src/modules/algorithm/seed/algorithms/huffman-encoding/languages/typescript/solution.ts:45-59 | a turn of the loop keeps the characters and the total frequency |
| Huffman.MergeWeighted | src/modules/algorithm/seed/algorithms/huffman-encoding/languages/typescript/solution.ts:45-59 | a turn of the loop keeps every node's frequency the sum of its children's |
| Huffman.MergeTurn | src/modules/algorithm/seed/algorithms/huffman-encoding/languages/typescript/solution.ts:46-58 | one pass of the loop body computes exactly one turn of the merge: sort, take the two lowest, push their sum |
| Huffman.Parted | src/modules/algorithm/seed/algorithms/huffman-encoding/languages/typescript/solution.ts:77-82 | codes that part with '0' on the left and '1' on the right are not prefixes of each other |
| Huffman.GenerateCodes | src/modules/algorithm/seed/algorithms/huffman-encoding/languages/typescript/solution.ts:67-83 | below a non-empty code or a merged node, the walk writes a code for each of the node's characters, starting with the code given, none a prefix of another, and leaves every other entry alone |
| Huffman.HuffmanEncoding | src/modules/algorithm/seed/algorithms/huffman-encoding/languages/typescript/solution.ts:33-65 | no characters give the empty map and one character the code "0"; otherwise the last node holds every character and the sum of the frequencies, every distinct character gets a code, and no code is a prefix of another |
| AStar.Consistent | src/modules/algorithm/seed/algorithms/a-star/typescript/iterative-solution.ts:14-16 | the Manhattan heuristic is consistent: it drops by at most the distance moved |
| AStar.PathSpan | src/modules/algorithm/seed/algorithms/a-star/typescript/iterative-solution.ts:66-79 | along a walk of unit steps, the end is at most as far from a cell as the steps left |
| AStar.Find | src/modules/algorithm/seed/algorithms/a-star/typescript/iterative-solution.ts:84-86 | the first open entry at the cell, or None when no entry is there |
| AStar.Remove | src/modules/algorithm/seed/algorithms/a-star/typescript/iterative-solution.ts:52 | taking out entry k leaves one entry fewer, the others in order |
| AStar.StepSkip | src/modules/algorithm/seed/algorithms/a-star/typescript/iterative-solution.ts:77-78 | a neighbour out of bounds, an obstacle or a closed cell changes nothing |
| AStar.StepStay | src/modules/algorithm/seed/algorithms/a-star/typescript/iterative-solution.ts:87 | a neighbour already open at no higher cost changes nothing |
| AStar.StepPush | src/modules/algorithm/seed/algorithms/a-star/typescript/iterative-solution.ts:89-104 | a passable neighbour neither closed nor open is pushed at the end with cost g + 1 |
| AStar.StepLower | src/modules/algorithm/seed/algorithms/a-star/typescript/iterative-solution.ts:98-102 | a neighbour open at a higher cost is lowered in place |
| AStar.StepReaches | src/modules/algorithm/seed/algorithms/a-star/typescript/iterative-solution.ts:77-105 | after the step, a passable neighbour that is not closed is open at a cost of at most g + 1 |
| AStar.ExpansionCovers | src/modules/algorithm/seed/algorithms/a-star/typescript/iterative-solution.ts:66-106 | after the four directions, every passable neighbour that is not closed is open at a cost of at most g + 1 |
| AStar.PopOptimal | src/modules/algorithm/seed/algorithms/a-star/typescript/iterative-solution.ts:46-52 | the open entry of lowest f has the cost of a shortest walk to its cell |
| AStar.Exhausted | src/modules/algorithm/seed/algorithms/a-star/typescript/iterative-solution.ts:44-108 | with nothing open, no walk from start reaches the goal |
| AStar.AdvanceInv | src/modules/algorithm/seed/algorithms/a-star/typescript/iterative-solution.ts:52-106 | a turn that does not reach the goal keeps the search invariant: closed costs are shortest and closed cells' neighbours are covered |
| AStar.SearchNode.constructor | src/modules/algorithm/seed/algorithms/a-star/typescript/iterative-solution.ts:18-25 | a node holds its cell, costs and parent as given |
| AStar.FindNode | src/modules/algorithm/seed/algorithms/a-star/typescript/iterative-solution.ts:84-86 | openList.find on the node objects: the first node at the cell, or None |
| AStar.LowestF | src/modules/algorithm/seed/algorithms/a-star/typescript/iterative-solution.ts:46-51 | the first index whose f is the lowest of the open list |
| AStar.ReconstructPath | src/modules/algorithm/seed/algorithms/a-star/typescript/iterative-solution.ts:56-62 | the parent chain read back start first is a walk from start to the node's cell with g + 1 cells |
| AStar.Visit | src/modules/algorithm/seed/algorithms/a-star/typescript/iterative-solution.ts:74-105 | one direction: the open list changes as the step of the entries says, and every node still links back to start |
| AStar.Relax | src/modules/algorithm/seed/algorithms/a-star/typescript/iterative-solution.ts:80-105 | for a passable neighbour that is not closed: an open node of no higher cost is left alone, a costlier one is lowered in place, otherwise a new node is pushed |
| AStar.UpdateNode | src/modules/algorithm/seed/algorithms/a-star/typescript/iterative-solution.ts:98-102 | the open node takes the new costs and the current node as its parent |
| AStar.PushNode | src/modules/algorithm/seed/algorithms/a-star/typescript/iterative-solution.ts:89-104 | a fresh node at the neighbour, with the current node as its parent, is pushed at the end |
| AStar.Expand | src/modules/algorithm/seed/algorithms/a-star/typescript/iterative-solution.ts:66-106 | the four directions applied in order |
| AStar.CloseAndExpand | src/modules/algorithm/seed/algorithms/a-star/typescript/iterative-solution.ts:65-106 | the current cell is marked closed and exactly the closed cells stay marked; its neighbours are expanded |
| AStar.Proceed | src/modules/algorithm/seed/algorithms/a-star/typescript/iterative-solution.ts:65-106 | after a node that is not the goal, the state is again one between turns, with one more closed cell |
| AStar.Finish | src/modules/algorithm/seed/algorithms/a-star/typescript/iterative-solution.ts:55-63 | the node taken out is the goal, and the path rebuilt from it is a shortest walk from start to goal |
| AStar.Begin | src/modules/algorithm/seed/algorithms/a-star/typescript/iterative-solution.ts:27-43 | the set-up establishes the search invariant: nothing closed, the open list holding only the start node with g = 0 |
| AStar.Turn | src/modules/algorithm/seed/algorithms/a-star/typescript/iterative-solution.ts:44-106 | one turn either returns a shortest path to the goal or closes one more cell of the grid and keeps the search invariant |
| AStar.AStarSearch | src/modules/algorithm/seed/algorithms/a-star/typescript/iterative-solution.ts:9-109 | a non-empty result is a walk from start to goal over free, in-bounds, 4-adjacent cells, read as grid[y][x], with no walk shorter; the empty result means no walk from start reaches the goal |
| AStarExamples.Swapped | src/modules/algorithm/seed/algorithms/a-star/languages/go/exercise_test.go:15 | each pair read the other way round, as row then column |
| AStarExamples.ExpectedThroughObstacle | src/modules/algorithm/seed/algorithms/a-star/languages/go/exercise_test.go:6-20 | read as [x, y], the expected path of the first case enters the obstacle at row 1, column 2, so it is not a walk |
| AStarExamples.TransposedIsSwapped | src/modules/algorithm/seed/algorithms/a-star/languages/go/exercise_test.go:15 | the expected path with each pair swapped is the transposed path |
| AStarExamples.TransposedWalk | src/modules/algorithm/seed/algorithms/a-star/languages/go/exercise_test.go:6-15 | read as [row, column], the expected path is a walk of nine cells from [0, 0] to [4, 4] |
| AStarExamples.NoShorter | src/modules/algorithm/seed/algorithms/a-star/languages/go/exercise_test.go:6-15 | no walk from [0, 0] to [4, 4] has fewer than nine cells |
| AStarExamples.SearchGrid1 | src/modules/algorithm/seed/algorithms/a-star/languages/go/exercise_test.go:6-20 | the search on the first grid returns a walk of nine cells from [0, 0] to [4, 4] |
| AStarExamples.Enclosed | src/modules/algorithm/seed/algorithms/a-star/languages/go/exercise_test.go:22-26 | in the second grid no neighbour of [0, 0] is passable |
| AStarExamples.WalledIn | src/modules/algorithm/seed/algorithms/a-star/languages/go/exercise_test.go:22-27 | every walk from [0, 0] in the second grid has one cell |
| AStarExamples.SearchGrid2 | src/modules/algorithm/seed/algorithms/a-star/languages/go/exercise_test.go:22-34 | the search on the second grid returns the empty path |
| Permission.Rank | src/modules/permission/permission.repository.ts:325-335 | every level has a score from 1 (VIEW) to 5 (OWNER) |
| Permission.RankInjective | src/modules/permission/permission.service.ts:295-305 | different levels have different scores |
| Permission.PriorityReversesRank | src/modules/permission/permission.repository.ts:181-189 | the query's ascending level priority is the descending score |
| Permission.OwnerIsTop | src/modules/permission/permission.repository.ts:328 | OWNER has the highest score of all levels |
| Permission.HighestLevel | src/modules/permission/permission.repository.ts:320-344 | null exactly for no permissions; otherwise a level some permission has and none outranks |
| Permission.HighestLevelIsTheMaximum | src/modules/permission/permission.repository.ts:337-343 | the reduce gives the one level of maximal score, whatever the order of the list |
| Permission.RowsAt | src/modules/permission/permission.repository.ts:168-177 | the rows one ancestor contributes are exactly its active permissions held by the user or one of the user's groups |
| Permission.Rows | src/modules/permission/permission.repository.ts:150-177 | the joined rows are exactly the active, relevant permissions on an ancestor, each with the ancestor's depth |
| Permission.First | src/modules/permission/permission.repository.ts:181-191 | no row when there are none; otherwise a row that no row comes before in depth, then level order |
| Permission.Truthy | src/modules/permission/permission.repository.ts:357-361 | a column read back with the or-undefined fallback drops the empty string too |
| Permission.GroupIdsOf | src/modules/permission/permission.repository.ts:136-141 | the ids of exactly the groups the user is a member of |
| Permission.FindUserPermission | src/modules/permission/permission.repository.ts:124-214 | a non-UUID user or node id is BadRequest; otherwise null when no active permission of the user or their groups sits on the node or an ancestor, else the nearest such permission, strongest at its depth, marked inherited exactly when its depth is above 0 |
| Permission.CheckUserPermission | src/modules/permission/permission.service.ts:280-318 | invalid ids fail as the lookup does; true exactly when a permission is found whose score is at least the required level's |
| Permission.NoPermissionNoAccess | src/modules/permission/permission.service.ts:291-293 | with no permission found, every level is refused |
| Permission.CheckMonotone | src/modules/permission/permission.service.ts:317 | passing a level implies passing every weaker level |
| Permission.OwnerPassesAll | src/modules/permission/permission.service.ts:298-317 | OWNER passes every level, and any permission found passes VIEW |
| Permission.GrantPermission | src/modules/permission/permission.service.ts:29-94 | neither target is BadRequest, both targets is BadRequest; then a missing node is NotFound, a failed MANAGE check of the granting user gives that check's error, and after both a missing group is NotFound and nothing else fails; on success exactly one new row is appended, carrying the requested level, node and the one given target, and nothing else changes |
| Permission.GrantPermissionChecked | src/modules/permission/permission.service.ts:52-59 | with the MANAGE check enforced, a grant succeeds only when the granting user passes it, and then as the unchecked grant does; errors are unchanged |
| Permission.GrantIgnoresCheck | src/modules/permission/permission.service.ts:52-59 | as written, a user who holds nothing on the node still has a grant of OWNER to someone else accepted |
| Permission.CheckedGrantRefusesStranger | src/modules/permission/permission.service.ts:52-59 | with the check enforced the same grant is refused as Forbidden |
| Permission.Unmatched | src/modules/permission/permission.repository.ts:233-242 | the rows the delete keeps are exactly those its filter does not match |
| Permission.CountMatched | src/modules/permission/permission.repository.ts:238-241 | the count is the number of rows removed, and 0 exactly when no row matches |
| Permission.RevokePermission | src/modules/permission/permission.service.ts:99-130 | neither target is BadRequest; a failed MANAGE check of the revoker gives that check's error; deleting no row is NotFound; it succeeds exactly when a target is given, the check passes and some row matches, and then the count is at least one and exactly the matching rows are removed |
| Permission.RevokeBothMatchesNoGrant | src/modules/permission/permission.service.ts:104-123 | a revoke naming both a user and a group matches no row a grant created |
| Permission.IndexOf | src/modules/permission/permission.service.ts:141-145 | the first row with the id, or None exactly when no row has it |
| Permission.UpdatePermission | src/modules/permission/permission.service.ts:135-163 | an unknown id is NotFound; a failed MANAGE check of the updater on the row's node gives that check's error, and it succeeds exactly when the check passes; then that row alone takes the new level, updatedAt is now, and no row is added or removed |
| Permission.UpdateExpiry | src/modules/permission/permission.service.ts:158 | updating without an expiry keeps the old one, and the update changes nothing but level, expiry and updatedAt |
| Group.ValidateOwnerOrAdmin | src/modules/permission/group/group.service.ts:288-300 | no error exactly when the user is the group's owner or a member with role ADMIN or OWNER (per src/modules/permission/group/group.repository.ts:187-208); otherwise Forbidden |
| Group.CreateGroup | src/modules/permission/group/group.service.ts:27-42 | a new group without members, owned by the creator, public only when asked |
| Group.GetGroup | src/modules/permission/group/group.service.ts:44-70 | NotFound for a missing group; the group exactly when the requester owns it, is a member or it is public; Forbidden otherwise |
| Group.UpdateGroup | src/modules/permission/group/group.service.ts:72-89 | refused as Forbidden unless owner or admin; otherwise name, description and visibility change where given and the update time is recorded |
| Group.UpdateMissingIsForbidden | src/modules/permission/group/group.service.ts:77 | an update of a group that does not exist fails the owner-or-admin test first and is Forbidden, not NotFound |
| Group.DeleteGroup | src/modules/permission/group/group.service.ts:93-105 | NotFound for a missing group; only the owner may delete it, and only that group goes |
| Group.AdminCannotDelete | src/modules/permission/group/group.service.ts:100-102 | an admin who is not the owner passes the owner-or-admin test but cannot delete |
| Group.UserGroups | src/modules/permission/group/group.service.ts:110-123 | exactly the groups the user owns, and exactly those the user is a member of |
| Group.PublicGroups | src/modules/permission/group/group.service.ts:128-130 | exactly the public groups |
| Group.ListedIsViewable | src/modules/permission/group/group.service.ts:44-130 | a group is viewable by a user exactly when a listing shows it to them: owned, joined or public |
| Group.AddGroupMember | src/modules/permission/group/group.service.ts:135-170 | NotFound for a missing group; a private group, or a role other than MEMBER, needs owner or admin, else Forbidden; an existing member is a Conflict; it succeeds exactly when none of these holds, and then the user is added with the role given, MEMBER by default |
| Group.PublicAddIsOpen | src/modules/permission/group/group.service.ts:144-152 | in a public group anyone may add a new member as MEMBER or with the default role |
| Group.RemoveGroupMember | src/modules/permission/group/group.service.ts:175-212 | NotFound for a missing group or a non-member; Forbidden unless removing oneself or owner or admin; the owner cannot be removed (BadRequest); it succeeds exactly when none of these holds, and then only that member goes |
| Group.OwnerNeverRemoved | src/modules/permission/group/group.service.ts:205-207 | no removal takes out the owner's member row |
| Group.AddThenLeave | src/modules/permission/group/group.service.ts:135-212 | adding a new non-owner member who then leaves gives back the groups unchanged |
| Group.UpdateGroupMemberRole | src/modules/permission/group/group.service.ts:215-246 | NotFound for a missing group or a non-member; Forbidden unless owner or admin; the owner's own row is BadRequest; it succeeds exactly when none of these holds, and then that member alone takes the new role |
| Group.JoinPublicGroup | src/modules/permission/group/group.service.ts:252-281 | NotFound for a missing group, Forbidden for a private one, Conflict for an existing member; otherwise the user joins as MEMBER |
| Group.JoinIsSelfAdd | src/modules/permission/group/group.service.ts:252-281 | joining succeeds exactly when adding oneself with the default role would, and does the same |
| Group.JoinedMayView | src/modules/permission/group/group.service.ts:252-281 | after joining, the user may view the group |
| Onboarding.RoundDiv | src/modules/onboarding/services/onboarding.service.ts:140 | Math.round of a quotient: the nearest integer, halves rounded up |
| Onboarding.Points | src/modules/onboarding/services/onboarding.service.ts:124-137 | 0, 50 or 100 points for a familiarity, 0 when no value was given |
| Onboarding.Total | src/modules/onboarding/services/onboarding.service.ts:135-138 | the summed points lie between 0 and 100 per answer |
| Onboarding.QuizScore | src/modules/onboarding/services/onboarding.service.ts:123-141 | 0 without answers; otherwise the mean of the points rounded half up, between 0 and 100 |
| Onboarding.UniformTotal | src/modules/onboarding/services/onboarding.service.ts:135-138 | answers all worth the same points sum to that many points per answer |
| Onboarding.UniformScore | src/modules/onboarding/services/onboarding.service.ts:123-141 | all VERY_FAMILIAR answers score 100 and all UNFAMILIAR answers score 0 |
| Onboarding.BaseCount | src/modules/onboarding/services/onboarding.service.ts:183 | one per whole half hour of study, and at least 1 |
| Onboarding.DailyAlgorithms | src/modules/onboarding/services/onboarding.service.ts:182-186 | at least 1 and at most the base count |
| Onboarding.DailyAlgorithmsMonotone | src/modules/onboarding/services/onboarding.service.ts:184-185 | a higher score never recommends fewer algorithms a day |
| Onboarding.DailyAlgorithmsByCommitment | src/modules/onboarding/services/onboarding.service.ts:150-186 | LOW gives 1 a day; MEDIUM 1 below a score of 50, else 2; HIGH 2, 3 or 4 as the score passes 50 and 75 |
| Onboarding.WeakAreas | src/modules/onboarding/services/onboarding.service.ts:176-180 | exactly the topics answered UNFAMILIAR, in key order |
| Onboarding.Topics | src/modules/onboarding/services/onboarding.service.ts:130-160 | the topics in key order |
| Onboarding.WeakAreasDistinct | src/modules/onboarding/services/onboarding.service.ts:176-180 | with distinct keys the weak areas have no repeats |
| Onboarding.Dedup | src/modules/onboarding/services/onboarding.service.ts:192 | the distinct elements, each at its first occurrence |
| Onboarding.DedupPrefix | src/modules/onboarding/services/onboarding.service.ts:192 | the set of a longer list starts with the set of its prefix |
| Onboarding.DedupDistinct | src/modules/onboarding/services/onboarding.service.ts:192 | a list without repeats is its own set |
| Onboarding.RecommendedTopics | src/modules/onboarding/services/onboarding.service.ts:188-194 | at most five distinct topics, each a weak area or a topic |
| Onboarding.RecommendedWeakFirst | src/modules/onboarding/services/onboarding.service.ts:192-193 | distinct weak areas come first, in their own order |
| Onboarding.FewTopicsAllRecommended | src/modules/onboarding/services/onboarding.service.ts:192-193 | with at most five distinct topics, every topic is recommended |
| Onboarding.DifficultyLevel | src/modules/onboarding/services/onboarding.service.ts:196-201 | beginner below 40; below 70 beginner for beginners and intermediate otherwise; from 70 the user's own level |
| Onboarding.DifficultyOrdered | src/modules/onboarding/services/onboarding.service.ts:196-201 | for the three known levels, the recommendation never exceeds the user's own and never falls as the score rises |
| Onboarding.Milestones | src/modules/onboarding/services/onboarding.service.ts:215-238 | four weeks numbered 1 to 4; week 1 takes the first two topics, week 2 the next two, week 3 the rest, and week 4 all of them |
| Onboarding.MakeStudyPlan | src/modules/onboarding/services/onboarding.service.ts:203-213 | the first three weak areas, practice 60% and theory and review 20% each of the study time, rounded, and the milestones over all topics |
| Onboarding.AllocationNearTotal | src/modules/onboarding/services/onboarding.service.ts:206-210 | the three rounded shares add up to the study time give or take one minute |
| Onboarding.RecommendedFromAnswers | src/modules/onboarding/services/onboarding.service.ts:159-165 | every recommended topic is a key of the answers |
| Onboarding.MakeRecommendations | src/modules/onboarding/services/onboarding.service.ts:143-174 | from a score, a study time and a level: at least one algorithm a day, at most five distinct recommended topics all from the answers, at most three focus areas all answered UNFAMILIAR, and four milestones ending with all topics |
| Onboarding.WeakAreasLead | src/modules/onboarding/services/onboarding.service.ts:159-165 | with distinct keys, the unfamiliar topics lead the recommended ones |
| Onboarding.GetState | src/modules/onboarding/services/onboarding.service.ts:43-52 | the stored state, or a new one at WELCOME, not completed, stored under the user |
| Onboarding.GetStateIdempotent | src/modules/onboarding/services/onboarding.service.ts:43-52 | reading twice creates the state at most once |
| Onboarding.UpdateState | src/modules/onboarding/services/onboarding.service.ts:54-70 | the given step or else the stored one, and the completion flag only when given; nothing else changes |
| Onboarding.EmptyUpdateIsRead | src/modules/onboarding/services/onboarding.service.ts:54-70 | an update with nothing in it only reads the state |
| Onboarding.SaveGoals | src/modules/onboarding/services/onboarding.service.ts:72-83 | the goals are stored as the repository's row, which keeps the study time and not the commitment; the step moves to QUIZ, with completion and quiz untouched |
| Onboarding.RowOf | src/modules/onboarding/repositories/onboarding.repository.ts:66-95 | the stored row has study time 30, 60 or 120 for the commitment, the focus areas as both learning goals and preferred topics, and the experience level |
| Onboarding.SubmitQuiz | src/modules/onboarding/services/onboarding.service.ts:85-121 | BadRequest exactly when the state read (and created if missing) has no goals, and the store returned beside that error keeps the created state; otherwise the answers, their score and the recommendations computed from the stored row's study time are stored, the step is SUMMARY and onboarding is completed |
| Onboarding.Recommend | src/modules/onboarding/services/onboarding.service.ts:143-174 | the daily count, difficulty and study plan computed from the stored row's study time and level |
| Onboarding.GoalsThenQuizCompletes | src/modules/onboarding/services/onboarding.service.ts:72-121 | saving goals and then submitting a quiz always completes onboarding at SUMMARY with the stored row; the daily count follows the study time of the chosen commitment and the difficulty the chosen level |
| Onboarding.QuizAfterGoalsIsNaN | src/modules/onboarding/services/onboarding.service.ts:150-156 | after saving goals, submitting a quiz gives NaN for the daily count and the practice, theory and review minutes |
| Onboarding.StoredStudyTimeCounts | src/modules/onboarding/repositories/onboarding.repository.ts:66-95 | reading the study time the row stores gives the finite counts of the chosen commitment, the daily count at least 1 |
| Json.Get | src/modules/content/content.service.ts:498-502 | property access: the field of an object, undefined for a missing field and for any other value |
| Json.TruthyObjectType | src/modules/content/content.service.ts:519 | a truthy value of type 'object' is exactly an array or an object |
| Json.DigitsRoundTrip | src/modules/content/content.service.ts:294-302 | the key of a position reads back as the position |
| Json.DigitsInjective | src/modules/content/content.service.ts:294-302 | distinct positions have distinct keys |
| Json.Positions | src/modules/content/content.service.ts:294-302 | spreading an array or string gives one field per position, keyed by its digits |
| Json.Merge | src/modules/content/content.service.ts:293-303 | object spread of two values: every field of the second, and the fields of the first that the second lacks |
| Json.MergeObjects | src/modules/content/content.service.ts:293-303 | merging two objects is map union with the second winning; merging with null or an empty object copies the first |
| Content.ItemScanMeaning | src/modules/content/content.service.ts:503-507 | the inner loop finds the item only when some content item has that id; without null items it answers exactly whether one does |
| Content.ChunkScanMeaning | src/modules/content/content.service.ts:500-510 | found means some chunk holds an item with that id; without nulls the loops answer exactly whether one does |
| Content.NoChunksNoItem | src/modules/content/content.service.ts:500-511 | a body without a chunks array holds no item |
| Content.ItemExistsInLessonBody | src/modules/content/content.service.ts:498-512 | the two nested loops, returning on the first match, give the search's answer, a null chunk or item throwing |
| Content.ItemInChunk | src/modules/content/content.service.ts:502-508 | the inner loop over one chunk's content gives the scan's answer |
| Content.IsInteractiveItemPresent | src/modules/content/content.service.ts:514-534 | false for a body that is not a non-null object, for a lesson event without an item id, and for anything but a lesson event on a lesson; true only when the lesson body holds the item, and for a lesson event with an item id on a lesson whose object body has no null chunk or item, exactly whether the body holds the item |
| Content.Current | src/modules/content/content.service.ts:671-678 | the interaction body logged into is an object with items and version '1.0': the stored one when it is such, else a fresh empty one |
| Content.NewEvent | src/modules/content/content.service.ts:661-666 | the event is an object with its id, time stamp and type, and a payload exactly when data was given |
| Content.IndexKey | src/modules/content/content.service.ts:680-685 | the index of an array that a property name reads: below the length and written as that name, or None when no index is |
| Content.Write | src/modules/content/content.service.ts:685 | the write `items[itemId] = log` sets that item's log and leaves every other key's log |
| Content.LogEvent | src/modules/content/content.service.ts:680-685 | the item's log (`items[itemId] || { events: [] }`) gets the event pushed at its end and the other items stay, both for object items and for an index of array items; a log without an events array or a primitive items value throws; any other key on array items is lost, so the body is unchanged |
| Content.TwoEvents | src/modules/content/content.service.ts:680-685 | two events for two different items land each in its own log, in order |
| Content.ArrayItemsLog | src/modules/content/content.service.ts:680-685 | on array items, the key "0" replaces a null first element by a log holding the event, while a key naming no element leaves the body unchanged |
| Content.AddUserInteraction | src/modules/content/content.service.ts:607-649 | Forbidden without INTERACT permission, NotFound for a missing node, BadRequest when the item is not present or the event is not a lesson event; otherwise the event built from the interaction's type and data is logged under the item. For a permitted lesson event with an item id on a lesson whose object body has no null chunk or item (`LessonItemRequest`): the logged body (or the log's thrown error) exactly when the body holds the item, and BadRequest exactly when it does not |
| Content.EditContentNode | src/modules/content/content.service.ts:262-307 | NotFound, then Forbidden without EDIT permission; the status is replaced when given, body and metadata are spread-merged with the edit's fields winning, and absent fields stay |
| Content.EditIdempotent | src/modules/content/content.service.ts:286-306 | an edit with no fields changes nothing; editing twice with the same object body equals editing once |
| Content.InsertKeeps | src/modules/content/content.service.ts:448-452 | inserting a lesson keeps the lessons sorted by creation time, adding just that lesson |
| Content.SortByCreation | src/modules/content/content.service.ts:448-452 | the lessons ordered oldest to newest, a permutation of those found |
| Content.GetModule | src/modules/content/content.service.ts:402-460 | an empty user id is an error, a node that is not a module NotFound with its id in the message; without a permission a private module is Forbidden and a public one grants its default permission; it succeeds exactly when the user id is given, the node is a module and a permission is held or the module is public, and then the lessons come sorted by creation time |
| Content.ChildLessonsSnoc | src/modules/content/content.repository.ts:151-170 | one more link adds its target when it is a lesson linked from the parent |
| Content.ArchiveAll | src/modules/content/content.service.ts:150-156 | every given node is archived and every other node is as before |
| Content.AddLessons | src/modules/content/content.service.ts:160-176 | the new lessons take the new ids and every old node stays |
| Content.LinksToEach | src/modules/content/content.service.ts:170-174 | one DEPENDENCY link from the module to each new lesson, in order |
| Content.OwnerGrantsEach | src/modules/content/content.service.ts:161-169 | one OWNER grant of each new lesson to its creator, in order |
| Content.EntitiesEach | src/modules/content/content.service.ts:175-178 | the returned entities, one per input in input order, each carrying the module id |
| Content.ContentStore.constructor | src/modules/content/content.repository.ts:27-170 | the store starts with the given nodes and links and no grants |
| Content.ContentStore.FindChildLessons | src/modules/content/content.repository.ts:151-170 | each lesson linked from the parent once, and nothing else |
| Content.ContentStore.ArchiveLessons | src/modules/content/content.service.ts:150-156 | every old lesson archived, links and grants unchanged |
| Content.ContentStore.CreateLessons | src/modules/content/content.service.ts:160-176 | one new lesson per input, stored, linked and granted in order, the entities returned |
| Content.ContentStore.UpsertLessons | src/modules/content/content.service.ts:122-179 | NotFound unless the id names a module, Forbidden without EDIT permission, and it succeeds exactly when neither holds; then every old lesson of the module is archived and one new lesson per input is created, linked to the module and owned by the user |
| Content.UpsertOutcome | src/modules/content/content.service.ts:145-176 | after an upsert with fresh distinct ids, the old lessons are all archived, nothing else old changes, and each new lesson is stored as created from its input |
| Content.AddLessonsLookup | src/modules/content/content.service.ts:160-176 | each new lesson is stored under its id and every other node is kept |
| LessonInteraction.ExtractItemId | src/modules/content/services/lesson-interaction.service.ts:92-100 | the quiz id of a quiz answer and the question id of a question submission; a missing payload throws; any other type is BadRequest |
| LessonInteraction.NoChunksNoItem | src/modules/content/services/lesson-interaction.service.ts:109-115 | a body without chunks holds no item |
| LessonInteraction.SomeItemMeaning | src/modules/content/services/lesson-interaction.service.ts:111-113 | the inner some finds an item only when some item's id is strictly equal to the one sought; without null items it answers exactly whether one is |
| LessonInteraction.SomeChunkMeaning | src/modules/content/services/lesson-interaction.service.ts:110-115 | found means some chunk holds the item; on well-shaped chunks the search answers exactly that |
| LessonInteraction.SearchesAgree | src/modules/content/services/lesson-interaction.service.ts:105-116 | on a lesson without nulls and a string item id, this search and the one of content.service agree |
| LessonInteraction.GetOrCreateBody | src/modules/content/services/lesson-interaction.service.ts:66-71 | a well-formed interaction body is kept; anything else becomes an empty one with version '1.0' |
| LessonInteraction.Append | src/modules/content/services/lesson-interaction.service.ts:49-52 | the events gain the new event at their end and every other field stays |
| LessonInteraction.HandleLessonInteraction | src/modules/content/services/lesson-interaction.service.ts:27-61 | a type that is not a lesson event, a missing payload or a failed search gives that error; an item not in the lesson body is ItemNotFound; it succeeds exactly when the item id is extracted and found, and then the result is the stored body, or an empty one, with the event appended |
| LessonInteraction.TwoInteractions | src/modules/content/services/lesson-interaction.service.ts:27-61 | two valid events are logged in order after every earlier event |
| AlgorithmLoader.Classify | src/modules/algorithm/seed/algorithm-loader.util.ts:159-168 | a name containing 'exercise' is an exercise; otherwise one containing 'solution' a solution; otherwise one containing 'test' a test; anything else an exercise |
| AlgorithmLoader.ClassifyOrder | src/modules/algorithm/seed/algorithm-loader.util.ts:159-168 | a name mentioning both solution and test is a solution, and one mentioning none of the words is an exercise |
| AlgorithmLoader.LanguageOf | src/modules/algorithm/seed/algorithm-loader.util.ts:121-144 | None exactly for a folder whose lower-cased name is not one of the six supported languages |
| AlgorithmLoader.LanguageIgnoresCase | src/modules/algorithm/seed/algorithm-loader.util.ts:122 | folder names that differ only in case give the same language |
| AlgorithmLoader.LastDot | src/modules/algorithm/seed/algorithm-loader.util.ts:156-157 | the index of the last dot, or None when there is none |
| AlgorithmLoader.ParseFile | src/modules/algorithm/seed/algorithm-loader.util.ts:156-157 | the extension holds no dot and, when present, the name, a dot and the extension make up the file name |
| AlgorithmLoader.FileOf | src/modules/algorithm/seed/algorithm-loader.util.ts:155-186 | the file's name is the parsed name, its type the classification of it, and it is read-only and hidden exactly when it is a solution |
| AlgorithmLoader.EntryFiles | src/modules/algorithm/seed/algorithm-loader.util.ts:146-187 | the files of a language folder are exactly the loaded forms of its regular entries, at most one per entry |
| AlgorithmLoader.DirFiles | src/modules/algorithm/seed/algorithm-loader.util.ts:113-188 | a file is loaded exactly when it is a file of a directory named after a supported language |
| AlgorithmLoader.LoadAlgorithmFiles | src/modules/algorithm/seed/algorithm-loader.util.ts:102-191 | no languages directory gives no files; otherwise the regular files of the supported language folders, one loaded file each, in order |
| AlgorithmLoader.LoadLanguage | src/modules/algorithm/seed/algorithm-loader.util.ts:146-187 | one loaded file per regular entry of a language folder, in the folder's order |
| AlgorithmLoader.LoadedFilesShape | src/modules/algorithm/seed/algorithm-loader.util.ts:113-188 | every loaded file comes from a supported language folder and is read-only and hidden exactly when a solution |
| AlgorithmLoader.EntryFilesLanguage | src/modules/algorithm/seed/algorithm-loader.util.ts:148-187 | the files of one folder carry that folder's language |
| AlgorithmLoader.LeadingDigits | src/modules/algorithm/seed/algorithm-loader.util.ts:205-206 | the longest prefix of decimal digits |
| AlgorithmLoader.LessonNumber | src/modules/algorithm/seed/algorithm-loader.util.ts:205-206 | 0 for a file name without a digits-and-underscore prefix |
| AlgorithmLoader.LessonNumberReadsPrefix | src/modules/algorithm/seed/algorithm-loader.util.ts:205-206 | a file name that starts with a number's decimal form and an underscore sorts by that number |
| AlgorithmLoader.InsertLessonKeeps | src/modules/algorithm/seed/algorithm-loader.util.ts:204-208 | inserting a lesson keeps the lessons sorted by number, adding just that lesson |
| AlgorithmLoader.SortLessons | src/modules/algorithm/seed/algorithm-loader.util.ts:204-208 | the lessons in ascending prefix number, a permutation of the files |
| AlgorithmLoader.SortLessonsStable | src/modules/algorithm/seed/algorithm-loader.util.ts:204-208 | the sort is stable: for every prefix number, the lessons carrying it come out in their input order |
| AlgorithmLoader.UnnumberedFirst | src/modules/algorithm/seed/algorithm-loader.util.ts:205-207 | a lesson without a prefix sorts before every lesson numbered 1 or more |
| AlgorithmLoader.DropNumber | src/modules/algorithm/seed/algorithm-loader.util.ts:227 | the digits-and-underscore prefix removed when there is one, the name unchanged otherwise |
| AlgorithmLoader.DropMd | src/modules/algorithm/seed/algorithm-loader.util.ts:228 | a trailing '.md' removed when there is one, the name unchanged otherwise |
| AlgorithmLoader.Spaces | src/modules/algorithm/seed/algorithm-loader.util.ts:229 | every underscore replaced by a space, every other character kept |
| AlgorithmLoader.FirstSpace | src/modules/algorithm/seed/algorithm-loader.util.ts:230 | the index of the first space, or None |
| AlgorithmLoader.Split | src/modules/algorithm/seed/algorithm-loader.util.ts:230 | splitting on spaces gives at least one word |
| AlgorithmLoader.TitleCase | src/modules/algorithm/seed/algorithm-loader.util.ts:230-232 | title case keeps the length |
| AlgorithmLoader.TitleCaseWord | src/modules/algorithm/seed/algorithm-loader.util.ts:231 | within a word, every character but the first is kept |
| AlgorithmLoader.SplitJoinIsTitleCase | src/modules/algorithm/seed/algorithm-loader.util.ts:230-232 | splitting on spaces, capitalising each word and joining is title case of the whole string |
| AlgorithmLoader.DerivedTitle | src/modules/algorithm/seed/algorithm-loader.util.ts:226-232 | the title derived from a file name is the title case of the name without number prefix and '.md', with underscores as spaces; it has no underscores |
| AlgorithmLoader.LessonTitle | src/modules/algorithm/seed/algorithm-loader.util.ts:224-232 | the front matter's title when it is a non-empty string, else the derived title, which has no underscores |
| AlgorithmLoader.RegularFiles | src/modules/algorithm/seed/algorithm-loader.util.ts:210-216 | exactly the entries that are regular files, in their order, and all of them when every entry is one |
| AlgorithmLoader.LessonsOf | src/modules/algorithm/seed/algorithm-loader.util.ts:210-244 | one lesson per regular file of the sorted list, in that order, with the file's title and content; directories give none |
| AlgorithmLoader.LoadLessons | src/modules/algorithm/seed/algorithm-loader.util.ts:193-245 | no lessons directory gives no lessons; otherwise one lesson per regular file of the files sorted by number, in that order, titled by LessonTitle and carrying the file's content |
| AlgorithmLoader.TemplateOf | src/modules/algorithm/seed/algorithm-loader.util.ts:42-94 | a template exactly for a directory with a parsed index whose id, title and difficulty are truthy |
| AlgorithmLoader.LoadTemplates | src/modules/algorithm/seed/algorithm-loader.util.ts:13-100 | at most one template per directory, each with its required fields |
| AlgorithmLoader.TemplatesAreTheValidOnes | src/modules/algorithm/seed/algorithm-loader.util.ts:41-95 | the templates are exactly those of the directories that are not skipped |
| AlgorithmGeneration.LowerChar | src/modules/education/agents/algorithm-generation.agent.ts:398 | an upper-case ASCII letter becomes its lower-case letter and any other character stays |
| AlgorithmGeneration.Lower | src/modules/education/agents/algorithm-generation.agent.ts:398 | the same length, each character lower-cased |
| AlgorithmGeneration.LowerIdempotent | src/modules/education/agents/algorithm-generation.agent.ts:398 | lower-casing twice is lower-casing once |
| AlgorithmGeneration.Strip | src/modules/education/agents/algorithm-generation.agent.ts:399 | only word characters, white space and dashes of the input remain |
| AlgorithmGeneration.DropSeparators | src/modules/education/agents/algorithm-generation.agent.ts:400 | the suffix after a leading run of separators |
| AlgorithmGeneration.Collapse | src/modules/education/agents/algorithm-generation.agent.ts:400 | collapsing never lengthens the string |
| AlgorithmGeneration.CollapseShape | src/modules/education/agents/algorithm-generation.agent.ts:400 | each run of white space, underscores and dashes becomes one underscore: no two underscores in a row and no other separator left |
| AlgorithmGeneration.DropLeadingDashes | src/modules/education/agents/algorithm-generation.agent.ts:401 | a string without dashes is unchanged |
| AlgorithmGeneration.DropTrailingDashes | src/modules/education/agents/algorithm-generation.agent.ts:401 | a string without dashes is unchanged |
| AlgorithmGeneration.TrimDashes | src/modules/education/agents/algorithm-generation.agent.ts:401 | trimming dashes keeps only characters of the input |
| AlgorithmGeneration.NoDashTrim | src/modules/education/agents/algorithm-generation.agent.ts:401 | trimming dashes from a string without dashes changes nothing, so the last step of slugify is inert |
| AlgorithmGeneration.Slugify | src/modules/education/agents/algorithm-generation.agent.ts:396-402 | a slug holds only lower-case letters, digits and underscores, never two underscores in a row |
| AlgorithmGeneration.CollapseSlug | src/modules/education/agents/algorithm-generation.agent.ts:400 | a slug is unchanged by the collapsing step |
| AlgorithmGeneration.StripSlug | src/modules/education/agents/algorithm-generation.agent.ts:399 | a slug is unchanged by the stripping step |
| AlgorithmGeneration.SlugifyIdempotent | src/modules/education/agents/algorithm-generation.agent.ts:396-402 | the slug of a slug is itself |
| AlgorithmGeneration.SlugifyIgnoresCase | src/modules/education/agents/algorithm-generation.agent.ts:398 | a title and its lower-cased form give the same slug |
| AlgorithmGeneration.StripKept | src/modules/education/agents/algorithm-generation.agent.ts:399 | a string made only of word characters, white space and dashes is not changed by stripping |
| AlgorithmGeneration.CollapsePlain | src/modules/education/agents/algorithm-generation.agent.ts:400 | a prefix without separators passes through collapsing unchanged |
| AlgorithmGeneration.CollapseTwoWords | src/modules/education/agents/algorithm-generation.agent.ts:400 | two words without separators around one space collapse to the words around an underscore |
| AlgorithmGeneration.SlugifyTwoWords | src/modules/education/agents/algorithm-generation.agent.ts:396-402 | a title of two words of letters, such as "Hello World", has as slug the lower-cased words joined by an underscore, "hello_world" |
| AlgorithmGeneration.FileExtension | src/modules/education/agents/algorithm-generation.agent.ts:370-391 | one of the sixteen mapped extensions, or 'txt' exactly when the lower-cased language is not mapped |
| AlgorithmGeneration.Extension | src/modules/education/agents/algorithm-generation.agent.ts:371-390 | the extension of a lower-cased language name, 'txt' exactly for an unmapped one |
| AlgorithmGeneration.FileExtensionIgnoresCase | src/modules/education/agents/algorithm-generation.agent.ts:390 | the extension does not depend on case |
| AlgorithmGeneration.AliasesAgree | src/modules/education/agents/algorithm-generation.agent.ts:376-380 | C++ and cpp give cpp; C# and csharp give cs |
| AlgorithmGeneration.FallbackFiles | src/modules/education/agents/algorithm-generation.agent.ts:236-270 | three files, a template, a solution and a test, each with one role, named after the title's slug with its own suffix and the language's extension, carrying the lower-cased language; the template and solution hold the given structures and the test holds `// Basic test for ` followed by the title |
| AlgorithmGeneration.CharAt | src/modules/education/agents/algorithm-generation.agent.ts:246-262 | a character of the middle part of a name is found at its offset |
| AlgorithmGeneration.FallbackNamesDistinct | src/modules/education/agents/algorithm-generation.agent.ts:246-262 | the three fallback names differ, so no file overwrites another |
| Keycloak.Trim | src/modules/auth/services/keycloak-database.service.ts:167-168 | the trimmed name is a slice of the input that neither starts nor ends with white space, and everything cut off around it is white space |
| Keycloak.TrimStart | src/modules/auth/services/keycloak-database.service.ts:167-168 | a suffix of the input that does not start with white space, everything dropped before it being white space |
| Keycloak.TrimEnd | src/modules/auth/services/keycloak-database.service.ts:167-168 | a prefix of the input that does not end with white space, keeping a non-space first character, everything dropped after it being white space |
| Keycloak.PresentIff | src/modules/auth/services/keycloak-database.service.ts:167-171 | a name counts exactly when it is given and holds a character that is not white space |
| Keycloak.TrimBlank | src/modules/auth/services/keycloak-database.service.ts:167-168 | a string trims to nothing exactly when it is all white space |
| Keycloak.FormatUserName | src/modules/auth/services/keycloak-database.service.ts:162-173 | both trimmed names joined by a space when both are present, the present one when only one is, else the user name |
| Keycloak.FormattedNameTrimmed | src/modules/auth/services/keycloak-database.service.ts:162-173 | whenever a first or last name is present the display name is non-empty and has no padding at either end |
| Keycloak.BlankNamesGiveUsername | src/modules/auth/services/keycloak-database.service.ts:167-172 | names made only of white space count as missing and the user name is used |
| Keycloak.InfoOf | src/modules/auth/services/keycloak-database.service.ts:96-100 | the info carries the row's id, its formatted name and its e-mail, or the user name when the e-mail is null |
| Keycloak.Matching | src/modules/auth/services/keycloak-database.service.ts:120-134 | a row is returned exactly when it is in the table, its id was asked for, it belongs to the realm and is enabled |
| Keycloak.InfoMap | src/modules/auth/services/keycloak-database.service.ts:148-154 | the map's keys are exactly the returned rows' ids |
| Keycloak.InfoMapKeys | src/modules/auth/services/keycloak-database.service.ts:148-154 | each entry of the map is the info of a returned row with that id |
| Keycloak.InfoMapLastWins | src/modules/auth/services/keycloak-database.service.ts:148-154 | the entry of an id is the info of the last row with that id, a later row replacing an earlier one |
| Keycloak.KeycloakDatabase.constructor | src/modules/auth/services/keycloak-database.service.ts:10-14 | a new service is unavailable, has no pool and no realm |
| Keycloak.KeycloakDatabase.Init | src/modules/auth/services/keycloak-database.service.ts:16-47 | the realm is recorded; without a URL or realm nothing else changes; otherwise the pool exists exactly when the smoke test succeeds, and the service is then available exactly when it did |
| Keycloak.KeycloakDatabase.IsAvailable | src/modules/auth/services/keycloak-database.service.ts:60-62 | available exactly when a smoke test has passed and the pool still exists |
| Keycloak.KeycloakDatabase.HasRealm | src/modules/auth/services/keycloak-database.service.ts:65 | the realm is configured exactly when it is given and non-empty |
| Keycloak.KeycloakDatabase.GetUserById | src/modules/auth/services/keycloak-database.service.ts:64-105 | null without the database or a realm or when the query fails; a result is the info of an enabled user of the realm with that id, and such a user is always found |
| Keycloak.KeycloakDatabase.GetUsersByIds | src/modules/auth/services/keycloak-database.service.ts:107-160 | an empty map without the database, a realm or ids, or on a failed query; otherwise the map built from the matching rows |
| Keycloak.FillMap | src/modules/auth/services/keycloak-database.service.ts:148-154 | the loop over the returned rows builds exactly the map of their infos, a later row with the same id replacing an earlier one |
| Keycloak.BulkLookupKeys | src/modules/auth/services/keycloak-database.service.ts:107-160 | an id is in the bulk result exactly when it was asked for and an enabled user of the realm has it |
| ContentElements.ClassOf | src/modules/chat/dto/agent-chat.dto.ts:515-543 | a class found for a tag is the class whose tag it is |
| ContentElements.ClassOfTag | src/modules/chat/dto/agent-chat.dto.ts:515-541 | every one of the thirteen classes is selected by its own tag |
| ContentElements.TagInjective | src/modules/chat/dto/agent-chat.dto.ts:515-541 | no two classes share a tag |
| ContentElements.ThirteenClasses | src/modules/chat/dto/agent-chat.dto.ts:497-510 | there are thirteen element classes, each with its own tag |
| ContentElements.Create | src/modules/chat/dto/agent-chat.dto.ts:495-546 | a missing element or falsy type is refused as type required; a created element carries all of the input's fields and the class whose tag the type is; any other type is refused as unknown |
| ContentElements.KnownTagAccepted | src/modules/chat/dto/agent-chat.dto.ts:515-541 | an object whose type is a class's tag becomes an instance of that class with the same fields |
| ContentElements.CreateRoundTrip | src/modules/chat/dto/agent-chat.dto.ts:495-546 | creating again from the fields of a created element gives the same element |

## Left out

- Numbers are unbounded integers. JavaScript's double-precision numbers and overflow are not modelled. `NaN` is modelled only where the onboarding service computes with an undefined study time (`Onboarding.QuizAfterGoalsIsNaN`). Where the source rounds a ratio, `Math.round(p / q)` is computed exactly on integers (`Onboarding.RoundDiv`).
- The scheduler service is not part of this model, because it computes with floating-point `exp` and `log`.
- LLM agents, search providers, controllers, chat streaming, the logger, tracing and configuration are not part of this model. They are network, streaming and infrastructure code.
- Prisma repositories are in-memory values:
  - the permission, group and content tables are maps or sequences;
  - the recursive ancestor query of `findUserPermissionWithInheritance` is the `Env.ancestors` function;
  - the database's fresh ids are parameters.
- Answers from other services and from the runtime are parameters:
  - permission checks, the clock and UUID generation;
  - the `isUUID` test (`Env.isUuid`);
  - a module's children passed to `getModule`;
  - a failed Keycloak query (`queryFails`);
  - the Keycloak connection's smoke test (`smokeTestOk`).
- The Keycloak connection pool, the SQL text, logging and `onModuleDestroy` are not modelled. The pool is a flag and the user table is a sequence of rows.
- `interaction.dto.ts` and `algorithm.interface.ts` are not part of this model. The interaction event types are `QuizAnswer`, `QuestionSubmit` and `OtherEvent(name)`. `isQuizAnswerEvent` is taken to be a test of the event type.
- Error messages whose wording depends on those files are structured values (`ItemNotFound`, `InvalidEventType`) rather than message strings.
- `ContentElements.Create`: the DTO instance is modelled as its class tag plus the copied field map, and the `Unknown content element type` error keeps the offending value rather than its string form.
- `Content.LogEvent`: when the stored `items` is an array, a canonical index below the array's length reads and writes that element. A key that is not an index sets a named property, which serialisation drops; the model leaves the body unchanged, as the source does. A canonical index at or past the length grows the array, and the serialised body keeps the new log, after null holes when the index is past the end. The model does not capture this growth and leaves the body unchanged there too. The `length` key is not modelled.
- `AlgorithmLoader.LessonTitle`: the front-matter title is a string or absent. A truthy title of another type, which the source would store as it is, is not modelled.
- `AlgorithmLoader.LoadLessons`: a file whose front matter fails to parse is skipped by the source's `catch`. The model takes every file's front matter as parsed and does not capture that skip.
- `CycleDetection.HasCycleInGraph`: requires every successor to be a vertex index. For a successor that is not, the source reads `graph[neighbor]` as undefined and throws a TypeError when it iterates it, unless a cycle was found first.
- `ArticulationPoints.Run`: requires every successor to be a vertex index. For one that is not, the source throws a TypeError when it reads `graph[v].length`.
- `Object.keys` order is taken as the order of the keys as given. Keys inherited from `Object.prototype` are not modelled in the language map of the seed loader, nor in `getFileExtension`.
- `AlgorithmGeneration.Lower`: `toLowerCase` is modelled on ASCII letters only, while the source lower-cases all of Unicode. The same holds for `AlgorithmLoader.UpperChar` and `toUpperCase`.
- `AlgorithmLoader.ParseFile`: `path.parse` is modelled for file names as the catalogue has them. Names made only of dots are not modelled beyond the leading-dot and `..` rules.
- `Onboarding.SaveGoals`, `Onboarding.RowOf`, `Onboarding.SubmitQuiz`: the model follows the goals and answers types that the service and the repository import (onboarding.service.ts:7-14, onboarding.repository.ts:3-8): a time commitment of LOW, MEDIUM or HIGH, focus areas, a level, and a map from topic to familiarity. `dto/onboarding.dto.ts` as shipped exports neither `TimeCommitment` nor `QuizAnswersMap` nor `TopicFamiliarity`. Its goals DTO carries a `studyTime` (an integer from 5 to 240) and its quiz DTO an `answers` array. As shipped, the TypeScript compiler rejects these imports, and in code emitted regardless evaluating `TimeCommitment.LOW` (onboarding.repository.ts:68, onboarding.service.ts:151) or `TopicFamiliarity.UNFAMILIAR` (onboarding.service.ts:125) reads a property of `undefined` and throws a TypeError. The model does not cover that, nor the DTO shapes.
- `Onboarding`: the order of keys in the returned objects and the free-text fields of the recommendations are not modelled.
- `SeedSorts`: the sorts are proved sorted and permutations of their input. Stability is not claimed.
- `Content.SortByCreation`: the lessons are proved ordered oldest to newest and a permutation of the input. Stability among equal creation times is not claimed.
- `Group.UserGroups`: the order of the returned ids is not modelled, only the set of them.
- `SeedGraph.Graph.Dfs`: the exact visiting order of the catalogue's fixtures (`[0,1,3,2,4,5]` for dfs) is not derived. The same holds for `SeedGraph.Graph.Bfs` (`[0,1,2,3,4,5]`). The model proves what every order must satisfy: start first, no repeats, exactly the reachable vertices and, for bfs, level order.
- `GraphListBfs.Bfs`: the order among vertices at the same level is not stated, only level order.
- In-place relinking in the search trees is modelled on values:
  - `BinaryTreeSearch`, `Avl` and `RedBlack` rebuild subtrees rather than relinking nodes;
  - the red-black tree's parent links are replaced by a zipper path;
  - node identity, aliasing and parent-link consistency are not captured.
- `Avl.InsertBalanced`: balance is proved only when the inserted key is not already in the tree, because an equal key can leave a balance factor of 2 (see `Avl.EqualKeyNoRotation`).
- `Trie`: the children maps of the nodes are modelled as one map from paths to counters. Node identity is not captured.
- `MaxHeap`: the heap's array, which the source updates in place, is a `seq` field reassigned by each operation.
- `OpenAddressing.HashOf`: number keys are non-negative integers. Negative and fractional keys, for which the source's `%` gives a negative or fractional index, are not modelled.
- `HamiltonianCycle.FindHamiltonianCycle`: the path and visited arrays are allocated one slot larger than the vertex count. The source's JavaScript arrays grow when written past their end.
- `Huffman.HuffmanEncoding`: requires a frequency for every character. For a missing frequency the source computes with `undefined` and gets `NaN`.
- `AStar.AStarSearch`: requires a non-empty grid with the start inside it, which is narrower than the source. The source throws on an empty grid, because it reads `grid[0].length`. Unless start equals goal, it also throws when the start's row does not exist, because `closed[y]` is undefined. A start on an existing row but with x off that row is accepted: `closed[y][x] = true` writes past the row's end and the search goes on. For example, grid [[0]] with start [1,0] and goal [0,0] gives [[1,0],[0,0]]. A start equal to the goal gives [start] wherever it lies. The model does not cover these starts.
- `OpenAddressing.HashMap.constructor`, `SeparateChaining.ChainedMap.constructor`: both require a capacity above 0, so a capacity of 0 or less is not modelled. At capacity 0 a number key or a non-empty string key hashes to `NaN`, because `x % 0` is `NaN`. Open addressing stores the first such key under the array's `NaN` property, and a second put of a different key never ends: the probe stays at `NaN` and `index === initialIndex` is false for `NaN`. Separate chaining reads `buckets[NaN]` (or `buckets[0]` for the empty string) as `undefined`, which passes `node !== null`, so every put throws a TypeError at `node.key`. A negative or fractional capacity makes `new Array(capacity)` throw a RangeError.
- `LinkedQueue`: the default capacity `float('inf')` is modelled as no bound.
- `LinkedQueue.Queue.constructor`: a given capacity is a natural number. Python also accepts a negative or fractional capacity, and a negative one makes every enqueue raise 'Queue is full'; the model does not cover those.
- Language ports that duplicate a modelled solution are not modelled separately. The properties are the same.
- Exercises whose repository entry has tests but no implementation are not part of this model.
- The publishing and retrieval operations of the content service that do not carry the logic above are not modelled. They are plain repository calls.

## Findings

| source | as written | input that shows it | evidently intended | confidence | as-written member | corrected member |
|---|---|---|---|---|---|---|
| src/modules/algorithm/seed/algorithms/articulation-points/languages/javascript/iterative-solution.js:42-47 | when a child finishes, its parent is reported if the child's low-link is at least the parent's discovery time, with no test that the parent is not the DFS root | the single edge `[[1],[0]]`: vertex 0 is reported, but removing it disconnects nothing | the low-link rule applies to non-root parents only; a root is reported when it has two or more DFS children (lines 48-52) | not executed | ArticulationPoints.SingleEdgeAsWritten | ArticulationPoints.SingleEdgeCorrected |
| src/modules/algorithm/seed/algorithms/hash-map/languages/typescript/open-addressing-solution.ts:63-79 | remove clears the slot it finds, so a later probe stops there | capacity 2: put(0, a), put(2, b) (probes to slot 1), remove(0), get(2) gives undefined | a removed slot is marked as a tombstone that probes pass over, so every other key stays findable | not executed | OpenAddressing.RemoveHidesDisplacedKey | OpenAddressingFixed.RemoveKeepsReachable |
| src/modules/algorithm/seed/algorithms/a-star/languages/go/exercise_test.go:6-20 | the first case's expected path is written in [row, column] order, while the solutions index `grid[y][x]` with cells [x, y] | grid1 with start [0,0] and goal [4,4]: under [x, y] the expected cell [2,1] is `grid1[1][2] == 1`, an obstacle | the expected path read as [row, column], which is a shortest walk of nine cells | not executed | AStarExamples.ExpectedThroughObstacle | AStarExamples.TransposedWalk |
| src/modules/permission/permission.service.ts:52-59 | grantPermission awaits `checkUserPermission(grantedBy, node, MANAGE)` and discards its boolean result; revoke (line 110) and update (line 147) do the same | a user holding no permission on a node grants OWNER on it to someone else, and the grant is stored | a caller without MANAGE is refused with Forbidden | not executed | Permission.GrantIgnoresCheck | Permission.CheckedGrantRefusesStranger |
| src/modules/onboarding/services/onboarding.service.ts:150-156 | generateRecommendations reads `studyTimeMap[goals.timeCommitment]` from the stored goals row, but the repository stores `studyTime` and no `timeCommitment` | any saveGoals followed by submitQuiz, with the imported goals and answers types resolved as the service expects them: the study time is undefined, so the daily count and the three time shares are NaN | use the study time the stored row already holds | not executed | Onboarding.QuizAfterGoalsIsNaN | Onboarding.GoalsThenQuizCompletes |
