# Algoritmique in Dafny

This project models the algorithmic core of *Algoritmique*, a set of
teaching applications written in Python:

- **TP2, B-trees.** There are two engines:
  - a classic B-tree of order `m` with `d = (m - 1) // 2` (TP2/b_arbre.py). Its insertion splits after the fact; its deletion borrows from a sibling or merges;
  - a B\*-tree (b_arbre_star.py). Its nodes hold `kmin = round(2(m-1)/3)` to `kmax = m - 1` keys. Overflows are repaired by redistribution or by a three-way split, and underflows by redistribution or by a merge followed by a re-split.

  The Tkinter client (TP2/TP2.py) checks the order, builds a tree from a comma-separated key list, and inserts, deletes and searches single keys.
- **TP3, merge sort step by step.** `MergeSortTreeSteps` (TP3/TP3.py) records every split, comparison and merge of a top-down merge sort as a log. It then replays that log forwards and backwards over a map of ranges.
- **TP4, graph algorithms.**
  - The DSATUR colouring application (TP4/dsatur_app.py): a graph of nodes with neighbour sets, degrees and saturations, and the step-by-step DSATUR run over a palette of ten colours.
  - The Johnson application (TP4/johnson_app.py): a weighted graph with undirected, directed and auxiliary edge maps, and the five recorded steps of Johnson's algorithm. These are: add a source S, run Bellman-Ford from S, reweight the edges, build the d' matrix, and build the final matrix.

Nodes of both B-trees are values (`Multiway.Node`). The engines and the
applications are classes whose fields the methods update. Python exceptions
are results: `Outcome.Raised(fault)` names the exception the program would
raise. Python's `float('inf')` is `None` in an `Option<int>`.

The modules follow the program:

| module | file | program part |
|---|---|---|
| `Common` | common.dfy | Python list operations, `bisect`, `list.sort`, results |
| `Text` | text.dfy | `str.strip`, `str.split`, `int()`, `str()` |
| `Multiway`, `Surgery` | multiway.dfy, surgery.dfy | nodes, in-order key sequence, the node edits both engines share |
| `ClassicBTree` | classic_btree.dfy | TP2/b_arbre.py |
| `BStar`, `BStarFacts`, `BStarDelete`, `BStarEngine` | bstar_*.dfy | b_arbre_star.py |
| `TreeApp` | tree_app.dfy | TP2/TP2.py (and TP2.py) |
| `MergeSortLog`, `MergeSortApp` | merge_sort_steps.dfy, merge_sort_app.dfy | TP3/TP3.py (and TP3.py) |
| `ColoringGraph`, `Dsatur` | dsatur_graph.dfy, dsatur.dfy | TP4/dsatur_app.py |
| `WeightedGraphs`, `ShortestPaths`, `Johnson` | weighted_graph.dfy, shortest_paths.dfy, johnson.dfy | TP4/johnson_app.py |

## Model

| member | source | states |
|---|---|---|
| Common.BisectLeft | b_arbre_star.py:39 | `bisect_left` on a sorted list is the first index whose element is not below x |
| Common.Insort | b_arbre_star.py:83 | `insort` returns a permutation of the list plus x; on a sorted list it is x inserted after every element not above it, and stays sorted |
| Common.InsortLowerBound | b_arbre_star.py:83 | on a sorted list, inserting after the equals (`insort`) or before them (at `bisect_left`) gives the same list |
| Common.SortInts | b_arbre_star.py:180 | `list.sort()` returns a sorted permutation of its input |
| Common.SortSortedIdentity | b_arbre_star.py:180 | sorting an already sorted list leaves it unchanged |
| Common.WithoutSorted | b_arbre_star.py:238 | removing a value keeps a sorted list sorted, and a strictly sorted one strictly sorted |
| Common.PyRemoveAt | TP4/dsatur_app.py:1161 | `list.remove(x)` removes the position of x's first occurrence |
| Common.PredecessorSwap | TP2/b_arbre.py:138-142 | overwriting k with its predecessor p and removing p from the part before removes exactly k |
| Common.SuccessorSwap | TP2/b_arbre.py:144-148 | the same with the successor q taken from the part after k |
| Text.Strip | TP2/TP2.py:101 | `str.strip()` leaves no whitespace at either end and never lengthens the text (StripPadding says what it removes) |
| Text.StripPadding | TP2/TP2.py:101 | stripping a trimmed text surrounded by whitespace gives the text back |
| Text.ParseInt | TP2/TP2.py:169 | `int(text)`: a number is read only from a text that is not blank once stripped (ParseShow and ParsePadded say which number) |
| Text.ParseShow | TP2/TP2.py:169 | `int(str(n)) == n` for every integer n |
| Text.ParsePadded | TP2/TP2.py:169 | whitespace around a number does not change what `int` reads |
| Text.SplitOn | TP2/TP2.py:134 | `text.split(sep)` yields at least one piece, and no piece holds the separator |
| Text.JoinSplit | TP2/TP2.py:134 | joining the pieces of a split with the separator gives the text back |
| Text.SplitJoin | TP2/TP2.py:134 | splitting a join of separator-free pieces gives the pieces back |
| Text.Words | TP3/TP3.py:78 | `text.split()` yields non-empty pieces without whitespace (WordsCover says they cover the text) |
| Text.WordsCover | TP3/TP3.py:78 | the words hold exactly the visible characters of the text, in order |
| Text.WordsJoin | TP3/TP3.py:78 | tokens joined by spaces split back into the tokens |
| Text.ParseShowAll | TP3/TP3.py:81 | converting every rendering of a list of numbers gives the numbers back |
| Surgery.SplitChild | TP2/b_arbre.py:90-108 | `_split_child`: the median of child i goes up at position i, the two halves hold the keys either side of it, and the other children stay; the same edit is b_arbre_star.py:133-145 |
| Surgery.SplitChildInOrder | TP2/b_arbre.py:90-108 | a split keeps the node well formed and its in-order key sequence unchanged |
| Surgery.SplitChildBalanced | TP2/b_arbre.py:90-108 | a split keeps balance and height |
| Surgery.SplitChildKeyed | TP2/b_arbre.py:90-108 | a child of at least three keys splits into two halves that each keep a key |
| Surgery.Grow | TP2/b_arbre.py:50-55 | root growth: an internal root of one key over two children |
| Surgery.GrowProps | TP2/b_arbre.py:50-55 | growth keeps the in-order key sequence and adds exactly one level |
| Surgery.MergeChildren | TP2/b_arbre.py:219-229 | `_merge`: separator idx leaves the parent, and child idx becomes the left child's keys, the separator and the right child's keys, while the other children stay; the same list edits are b_arbre_star.py:284-295 |
| Surgery.MergeFlatten | TP2/b_arbre.py:219-229 | merging keeps the parent's in-order key sequence |
| Surgery.MergeBalanced | TP2/b_arbre.py:219-229 | the merged child is as high as the two it replaces, so balance is kept |
| Surgery.MergeKeyed | TP2/b_arbre.py:219-229 | merging two keyed children yields a keyed child of at least three keys |
| Surgery.RotateRight | TP2/b_arbre.py:199-207 | the left child's last key becomes separator j, and the old separator joins the right child: the three-way key sequence is kept, and the left side has one key fewer and the right side one more |
| Surgery.RotateLeft | TP2/b_arbre.py:209-217 | the mirror rotation from the right child |
| Surgery.RotateRightInOrder | TP2/b_arbre.py:199-207 | a right rotation keeps the in-order key sequence |
| Surgery.RotateLeftInOrder | TP2/b_arbre.py:209-217 | a left rotation keeps the in-order key sequence |
| Surgery.RotateRightBalanced | TP2/b_arbre.py:199-207 | a right rotation keeps balance |
| Surgery.RotateLeftBalanced | TP2/b_arbre.py:209-217 | a left rotation keeps balance |
| Surgery.RightmostLast | TP2/b_arbre.py:187-191 | the walk down the last children finds the last key of the in-order sequence |
| Multiway.Descend | TP2/b_arbre.py:34-40 | descending into the child at the first key not below k is exact: keys before it are below k, keys after it above |
| ClassicBTree.MakeSizes | TP2/b_arbre.py:18-25 | orders below 3 raise ValueError; otherwise d = (order - 1) // 2 and nodes hold at most 2d keys |
| ClassicBTree.FindKeyIndex | TP2/b_arbre.py:181-185 | the scan returns the first index whose key is not below k: every key before it is below k |
| ClassicBTree.SearchNode | TP2/b_arbre.py:30-40 | `search` returns a node and position that hold k, or nothing (SearchNodeComplete says when) |
| ClassicBTree.SearchNodeComplete | TP2/b_arbre.py:30-40 | on a tree whose keys are in order, search finds k exactly when the tree holds it |
| ClassicBTree.InsertRec | TP2/b_arbre.py:57-88 | `_insert_non_full` with the split propagation of `_handle_split_up`: a split is requested only when the node overflows, and the node keeps its kind (InsertRecCorrect gives the result) |
| ClassicBTree.InsertRecCorrect | TP2/b_arbre.py:57-88 | the recursive insert puts the key at its sorted place and keeps the subtree balanced |
| ClassicBTree.InsertTopCorrect | TP2/b_arbre.py:45-55 | insertion into a present root puts the key before the first key not below it, keeps the root shape and grows by at most one level |
| ClassicBTree.GetPredecessor | TP2/b_arbre.py:187-191 | the walk gives the last key of the subtree (`Rightmost`), or IndexError on an empty leaf |
| ClassicBTree.GetSuccessor | TP2/b_arbre.py:193-197 | the walk returns the first key of the subtree's in-order sequence |
| ClassicBTree.LeftmostFirst | TP2/b_arbre.py:193-197 | the walk down the first children finds the first key of the in-order sequence |
| ClassicBTree.BorrowFromPrev | TP2/b_arbre.py:199-207 | child idx takes a key from its left sibling through separator idx-1, keeping the in-order sequence |
| ClassicBTree.BorrowFromNext | TP2/b_arbre.py:209-217 | child idx takes a key from its right sibling through separator idx, keeping the in-order sequence |
| ClassicBTree.RefillOf | TP2/b_arbre.py:163-174 | the refill of a short child: enough keys, or borrow from a left sibling above d, or from a right sibling above d, or merge with a neighbour |
| ClassicBTree.PredecessorCase | TP2/b_arbre.py:138-142 | a found key with a rich left child is replaced by its predecessor, which is deleted below; exactly k goes |
| ClassicBTree.SuccessorCase | TP2/b_arbre.py:144-148 | the same with the successor from a rich right child |
| ClassicBTree.MergeCase | TP2/b_arbre.py:150-152 | merging the two children around k and deleting from the merged child removes exactly k |
| ClassicBTree.ShortChildCase | TP2/b_arbre.py:158-176 | a descent into a child of d keys borrows or merges first and still removes exactly k |
| ClassicBTree.DeleteFromCorrect | TP2/b_arbre.py:126-176 | on a strictly increasing subtree whose inner nodes hold keys, `_delete_internal` succeeds, keeps shape and height and removes exactly k |
| ClassicBTree.DeleteTopCorrect | TP2/b_arbre.py:113-124 | on strictly increasing keys deletion succeeds, keeps the root shape and removes exactly k; the root is gone only when no key remains |
| ClassicBTree.BTree.Create | TP2/b_arbre.py:18-25 | ValueError below order 3, otherwise an empty leaf root |
| ClassicBTree.BTree.Search | TP2/b_arbre.py:30-40 | AttributeError without a root; otherwise the key is found exactly when the tree holds it |
| ClassicBTree.BTree.Insert | TP2/b_arbre.py:45-55 | the key goes to its sorted place and the tree keeps its shape; AttributeError without a root |
| ClassicBTree.BTree.Delete | TP2/b_arbre.py:113-124 | on strictly increasing keys, removes exactly k and keeps the tree's shape |
| ClassicBTree.Demo | TP2/b_arbre.py:251-262 | the order-5 demonstration ends holding 5, 10, 17, 20, 30 |
| BStar.MakeBSizes | b_arbre_star.py:25-31 | orders below 3 raise ValueError; otherwise kmax = m - 1, and kmin is 2(m - 1)/3 rounded (within one third), between 1 and kmax |
| BStarFacts.FullIffOverKmax | b_arbre_star.py:15-16 | `is_full(m)` holds exactly when a node holds more than kmax keys |
| BStar.Find | b_arbre_star.py:36-45 | `search` raises only IndexError, and a position it returns holds the key (FindComplete says when it finds it) |
| BStarFacts.FindComplete | b_arbre_star.py:36-45 | on a well-formed tree whose keys are in order, search never raises and finds the key exactly when the tree holds it |
| BStar.Redistribute | b_arbre_star.py:150-167 | one key moves through separator idx, into the left child when it is below kmin or smaller than the right one, otherwise into the right child, with a child when internal; the key sequence around the separator is kept, and IndexError is raised exactly for a missing separator or an empty donor |
| BStarFacts.RedistributeInOrder | b_arbre_star.py:150-167 | redistributing between two children of the same kind keeps the parent well formed, its in-order sequence and its balance |
| BStarFacts.RedistributeOk | b_arbre_star.py:150-167 | `_redistribute` raises only when its donor is empty |
| BStar.ThreeWaySplit | b_arbre_star.py:172-215 | `_three_way_split_strict` raises IndexError exactly when child j, child j+1 or separator j is missing; only a root can grow (SplitThreeSizes and ThreeWayLeaves give the result) |
| BStarFacts.SplitThreeSizes | b_arbre_star.py:186-193 | the three nodes of a split of n keys get near-equal sizes |
| BStarFacts.ThreeWayLeaves | b_arbre_star.py:172-207 | a three-way split of two neighbouring leaves under an ordered parent never raises and keeps the in-order sequence |
| BStar.OverflowRepair | b_arbre_star.py:94-109 | the overflow choice: shift to a neighbour exactly when one holds fewer than kmax keys, otherwise split three ways with the left neighbour or, for the first child, the right one |
| BStarFacts.LeafOverflowInOrder | b_arbre_star.py:85-109 | a leaf over kmax under a node over leaves is repaired without raising, keeping the in-order sequence |
| BStar.InsertTop | b_arbre_star.py:50-128 | `insert`: a keyless root takes the key, and a full leaf root grows without the key (InsertShallow covers the other cases) |
| BStarFacts.InsertIntoLeaf | b_arbre_star.py:82-85 | `insort` into a leaf below the root puts the key before its equals and flags an overflow exactly above kmax |
| BStarFacts.InsertShallow | b_arbre_star.py:50-128 | on a tree of at most two levels with keys in order, insert never raises and inserts the key before its equals, keeping balance |
| BStar.DeleteTop | b_arbre_star.py:220-300 | `delete` with the re-split as a parameter leaves a keyless root as it is (DeleteShallow and DeleteShallowAsWritten cover the other cases) |
| BStarDelete.DeleteFromLeaf | b_arbre_star.py:236-240 | a leaf loses the key when it holds it, and flags an underflow only then |
| BStarDelete.FixByBorrow | b_arbre_star.py:265-268 | an underflow next to a sibling above kmin is repaired by one redistribution |
| BStarDelete.FixByMerge | b_arbre_star.py:269-279 | without a rich sibling, a merge and, if needed, a re-split restore the tree |
| BStarDelete.HitCase | b_arbre_star.py:242-249 | a key found at the root is overwritten by its predecessor, which is deleted from the leaf before it |
| BStarDelete.MissCase | b_arbre_star.py:250-252 | a key missing at the root is deleted from the child `bisect_left` picks |
| BStarDelete.DeleteShallow | b_arbre_star.py:220-300 | the corrected delete on a tree of at most two levels whose leaves hold keys never raises, removes exactly the key, and keeps order and balance |
| BStarDelete.ResplitRaisesAtLastChild | b_arbre_star.py:277-279 | as written, order 4, deleting 25 from [10,20] over [5,7],[12,15],[22,25] raises IndexError |
| BStarDelete.ResplitRaisesAtNewRoot | b_arbre_star.py:277-279 | as written, order 4, deleting 5 from [10] over [5,7],[12,15] raises IndexError |
| BStarDelete.ResplitAgrees | b_arbre_star.py:277-279 | after a merge, the written re-split gives what the corrected one gives, or IndexError |
| BStarDelete.DeleteAgrees | b_arbre_star.py:220-227 | on a tree of at most two levels, the delete as written gives what the corrected delete gives, or IndexError |
| BStarDelete.DeleteShallowAsWritten | b_arbre_star.py:220-300 | the delete as written on a tree of at most two levels whose leaves hold keys raises IndexError or removes exactly the key, keeping order and balance |
| BStarEngine.BStarTree.Create | b_arbre_star.py:25-31 | ValueError below order 3, otherwise an empty leaf root |
| BStarEngine.BStarTree.Search | b_arbre_star.py:36-45 | on a tree in order, never raises and finds the key exactly when the tree holds it |
| BStarEngine.BStarTree.Insert | b_arbre_star.py:50-128 | the root becomes the insertion's result; on a tree of at most two levels the key set gains exactly the key, in order and balanced |
| BStarEngine.BStarTree.Delete | b_arbre_star.py:220-300 | the root becomes the as-written deletion's result; on a tree of at most two levels with keyed leaves, IndexError or exactly the key removed |
| BStarEngine.BStarTree.DeleteCorrected | b_arbre_star.py:220-300 | the corrected deletion never raises there and removes exactly the key |
| TreeApp.CheckOrder | TP2/TP2.py:96-115 | an order is accepted exactly when a type is selected, the stripped entry is all digits, its value is at least 3, and it is odd for the classic type |
| TreeApp.AcceptedOrderBuilds | TP2/TP2.py:96-130 | an accepted order is one both engines' constructors take |
| TreeApp.CheckOrderAccepts | TP2/TP2.py:96-115 | every written-out order of at least 3 (odd for the classic type), with whitespace around it, is accepted |
| TreeApp.CheckOrderRefusesSign | TP2/TP2.py:102 | "+5" and "-5" are refused: a sign is not a digit |
| TreeApp.ParseKeyList | TP2/TP2.py:134 | every non-blank comma-separated piece converted, or ValueError for the whole list |
| TreeApp.KeyListRoundTrip | TP2/TP2.py:134 | the renderings of any keys, joined by commas, parse back to the keys |
| TreeApp.KeyListRejects | TP2/TP2.py:134 | one unconvertible piece rejects the whole list |
| TreeApp.TreeWindow.Lookup | TP2/TP2.py:179-183 | the search and its normalisation: found exactly when the tree holds the key; TypeError when the B* type unpacks the classic None; AttributeError without a tree |
| TreeApp.TreeWindow.AddIfAbsent | TP2/TP2.py:137-147 | the key goes in only when the search does not find it; on a classic tree or a B* tree of at most two levels the key set gains exactly that key |
| TreeApp.TreeWindow.RemoveIfPresent | TP2/TP2.py:215-222 | the key is deleted only when found; on a classic tree exactly it goes; on a B* tree of at most two levels with keyed leaves, IndexError or exactly it goes |
| TreeApp.TreeWindow.Build | TP2/TP2.py:126-130 | a new B* tree or classic tree by the selected type, empty |
| TreeApp.TreeWindow.CreerArbre | TP2/TP2.py:119-154 | a refused order changes nothing and reports it; otherwise a new tree of the selected type, empty when the list does not convert, and for the classic type holding exactly the listed keys |
| TreeApp.TreeWindow.AddAll | TP2/TP2.py:135-147 | each listed key inserted if absent; on a classic tree the keys become the old keys plus the list |
| TreeApp.TreeWindow.InsererCle | TP2/TP2.py:158-196 | after the order check and an integer key, a tree is created if missing and the key added if absent |
| TreeApp.TreeWindow.SupprimerCle | TP2/TP2.py:200-232 | with a tree and an integer key, the key is deleted only if found; Absent/Done as the program reports |
| TreeApp.TreeWindow.RechercherCle | TP2/TP2.py:236-267 | with a tree and an integer key, whether the tree holds the key |
| TreeApp.TreeWindow.Reinitialiser | TP2/TP2.py:271-278 | the tree is dropped |
| MergeSortLog.Merge | TP3/TP3.py:179-199 | the two-index merge: the smaller head first, the left head on ties |
| MergeSortLog.MergeSorted | TP3/TP3.py:179-199 | merging two sorted lists gives a sorted list |
| MergeSortLog.MergePermutes | TP3/TP3.py:179-199 | the merge is a permutation of its two inputs |
| MergeSortLog.MergeLogShape | TP3/TP3.py:182-199 | a merge logs one `compare` step per element placed, carrying the merged prefix so far |
| MergeSortLog.Sort | TP3/TP3.py:167-202 | the list `generate_steps(arr, l, r)` returns |
| MergeSortLog.SortSorted | TP3/TP3.py:167-202 | `generate_steps` returns the range in non-decreasing order |
| MergeSortLog.SortPermutes | TP3/TP3.py:167-202 | `generate_steps` returns a permutation of `arr[l:r+1]` |
| MergeSortLog.LogLast | TP3/TP3.py:170-201 | the last step of a range's log labels the whole range with its sorted list |
| MergeSortLog.LevelsInside | TP3/TP3.py:157-165 | the ranges `_collect_nodes` records lie inside the top range, at its level or deeper |
| MergeSortLog.DeepestIsMax | TP3/TP3.py:157-165 | `max_level` is a level some range is recorded at, and no range is deeper |
| MergeSortLog.LogCovered | TP3/TP3.py:130-149 | every step of the log is about a range `_collect_nodes` recorded |
| MergeSortLog.Apply | TP3/TP3.py:237-285 | `apply_step`: the step's range takes the step's list and colour; a missing range raises KeyError |
| MergeSortLog.ReplaySorts | TP3/TP3.py:204-235 | replaying the whole log from blank states labels the top range with the sorted array |
| MergeSortApp.ParseArray | TP3/TP3.py:73-84 | a blank entry is refused; otherwise commas and whitespace separate pieces and every piece must convert |
| MergeSortApp.ParseArrayRejects | TP3/TP3.py:80-84 | one piece `int` refuses makes the whole entry refused |
| MergeSortApp.ParseArrayShown | TP3/TP3.py:73-84 | numbers written out and separated by commas load back as those numbers |
| MergeSortApp.MergeSortTreeSteps.LoadArray | TP3/TP3.py:72-96 | a refused entry changes nothing; otherwise the array is the numbers and the log, ranges and position are cleared |
| MergeSortApp.MergeSortTreeSteps.ValidateAndGenerate | TP3/TP3.py:118-155 | refused without an array; otherwise the recorded ranges, blank states and log are those of the whole array |
| MergeSortApp.MergeSortTreeSteps.CollectNodes | TP3/TP3.py:157-165 | records every range below (l, r) at its level and raises `max_level` to the deepest |
| MergeSortApp.MergeSortTreeSteps.GenerateSteps | TP3/TP3.py:167-202 | appends the range's log and returns the sorted range |
| MergeSortApp.MergeSortTreeSteps.ApplyStep | TP3/TP3.py:237-285 | the state becomes `Apply` of the step, or KeyError for an unrecorded range |
| MergeSortApp.MergeSortTreeSteps.NextStep | TP3/TP3.py:204-215 | at the end nothing changes; otherwise the next step is applied and counted |
| MergeSortApp.MergeSortTreeSteps.PrevStep | TP3/TP3.py:217-235 | at the start nothing changes; otherwise the states are the replay of one step fewer from blank |
| MergeSortApp.MergeSortTreeSteps.ResetAll | TP3/TP3.py:353-363 | no array, no log, no ranges, position 0 |
| MergeSortApp.MergeSortTreeSteps.FinishedSorted | TP3/TP3.py:204-215 | with the whole log shown, the top range holds the sorted array |
| ColoringGraph.AddNeighbor | TP4/dsatur_app.py:43-46 | an id joins the neighbour set once and the degree is the set's size |
| ColoringGraph.RemoveNeighbor | TP4/dsatur_app.py:48-51 | a neighbour leaves the set and the degree is the set's size |
| ColoringGraph.NeighborUpdates | TP4/dsatur_app.py:43-51 | both updates keep degree equal to the number of neighbours and are idempotent |
| ColoringGraph.AddThenRemove | TP4/dsatur_app.py:43-51 | removing a just-added neighbour gives the node back |
| ColoringGraph.AdjacentSymmetric | TP4/dsatur_app.py:137-139 | neighbourhood is symmetric, as the undirected edge list says |
| ColoringGraph.Graph.constructor | TP4/dsatur_app.py:96-101 | no nodes, no edges, ids start at 1 |
| ColoringGraph.Graph.AddNode | TP4/dsatur_app.py:106-126 | the next id gets a fresh uncoloured node; the graph stays well formed |
| ColoringGraph.Graph.AddEdge | TP4/dsatur_app.py:128-143 | refused when the pair is already joined, an id is unknown or the ids are equal; otherwise appended with both neighbour links |
| ColoringGraph.Graph.RemoveEdge | TP4/dsatur_app.py:170-194 | the first edge joining the ids in either orientation goes with its neighbour links; false when none |
| ColoringGraph.Graph.RemoveNode | TP4/dsatur_app.py:204-230 | every edge at the node goes with its links, then the node; false for an unknown id |
| ColoringGraph.Graph.ResetColors | TP4/dsatur_app.py:232-239 | every node loses its colour and saturation, nothing else changes |
| ColoringGraph.Graph.UpdateSaturation | TP4/dsatur_app.py:53-60 | the node's saturation becomes the number of distinct colours around it |
| ColoringGraph.Graph.ColorNode | TP4/dsatur_app.py:460-466 | a palette index becomes the node's colour, or KeyError for an unknown node; any other index changes nothing |
| Dsatur.FirstFreeColor | TP4/dsatur_app.py:1182-1186 | the smallest palette index not used around the node, or -1 exactly when all ten are used |
| Dsatur.FirstFree | TP4/dsatur_app.py:1182-1186 | the colour loop computes FirstFreeColor |
| Dsatur.PaletteFull | TP4/dsatur_app.py:1182-1186 | when no index is free, at least ten colours are in use |
| Dsatur.SelectedUnique | TP4/dsatur_app.py:1136-1156 | the selection is determined: at most one entry has no entry outranking it (by saturation, then degree) and outranks every earlier entry |
| Dsatur.SelectedSaturation | TP4/dsatur_app.py:1136-1156 | the selected node has the highest saturation among the uncoloured |
| Dsatur.SelectNode | TP4/dsatur_app.py:1136-1156 | the two loops select the entry `Selected` describes; KeyError for an unknown id |
| Dsatur.ChosenAvoids | TP4/dsatur_app.py:1176-1186 | the chosen colour differs from every neighbour's colour |
| Dsatur.PaintProper | TP4/dsatur_app.py:1188 | painting with the chosen colour keeps the colouring proper |
| Dsatur.StepKeeps | TP4/dsatur_app.py:1158-1171 | one step on the selected entry keeps the run invariant: partition, exact saturations, proper colouring |
| Dsatur.InitialColoring | TP4/dsatur_app.py:1045-1060 | the state `initialize_dsatur` leaves satisfies the run invariant |
| Dsatur.Finished | TP4/dsatur_app.py:1129-1134 | at the end every node is in the coloured list, the colouring is proper, every node of fewer than ten neighbours wears a palette colour, and at most ten colours are used |
| Dsatur.DsaturRun.constructor | TP4/dsatur_app.py:489-500 | an empty graph and an idle run |
| Dsatur.DsaturRun.InitializeDsatur | TP4/dsatur_app.py:1045-1060 | colours cleared, saturations recomputed, every node uncoloured in dictionary order |
| Dsatur.DsaturRun.ColorNodeDsatur | TP4/dsatur_app.py:1173-1194 | the node gets the smallest colour none of its neighbours wears, and the uncoloured neighbours' saturations are refreshed |
| Dsatur.DsaturRun.DsaturStep | TP4/dsatur_app.py:1128-1171 | with nothing left the run stops; otherwise the selected node is coloured, moved to the coloured list, and the invariant is kept |
| Dsatur.DsaturRun.DsaturSingleStep | TP4/dsatur_app.py:1035-1043 | nothing on an empty graph; a run not started is initialized, then one step |
| Dsatur.DsaturRun.StartDsatur | TP4/dsatur_app.py:1013-1024 | on a graph with nodes, a run not in progress is initialized, then the run ticks |
| Dsatur.DsaturRun.PauseDsatur | TP4/dsatur_app.py:1026-1033 | a ticking run is paused; otherwise it is started |
| Dsatur.DsaturRun.ResetAll | TP4/dsatur_app.py:1214-1226 | the timer stops, colours are cleared and the run state emptied |
| WeightedGraphs.Key | TP4/johnson_app.py:216-269 | the edge key: as given when directed, smaller id first otherwise |
| WeightedGraphs.KeyUnordered | TP4/johnson_app.py:216-269 | an undirected edge has one key whichever way its ends are given |
| WeightedGraphs.AddedStores | TP4/johnson_app.py:216-269 | a user edge is stored once under its key with the new weight; adding it again only updates the weight |
| WeightedGraphs.AddedAdjacency | TP4/johnson_app.py:216-269 | the adjacency gets `[a][b] = w`, and `[b][a] = w` exactly when the edge is undirected |
| WeightedGraphs.AddedTwice | TP4/johnson_app.py:216-269 | adding the same edge twice leaves the tables as adding it once |
| WeightedGraphs.RemovedAdded | TP4/johnson_app.py:290-332 | removing a just-added edge gives back the edge map it was added to |
| WeightedGraphs.RemovedExactly | TP4/johnson_app.py:290-332 | `remove_edge` changes nothing when it finds nothing, and otherwise deletes exactly one edge |
| WeightedGraphs.DetachedClean | TP4/johnson_app.py:341-377 | after `remove_node` no table mentions the node, and every other entry is still there |
| WeightedGraphs.SpokedReaches | TP4/johnson_app.py:271-280 | every target gets a weight-0 edge from S, auxiliary or an existing directed one |
| WeightedGraphs.SpokedFresh | TP4/johnson_app.py:271-280 | from a new vertex every spoke is a new auxiliary edge of weight 0 |
| WeightedGraphs.ListEntries | TP4/johnson_app.py:391-399 | one loop of `get_all_edges`: an entry per key of the map, of the loop's kind |
| WeightedGraphs.WeightedGraph.constructor | TP4/johnson_app.py:173-182 | empty tables, no S, ids from 1 |
| WeightedGraphs.WeightedGraph.AddNode | TP4/johnson_app.py:187-214 | the next id, flagged as S when asked |
| WeightedGraphs.WeightedGraph.AddEdge | TP4/johnson_app.py:216-269 | false for an unknown end or a loop, otherwise the tables `Added` describes |
| WeightedGraphs.WeightedGraph.RemoveEdge | TP4/johnson_app.py:290-332 | true exactly when an edge was found and deleted |
| WeightedGraphs.WeightedGraph.AddAuxiliaryEdges | TP4/johnson_app.py:271-280 | with an S, a weight-0 edge from S to every other unflagged node |
| WeightedGraphs.WeightedGraph.RemoveNode | TP4/johnson_app.py:341-377 | false for an unknown id; otherwise the node and every edge mentioning it are gone |
| WeightedGraphs.WeightedGraph.RemoveAuxiliaryNode | TP4/johnson_app.py:334-339 | S, if any, is removed with its edges, and no S remains |
| WeightedGraphs.WeightedGraph.GetAllEdges | TP4/johnson_app.py:391-399 | every undirected, directed and auxiliary edge, with its weight and kind |
| WeightedGraphs.WeightedGraph.ResetNodes | TP4/johnson_app.py:531-532 | `node.reset()` on every node: no node is flagged as S |
| ShortestPaths.Shortest | TP4/johnson_app.py:947-980 | a settled, sound distance table is the table of least walk weights from s |
| ShortestPaths.Shorten | TP4/johnson_app.py:947 | without a reachable negative cycle, every walk can be cut to fewer arcs than nodes without getting heavier |
| ShortestPaths.SettledIffNoCycle | TP4/johnson_app.py:973-980 | the final table is settled exactly when no negative cycle is reachable from s |
| ShortestPaths.Relax | TP4/johnson_app.py:962-965 | one round relaxes every arc in order and reports whether a distance dropped |
| ShortestPaths.RoundBound | TP4/johnson_app.py:947-965 | a round after k rounds bounds every walk of k + 1 arcs |
| ShortestPaths.Relaxable | TP4/johnson_app.py:973-977 | whether some arc can still be relaxed |
| ShortestPaths.BellmanFord | TP4/johnson_app.py:906-980 | at most n-1 rounds with early exit; None exactly when a negative cycle is reachable, otherwise the settled table |
| Johnson.ListArcs | TP4/johnson_app.py:916-929 | an arc per map entry, and its reverse for undirected edges |
| Johnson.CollectArcs | TP4/johnson_app.py:912-929 | `all_edges` lists exactly the arcs of the tables |
| Johnson.Potentials | TP4/johnson_app.py:995-1000 | `h_values` holds the distance of every node other than S |
| Johnson.Triangle | TP4/johnson_app.py:1050 | least walk weights satisfy the triangle inequality on every arc |
| Johnson.ComputePotentials | TP4/johnson_app.py:890-1024 | None exactly when a negative cycle is reachable from S; otherwise every ordinary node's least walk weight from S |
| Johnson.Reweight | TP4/johnson_app.py:1026-1073 | `w + h(u) - h(v)` for every directed edge whose ends both have potentials, infinity read as 0 |
| Johnson.ReweightedNonNegative | TP4/johnson_app.py:1050 | with least walk weights as potentials, every reweighted edge out of a reached node is non-negative |
| Johnson.CheapestEdge | TP4/johnson_app.py:1099-1109 | the least reweighted weight over the listed edges from source to target |
| Johnson.DirectMatrix | TP4/johnson_app.py:1075-1113 | the d' matrix: 0 on the diagonal, otherwise the cheapest reweighted direct edge or infinity |
| Johnson.FinalMatrix | TP4/johnson_app.py:1126-1162 | the final matrix: 0 on the diagonal, infinity kept, otherwise `d' - h(s) + h(t)` |
| Johnson.FinalRecovers | TP4/johnson_app.py:1157 | step 5 undoes step 3 on every direct edge: the entry is the edge's original weight |
| Johnson.PrevUndoesNext | TP4/johnson_app.py:1180-1194 | `prev_step` undoes a `next_step` that moved |
| Johnson.TargetsCleared | TP4/johnson_app.py:518-537 | after the reset, `add_auxiliary_edges` links a new S to every node |
| Johnson.Establish | TP4/johnson_app.py:750-788 | what steps 2 to 5 ensure gives a completed run: S reaches every node, potentials are least weights, reweighted edges are non-negative, and final entries recover the edge weights |
| Johnson.JohnsonRun.constructor | TP4/johnson_app.py:444-471 | an empty directed graph and no steps |
| Johnson.JohnsonRun.ResetJohnsonState | TP4/johnson_app.py:518-537 | every table emptied, S and its edges removed, every node unflagged |
| Johnson.JohnsonRun.JohnsonStep1 | TP4/johnson_app.py:862-888 | a new flagged S with a weight-0 edge to every other node |
| Johnson.JohnsonRun.JohnsonStep2 | TP4/johnson_app.py:890-1024 | None without S; otherwise None exactly when a negative cycle is reachable, else h holds least walk weights from S |
| Johnson.JohnsonRun.JohnsonStep3 | TP4/johnson_app.py:1026-1073 | the directed edges reweighted with h |
| Johnson.JohnsonRun.JohnsonStep4 | TP4/johnson_app.py:1075-1124 | the d' matrix over the ordinary nodes, or over 1 to 5 when there is none |
| Johnson.JohnsonRun.JohnsonStep5 | TP4/johnson_app.py:1126-1173 | the final matrix over the ordinary nodes |
| Johnson.JohnsonRun.RunJohnson | TP4/johnson_app.py:750-788 | nothing under two nodes; otherwise the reset (position 0, one more id used), S added, and either a reachable negative cycle with every result table empty, or all five steps with what they establish, the d' matrix over the ordinary nodes included |
| Johnson.JohnsonRun.CurrentStepData | TP4/johnson_app.py:1175-1178 | the step `current_step` points at, if any |
| Johnson.JohnsonRun.NextStep | TP4/johnson_app.py:1180-1186 | one step forward while a recorded step remains |
| Johnson.JohnsonRun.PrevStep | TP4/johnson_app.py:1188-1194 | one step back unless at the start |
| Johnson.JohnsonRun.GoToStep | TP4/johnson_app.py:1196-1203 | only 0 to 5 are accepted |
| Johnson.JohnsonRun.ResetAlgorithm | TP4/johnson_app.py:1205-1206 | the same state as `reset_johnson_state` |

## Left out

- Drawing, scenes, canvases, message boxes, buttons, focus and `print`. The applications' callbacks are methods, and their messages become result values.
- Timers are out of scope: the DSATUR animation timer is a boolean field, and ticks are calls of `DsaturStep`.
- The random graph generators of TP4/johnson_app.py and TP4/dsatur_app.py are not modelled.
- Parent links (`node.parent`, `parent.children.index(node)`) are replaced by the recursion's own stack, and Python object identity by node values. The single identity test that changes behaviour is modelled explicitly: `parent is self.root` becomes an `isRoot` flag.
- BStar.InsertTop, BStar.DeleteTop: Python's `RecursionError` is modelled by fuel, a recursion depth of `RecursionLimit := 1000`. Running out of fuel raises `RecursionError`; deeper recursion than that is not distinguished.
- BStarEngine.BStarTree.Insert, BStarEngine.BStarTree.Delete, TreeApp.TreeWindow.AddIfAbsent, TreeApp.TreeWindow.RemoveIfPresent, ClassicBTree.BTree.Delete: on a raise the model promises nothing about the tree left behind. The program has already changed nodes in place by then: b_arbre_star.py:238 pops the key, and :286-291 edit the merged node, before :279 raises.
- BStarFacts.InsertShallow, BStarDelete.DeleteShallow, BStarDelete.DeleteShallowAsWritten, BStarEngine.BStarTree.Insert, BStarEngine.BStarTree.Delete: whole-operation results are proved only for trees of at most two levels (`Shallow`), and that shape is not shown to be preserved. A three-way split under a full root grows a third level. On deeper trees the split gives its three new nodes no children (b_arbre_star.py:197-207), so subtrees are lost, as in the program.
- TreeApp.TreeWindow.CreerArbre, TreeApp.TreeWindow.AddAll: the key-set result "the tree holds exactly the listed keys" is stated for the classic type only. For the B* type each insertion is proved only on trees of at most two levels, and that shape is not kept across a sequence of insertions.
- TreeApp.CheckOrder, Text.ParseInt, Text.IsDigit, TreeApp.ParseKeyList, MergeSortApp.ParseArray: digits are the ASCII ones. Python's `str.isdigit` also accepts characters such as "²"; `verifier_order` (TP2/TP2.py:101-106) then raises an uncaught ValueError from `int()`, while CheckOrder reports a refusal. Other Unicode decimal digits, such as the Arabic-Indic "٥" (U+0665), pass both `str.isdigit` and `int()`: the program accepts "٥" as order 5 and converts it in key lists and arrays, while the model refuses it in all four places.
- Text.IsSpace: whitespace is what `str.isspace()` accepts below U+0100; Unicode whitespace above U+00FF is not modelled.
- Johnson.JohnsonRun.JohnsonStep1, Johnson.JohnsonRun.JohnsonStep2, Johnson.JohnsonRun.JohnsonStep3, Johnson.JohnsonRun.JohnsonStep4, Johnson.JohnsonRun.JohnsonStep5: the `johnson_steps` entries are recorded as `StepKind` values (their `step_type`). The titles, descriptions, formulas and display tables (`bellman_ford_table`, `edges`) are not kept; the matrices and potentials they show are fields of `JohnsonRun`.
- Johnson.ListArcs, WeightedGraphs.ListEntries, Johnson.DirectMatrix, ColoringGraph.Graph.BlankAll: dictionary iteration order is a nondeterministic choice (`:|`). Every contract holds for any order, and the results do not depend on it.
- Johnson: node labels are the node ids, as `str(node_id)` gives them; the optional custom `label` of `add_node` is not modelled. `float('inf')` is `None`, and weights are integers as the program's dialogs and generator give them.
- TP3.py and TP2.py at the repository root are near-duplicates of TP3/TP3.py and TP2/TP2.py: the same logic at other line numbers (TP3.py:61-85 `load_array`, :161-193 `generate_steps`, :224-276 `apply_step`; TP2.py:41-62 `verifier_order`, :72-120 `creer_arbre`, :123-238 the other callbacks). The rows above cite the subdirectory copies. The root TP3.py differs only in highlighting for a one-element range.
- ClassicBTree.BTree.Search: the optional `node` argument of `search` is always the root when called from outside; only that use is modelled.
- The `visible` flag and drawing positions of TP3's node states are not modelled; positions are replaced by the level map that `_collect_nodes` builds.

## Findings

| source | as written | input that shows it | evidently intended | confidence | as-written member | corrected member |
|---|---|---|---|---|---|---|
| b_arbre_star.py:277-279 | after a merge, the re-split always pairs the merged node with its right neighbour (`_three_way_split_strict(parent, index(merged))` reads `children[idx+1]`) | order 4: root [10,20] over [5,7],[12,15],[22,25], delete 25 (the merged node is the last child); or root [10] over [5,7],[12,15], delete 5 (the merged node has become the root) | pair the merged node with a neighbour that exists, or grow a new root when the merged node is the root | not executed | BStarDelete.ResplitRaisesAtLastChild, BStarDelete.ResplitRaisesAtNewRoot | BStarDelete.DeleteShallow, BStarEngine.BStarTree.DeleteCorrected |
