# Verification of Abscom's core

A Dafny 4.11 model of the parts of Abscom that carry algorithmic state, with proofs of what they are
for. `dafny verify dfyconfig.toml` checks all of it.

- `Scalar`, `ScalarBackward`, `ScalarCalculus`: the scalar autograd graph as shared heap nodes with
  in-node marks. The reverse sweep computes the forward-mode tangent, the sum over paths, and the
  derivative in the epsilon-delta sense. Doubles are reals.
- `Determinant`, `MatrixLaws`, `MatrixKernels`: Laplace expansion; the laws that determine it up to
  its value at the identity; from them the determinant of a product and of a transpose; the scalar
  and the four-lane product and the transpose on row-major buffers.
- `HashTable`, `HashMap`, `HashMapRuns`: the open-addressing map, for any hash function, with
  allocation failures and the ledger of owned values.
- `SortSpec`, `Neighbours`, `StableSorts`, `MergeSorts`, `LinearSorts`, `RadixSort`, `ExchangeSorts`,
  `ObjectOrder`, `AllSorts`: the sorting suite over object references, with the merges and passes it
  skips for lack of memory; binary search; exactly when `compare_objs` is an order on a list, which
  is what the sorts need; and the stable sorts side by side.
- `Regex`, `RegexReading`, `RegexPatterns`: both matchers against one language, the scanners, how a
  pattern is read, and what can be read off it: when a search asks for the whole text, when it agrees
  with the scanners, when these honour `^`.
- `Dict`, `Json`, `JsonIO`: the chained dictionary on linked nodes, the parser with its cursor, the
  printer. `JsonDocuments`, `JsonTaken`, `JsonGrammar`, `JsonAccepts`: exactly which texts are read and
  as what, against documents as trees and the grammar of RFC 8259. `JsonRoundTrip`, `JsonFaithful`:
  what is printed is a document of that grammar, and exactly which values survive a round trip.
- `Frames`, `Stream`: WebSocket frames against RFC 6455, in both directions, and the stream reader
  under any chunking.
- `Blocks`, `Sha256`, `Sha1`, `HashConstants`, `KnownAnswers`: the digests and HMAC against FIPS 180-4,
  RFC 3174 and RFC 2104, where their constants come from, and the examples of FIPS 180-2.
- `NumberTheory`, `Strings`, `Pool`: primes, gcd, lcm and binomials; split, join and count; the
  object pool.

What the model takes from outside is a parameter: whether an allocation fails, the hash function, the
comparator, `exp`, the rounding of an integer to a double, `"%.17g"` and `atof`. `recv` delivers any
non-empty part of what is left of the stream.

The code and its documentation differ in these places, and the model follows the code:

- `abs_scalar_backward` zeroes all gradients first (src/abs_scalar.c:134), so nothing accumulates on
  top of earlier gradients as include/abscom/abs.h:672-673 and docs/ultimate.md:43 say.
  `ScalarBackward.SweepLeafTwice` is an input, `ScalarBackward.BackwardOnTop` says when they are right.
- `re_match` searches anywhere in the text (src/abs_regex.c:33-39) where docs/regex.md says that the
  whole text must match. `RegexPatterns.FoundInside` is an input, `RegexPatterns.WholeTextExactly`
  says for which patterns the documentation is right.
- The scanners drop a leading `^` at every place (src/abs_regex.c:72-75) where docs/regex.md says that
  `^` matches only at the very start. `Regex.CaretScansEverywhere` is an input,
  `RegexPatterns.CaretExactly` says for which patterns the documentation is right.
- The example of docs/regex.md:32-36 takes a backslash in a pattern for an escape, which it is not.
  `RegexPatterns.EmailNotFound` is the example, `RegexPatterns.EmailExactly` says where its pattern is
  found.
- docs/regex.md:29 promises an empty list for arguments that are no strings; `re_findall` and `re_sub`
  return an error exactly then (src/abs_regex.c:88-89, 108-109), by `Regex.ReFindAll` and
  `Regex.ReSub`.
- `compare_objs` gives 0 across kinds and against NaN (src/abs.c:1255-1269), so it is no order on some
  lists; docs/sorting.md speaks of one sort for all kinds. `ObjectOrder.MixedListLooksSorted`,
  `ObjectOrder.NaNLooksSorted` and `AllSorts.NaNStays` are inputs, `ObjectOrder.PreorderExactly`,
  `ObjectOrder.CheckExactly` and `AllSorts.ObjectsSortedExactly` say for which lists all is well.
- docs/json.md promises an error for input that is no JSON; a string literal without its closing quote
  is accepted (src/abs.c:994-1018), and so is any run of number characters (src/abs.c:1024-1038).
  `JsonAccepts.OpenQuoteAccepted` and `JsonAccepts.DifferenceAccepted` are inputs,
  `JsonAccepts.StringsExactly` and `JsonAccepts.NumbersExactly` say for which of these texts the
  promise is kept.
- docs/json.md:27 shows the output of `json_dump` without white space; the code puts a space behind each
  comma and colon (src/abs.c:1517-1575). `JsonRoundTrip.TextIsDocument` says where spaces stand.
- docs/websockets.md:20 promises -1 for a malformed frame; the first byte is not looked at and lengths
  need not be in shortest form (src/abs_ws.c:207-247). `Frames.MalformedAccepted` gives inputs,
  `Frames.MalformedExactly` says for which buffers the promise is kept.

## Model

| member | source | states |
|---|---|---|
| Scalar.Node.constructor | src/abs_scalar.c:35-46 | A node starts with zero gradient and unmarked, over the given parents, and its graph is its parents' graphs and itself |
| Scalar.NewLeaf | src/abs_scalar.c:48-50 | A leaf with the given value |
| Scalar.NewAdd | src/abs_scalar.c:52-55 | Addition node over any two nodes, possibly the same; NULL parents or failed allocation give NULL |
| Scalar.NewMul | src/abs_scalar.c:57-60 | Multiplication node, likewise |
| Scalar.NewRelu | src/abs_scalar.c:62-65 | ReLU node, likewise |
| Scalar.NewSigmoid | src/abs_scalar.c:67-71 | Sigmoid node whose value is the logistic function of its parent, over an abstract `exp` |
| Scalar.ClearVisited | src/abs_scalar.c:28-33 | Clears every mark below a node when marks are closed downwards, although it stops at unmarked nodes |
| Scalar.ZeroGrad | src/abs_scalar.c:81-88 | Every reachable gradient is zero and every mark clear afterwards, although marks are cleared at every level of the recursion |
| Scalar.Count | src/abs_scalar.c:90-97 | The count is exactly the length of the traversal order from the same marks |
| Scalar.BuildOrder | src/abs_scalar.c:99-106 | Appends the traversal order, cut off only at the capacity |
| Scalar.PostOrderNodes | src/abs_scalar.c:99-106 | The traversal order holds exactly the reachable nodes not marked before |
| Scalar.PostOrderIsTopological | src/abs_scalar.c:99-106 | It holds no node twice and each node after its parents |
| Scalar.Collect | src/abs_scalar.c:136-143 | The array sized by the count holds the whole order: the capacity guard never drops a node |
| Scalar.ReleaseAll | src/abs_scalar.c:166 | The releasing loop frees each listed node once, in the listed order, and only live ones |
| Scalar.Free | src/abs_scalar.c:152-168 | Frees exactly the reachable nodes, each once, and nothing when the array cannot be allocated |
| ScalarBackward.BackwardNode | src/abs_scalar.c:108-130 | Adds to each parent its share of the gradient, and twice when both parents are one node |
| ScalarBackward.SweepKeeps | src/abs_scalar.c:147-148 | One step of the reverse sweep keeps: gradient plus pending contributions equals the forward-mode tangent, for every node |
| ScalarBackward.Sweep | src/abs_scalar.c:147-148 | After the reverse loop every reachable gradient is the forward-mode tangent of the root |
| ScalarBackward.Backward | src/abs_scalar.c:132-150 | Gradients are zeroed first, so the result does not depend on what they held; then each equals the tangent, and is 0 where every path from the root passes a ReLU whose value is 0; marks are clear and nothing else changes |
| ScalarBackward.ClosedPathsCarryNothing | src/abs_scalar.c:119-122 | Where every path passes a ReLU whose value is 0, at its kink or below, nothing arrives |
| ScalarBackward.SweepKink | src/abs_scalar.c:119-122 | The input at the kink: below the ReLU of a leaf with value 0 the gradient stays 0 |
| ScalarBackward.BackwardOnTop | src/abs_scalar.c:132-150 | What is added on top of a gradient is the tangent exactly where the gradient was zero before: the sweep accumulates, as documented, if and only if all gradients were zero |
| ScalarBackward.SweepLeafTwice | src/abs_scalar.c:132-150 | The input where it does not: two sweeps over one leaf leave the gradient 1 |
| ScalarBackward.TangentIsPathSum | src/abs_scalar.c:108-150 | The tangent, hence the gradient, is the sum over all root-to-node paths of the products of local derivatives |
| ScalarBackward.PathsComplete | src/abs_scalar.c:108-150 | The path list of that sum contains exactly the paths |
| ScalarBackward.PathsDistinct | src/abs_scalar.c:108-150 | That path list has no path twice |
| ScalarCalculus.TangentIsDerivative | src/abs_scalar.c:108-150 | The tangent is the epsilon-delta derivative of the root's recomputed value at that node, away from ReLU kinks, for any exponential whose slope is itself |
| ScalarCalculus.LocalSlopesExactly | src/abs_scalar.c:108-130 | At all inputs, kinks included, the factors of the path sum are the left derivatives of the operations, and the only numbers that are |
| ScalarCalculus.ReluLeftSlope | src/abs_scalar.c:119-122 | The ReLU rule is the left derivative at every input |
| ScalarCalculus.ReluSlope | src/abs_scalar.c:119-122 | The ReLU rule is the derivative exactly when the input is not zero |
| ScalarCalculus.LogisticSlope | src/abs_scalar.c:123-126 | s(1 - s) is the derivative of the logistic function |
| ScalarCalculus.LogisticSymmetric | src/abs_scalar.c:67-71 | The sigmoid lies strictly between 0 and 1 and is symmetric about (0, 1/2) |
| ScalarCalculus.ProductSlope | src/abs_scalar.c:115-118 | Product rule behind the multiplication case |
| ScalarCalculus.ChainSlope | src/abs_scalar.c:119-126 | Chain rule behind the unary cases |
| ScalarCalculus.PerturbedZero | src/abs_scalar.c:52-71 | The recomputed value without perturbation is the value the constructors stored |
| Determinant.DetLinear | src/abs_matrix.c:331-350 | Laplace expansion is linear in each row |
| Determinant.DetSwap | src/abs_matrix.c:331-350 | Swapping two adjacent rows negates it |
| Determinant.DetEqualRows | src/abs_matrix.c:331-350 | It vanishes when two adjacent rows are equal |
| Determinant.DetEye | src/abs_matrix.c:331-350 | It is 1 on the identity of every size |
| Determinant.FillMinor | src/abs_matrix.c:338-344 | The copied buffer is the minor without the first row and the column |
| Determinant.DetRec | src/abs_matrix.c:331-350 | The recursion on flat buffers, with its own formulas for sizes 1 and 2, for any pattern of failed allocations: a minor whose buffer cannot be allocated counts as 0 |
| Determinant.ComputedIsDet | src/abs_matrix.c:331-350 | When no allocation fails that is the Laplace expansion |
| Determinant.MatrixDet | src/abs_matrix.c:352-357 | A matrix that is not square is an error; otherwise what the recursion computes, which is the determinant when no allocation fails |
| Determinant.MatrixEye | src/abs_matrix.c:128-135 | A zeroed buffer with ones at i * n + i is the identity |
| MatrixLaws.DeterminedByLaws | src/abs_matrix.c:331-350 | Any function of matrices that is linear in each row and negated by a swap of neighbouring rows is the determinant times its value at the identity, for every size |
| MatrixLaws.DetProduct | src/abs_matrix.c:168-181 | The determinant of a product is the product of the determinants, for every size |
| MatrixLaws.DetColLinear | src/abs_matrix.c:331-350 | The expansion along the first row is linear in each column |
| MatrixLaws.DetColSwap | src/abs_matrix.c:331-350 | Swapping two adjacent columns negates it |
| MatrixLaws.DetTranspose | src/abs_matrix.c:318-328 | A matrix and its transpose have the same determinant |
| MatrixKernels.Dot | src/abs_matrix.c:55-57 | The scalar inner loop computes one entry of the product |
| MatrixKernels.DotLanes | src/abs_matrix.c:71-89 | The loop with four lanes and a scalar rest computes the same entry |
| MatrixKernels.MulKernel | src/abs_matrix.c:51-93 | Both kernels fill the buffer with the product, for any dimensions |
| MatrixKernels.MatrixMul | src/abs_matrix.c:168-181 | A dimension mismatch and a lack of memory are errors, in this order; otherwise the product in a new buffer |
| MatrixKernels.MatrixTranspose | src/abs_matrix.c:318-328 | Writing row by row into columns gives the transpose in a new buffer |
| MatrixKernels.ProductEntry | src/abs_matrix.c:51-93 | Entry i * cols + j of a product buffer is the sum of the products of entries i * common + k and k * cols + j |
| MatrixKernels.TransposeEntry | src/abs_matrix.c:318-328 | Entry j * rows + i of a transposed buffer is entry i * cols + j |
| MatrixKernels.DetOfProduct | src/abs_matrix.c:168-181 | So the determinant computed for a product buffer is the product of those of its factors |
| MatrixKernels.DetOfTransposed | src/abs_matrix.c:318-328 | And that of a transposed buffer is that of the original |
| HashTable.AbsentIfGap | src/abs_hashmap.c:62-71 | A key not met before the first empty slot of its probe sequence is not stored, for any hash function |
| HashTable.StoreConsistent | src/abs_hashmap.c:118-134 | Filling a free slot on the probe sequence keeps every other key findable and updates one key of the abstract map |
| HashTable.BuryConsistent | src/abs_hashmap.c:146-157 | A tombstone keeps every other probe sequence intact |
| HashTable.EmptySlot | src/abs_hashmap.c:62-71 | Counters below the capacity imply an empty slot, which ends every probe |
| HashMap.Map.constructor | src/abs_hashmap.c:73-78 | A new map is empty |
| HashMap.Map.FindKey | src/abs_hashmap.c:62-71 | Finds the slot of a key exactly when the abstract map has it; the loop terminates |
| HashMap.Map.Get | src/abs_hashmap.c:137-140 | The abstract map's value, or NULL |
| HashMap.Map.Contains | src/abs_hashmap.c:142-144 | Membership in the abstract map |
| HashMap.Map.Size | src/abs_hashmap.c:159-161 | The size of the abstract map |
| HashMap.Rehash | src/abs_hashmap.c:41-48 | Copying into new arrays keeps the abstract map and drops all tombstones |
| HashMap.Map.Resize | src/abs_hashmap.c:33-60 | Keeps the abstract map, releases nothing, and changes nothing when memory runs out |
| HashMap.Map.FindForSet | src/abs_hashmap.c:114-127 | Finds the key's slot or else the first reusable slot of its probe sequence |
| HashMap.Map.Reserve | src/abs_hashmap.c:106-113 | On success one more entry fits below 70% load, in 16 slots at first and in twice as many as before when it did not fit |
| HashMap.Map.Set | src/abs_hashmap.c:104-135 | Success updates one key and releases the displaced value; failure leaves map and values as they were and happens only for a NULL key, lack of memory, or a capacity that cannot double, which takes 2^61 accepted values |
| HashMap.Map.Remove | src/abs_hashmap.c:146-157 | Removes a present key and releases its value; an absent key is an error |
| HashMap.Map.Clear | src/abs_hashmap.c:89-102 | Empties the map, releasing the value of each key once |
| HashMap.Map.Destroy | src/abs_hashmap.c:80-87 | Afterwards every accepted value has been released as often as it was accepted |
| HashMap.Map.ForEach | src/abs_hashmap.c:163-170 | Visits entries of the map, each once, all of them unless the visitor stops |
| HashMap.ReleasedOnce | src/abs_hashmap.c:104-157 | A value accepted once is never released twice, nor while a key holds it |
| HashMapRuns.Step | src/abs_hashmap.c:89-157 | Any call answers as it must on the abstract map, changes it as specified and keeps all invariants |
| HashMapRuns.Run | src/abs_hashmap.c:33-157 | In any run, with any allocation failures, each call succeeds or fails as the replay of the calls before it says; the map is that replay, and accepted values are the live ones plus the released ones |
| HashMapRuns.LastTouchDecides | src/abs_hashmap.c:89-157 | In that replay a key is where the last successful call on it, or the last Clear, has left it |
| HashMapRuns.UntouchedStays | src/abs_hashmap.c:89-157 | And a key no such call concerns is where it was |
| HashMapRuns.RunDetermined | src/abs_hashmap.c:33-157 | Without failed allocations every Set of a key succeeds and a Remove exactly when the key is there, in every run of fewer than 2^61 calls |
| HashMapRuns.SameRuns | src/abs_hashmap.c:33-157 | So answers and map depend on the calls only, neither on the hash function nor on the history of the table |
| HashMap.CountIsSize | src/abs_hashmap.c:159-161 | As many slots are occupied as keys are stored |
| SortSpec.StableSortUnique | src/abs_sort.c:28-61 | There is one stable sort: two sorted permutations that keep equal elements in order are identical, wherever the comparator is a preorder on the members of the list |
| StableSorts.SortBubble | src/abs_sort.c:28-35 | Always leaves a permutation; a list whose neighbours are in order as it was; the stable sort of every list on whose members the comparator is a total preorder |
| StableSorts.BubbleExactly | src/abs_sort.c:28-35 | Bubble sort sorts every arrangement of a list if and only if the comparator is a preorder on its members |
| StableSorts.SortInsertion | src/abs_sort.c:49-61 | Likewise: a permutation, an ordered list unchanged, the stable sort under a preorder |
| StableSorts.InsertionExactly | src/abs_sort.c:49-61 | Insertion sort sorts every arrangement of a list under the same condition only |
| MergeSorts.Merge | src/abs_sort.c:104-125 | Leaves the merge of the two runs in place, or nothing changes when the copies cannot be allocated |
| MergeSorts.MergeSortRec | src/abs_sort.c:127-134 | Replaces the range by what its merges make of it, those that find no memory skipped, and leaves the rest unchanged, for every comparator |
| MergeSorts.SortMerge | src/abs_sort.c:136-139 | For every pattern of failed merges: always a permutation; under a preorder sorted if and only if no skipped merge had anything to do; the stable sort when none is skipped |
| MergeSorts.SortedExactly | src/abs_sort.c:104-139 | The result is sorted exactly when each skipped merge had no element of its left half above one of its right half |
| MergeSorts.AllSortedExactly | src/abs_sort.c:104-139 | All lists of a size are sorted, already those of two different elements, if and only if no merge is skipped |
| MergeSorts.MergeKeepsOrder | src/abs_sort.c:115-121 | A merge keeps the inner order of each run, so it repairs nothing that was skipped inside |
| MergeSorts.MergeSortedRuns | src/abs_sort.c:115-121 | The merge of sorted runs is sorted |
| MergeSorts.MergeClass | src/abs_sort.c:115-121 | The merge of two runs keeps equal elements in order, those of the left run first |
| StableSorts.SortedCopy | src/abs.c:1345-1364 | `sorted` leaves its argument alone and returns what bubble sort makes of it under the comparator or, with `reverse`, under the reversed one: the stable sort where that is a preorder, ascending or, with `reverse`, descending |
| LinearSorts.Distribute | src/abs_sort.c:187-192 | The backward loop puts every element at its final place: the buckets in order, each in input order |
| LinearSorts.GatherIsStableSort | src/abs_sort.c:169-198 | The buckets one after the other are the stable sort by key |
| LinearSorts.CountKeys | src/abs_sort.c:185 | The counters are the bucket sizes |
| LinearSorts.PrefixSums | src/abs_sort.c:186 | The running sums are the bucket ends |
| LinearSorts.SortCounting | src/abs_sort.c:169-198 | Leaves the stable sort by value, for any integers, or the list as it was when memory runs out |
| RadixSort.CountSortExp | src/abs_sort.c:200-213 | One pass is the stable sort by a decimal digit, or nothing when memory runs out |
| RadixSort.RadixStep | src/abs_sort.c:215-223 | Stably sorted by the lower digits, then by the next one, is stably sorted by both |
| RadixSort.SortRadix | src/abs_sort.c:215-223 | For every pattern of failed passes, on non-negative integers: the stable sort by value with the digits of the failed passes read as zero; by value when none fails |
| RadixSort.KeptValue | src/abs_sort.c:215-223 | Without failed passes a number of that many digits keeps its value |
| RadixSort.RadixExactly | src/abs_sort.c:215-223 | All lists of numbers with n digits are sorted if and only if none of the n passes is skipped |
| AllSorts.ValueOrder | src/abs_sort.c:169-223 | On integer objects, negative ones included, the stable sort by value is the stable sort under compare_objs |
| AllSorts.OneResult | src/abs_sort.c:28-223 | So any two stable sorts of a list of integers, under either comparison, are the identical sequence of references |
| AllSorts.SixWays | src/abs_sort.c:28-223 | Bubble, insertion, merge, counting and radix sort and `sorted`, each on its own copy of one list of non-negative integers, leave the identical sequence of references |
| ExchangeSorts.SortSelection | src/abs_sort.c:37-47 | Leaves a sorted permutation of every list on whose members the comparator is a total preorder |
| ExchangeSorts.GapPass | src/abs_sort.c:69-76 | A pass puts elements `gap` apart in order and permutes the list |
| ExchangeSorts.SortShell | src/abs_sort.c:65-78 | Leaves a sorted permutation |
| ExchangeSorts.Heapify | src/abs_sort.c:80-92 | Recursive sifting restores the heap below a node and permutes only the heap |
| ExchangeSorts.HeapStep | src/abs_sort.c:98-101 | Each round keeps a heap prefix, a sorted suffix and nothing in the suffix below the prefix |
| ExchangeSorts.RootLargest | src/abs_sort.c:80-102 | The root of a heap is its largest element |
| ExchangeSorts.SortHeap | src/abs_sort.c:94-102 | Leaves a sorted permutation |
| ExchangeSorts.Partition | src/abs_sort.c:141-152 | Splits the range around its last element and permutes it |
| ExchangeSorts.QuickSortRec | src/abs_sort.c:154-160 | Sorts the range and permutes only it |
| ExchangeSorts.SortQuick | src/abs_sort.c:162-165 | Leaves a sorted permutation |
| ExchangeSorts.SortedPermutationsAgree | src/abs_sort.c:28-165 | All sorts agree place by place up to equality of keys |
| ExchangeSorts.IsSorted | src/abs_sort.c:231-237 | Decides on any list whether neighbours are in order, and so sortedness where the comparator is a total preorder on the members |
| Neighbours.NeighboursExactly | src/abs_sort.c:231-237 | The check is right on every arrangement of a list if and only if the comparator is a preorder on its members |
| Neighbours.HiddenInversion | src/abs_sort.c:231-237 | Otherwise some arrangement has all neighbours in order and is not sorted |
| ExchangeSorts.BinarySearch | src/abs_sort.c:301-314 | On a sorted rearrangement finds an index exactly when the original list has an equal element, the comparator being a preorder on list and target |
| ObjectOrder.StrcmpExactly | src/abs.c:1263-1266 | Negative exactly when the first string ends or has the smaller character where the two part |
| ObjectOrder.CompareExactly | src/abs.c:1255-1269 | compare_objs is -1 exactly when the first value comes first, 1 exactly when the second does, and 0 otherwise: integers by size, numbers by their places on the real line closed by the infinities, strings by the dictionary, nothing else |
| ObjectOrder.SortedObjectsExactly | src/abs.c:1255-1269 | A list is sorted under it exactly when no member has a later one before it in that sense |
| ObjectOrder.SortedKinds | src/abs.c:1255-1269 | So every sorted list has its strings in dictionary order and its numbers ascending |
| AllSorts.SortTwoWords | src/abs.c:1345-1364 | Two words out of dictionary order are exchanged by `sorted` |
| AllSorts.SortWords | src/abs.c:1345-1364 | An input: "b", "a" becomes "a", "b" |
| ObjectOrder.PreorderExactly | src/abs.c:1255-1269 | compare_objs is a total preorder on a list, hence the sorts apply, exactly when no member compares equal to two unequal ones: no other kind beside them, no NaN between unequal numbers, no float two integers round to |
| ObjectOrder.CheckExactly | src/abs.c:1255-1269 | So is_sorted is right on every arrangement of a list exactly when nothing in it confuses two unequal members |
| AllSorts.ObjectsSortedExactly | src/abs.c:1255-1269 | And bubble and insertion sort sort every arrangement of it under the same condition only |
| ObjectOrder.OrderedLists | src/abs.c:1255-1269 | It is one on lists of integers, of strings, of floats other than NaN, infinities included, and of such floats mixed with integers up to 2^53 |
| ObjectOrder.NaNLooksSorted | src/abs.c:1259-1263 | The list 2.0, NaN, 1.0 passes the neighbour check although 2.0 stands before 1.0 |
| AllSorts.NaNStays | src/abs.c:1259-1263 | Bubble and insertion sort leave it as it is |
| ObjectOrder.MixedListLooksSorted | src/abs.c:1255-1269 | The list 2, "a", 1 passes the neighbour check although 2 stands before 1 |
| Regex.MatchHere | src/abs_regex.c:24-31 | True exactly when some stretch from the place is in the language of the pattern |
| Regex.MatchStar | src/abs_regex.c:17-22 | The same for a closure followed by the rest |
| Regex.Match | src/abs_regex.c:33-39 | A search for such a place, or with a leading ^ a test of the start |
| Regex.ReMatch | src/abs_regex.c:41-45 | The search on two strings, false for anything else |
| RegexReading.TokensExactly | src/abs_regex.c:24-31 | A pattern is read as the one sequence of tokens that is spelled like it and in which dots, stars behind a character and a last dollar sign have their meanings |
| RegexReading.PlainExactly | src/abs_regex.c:24-39 | Text without . * ^ $ is found exactly in the texts that contain it |
| RegexReading.DotsExactly | src/abs_regex.c:24-39 | n dots are found exactly in texts of at least n characters |
| RegexReading.ClosureExactly | src/abs_regex.c:51-61 | The longest match of a closure is the whole run of its character |
| Regex.MatchLen | src/abs_regex.c:49-69 | The greatest length in the language or -1; non-negative exactly when match_here succeeds |
| Regex.LongestStar | src/abs_regex.c:51-61 | The same for a closure: the longest over all repetition counts |
| Regex.MatchAt | src/abs_regex.c:72-75 | Strips one leading ^ at every place |
| Regex.ReFindAll | src/abs_regex.c:87-105 | Returns the substrings of the leftmost, longest, non-overlapping scan; terminates on empty matches |
| Regex.ReSub | src/abs_regex.c:107-134 | Replaces exactly the matches of that scan, so as many as re_findall returns |
| Regex.ScanUnique | src/abs_regex.c:87-134 | There is only one such scan |
| Regex.HitsExactly | src/abs_regex.c:87-134 | A match is reported at a place exactly when the pattern can match there and the place is not inside an earlier match |
| Regex.InterleaveTexts | src/abs_regex.c:87-134 | The text is the gaps interleaved with the matches |
| Regex.SearchAgainstScan | src/abs_regex.c:33-134 | Without ^, the search succeeds exactly when the scan finds something or the pattern is nullable, because the end of the text is never scanned |
| RegexPatterns.SearchIsScanExactly | src/abs_regex.c:33-134 | Search and scanners agree on every text if and only if the pattern needs a character and, after a ^, has .* before every literal or consists of . and closures only |
| RegexPatterns.SearchIsScanIn | src/abs_regex.c:33-134 | In one text, without ^, they agree exactly if the pattern needs a character or the text has a last one, which a closure takes if the pattern is anchored |
| Regex.MatchableAtEnd | src/abs_regex.c:94-116 | Exactly nullable patterns match at the end of a text |
| Regex.FailedSearch | src/abs_regex.c:33-134 | After a failed search of such a pattern re_findall is empty and re_sub returns the text |
| Regex.DollarOnlySearched | src/abs_regex.c:94-116 | "$" is found by the search in every text and by the scanners in none |
| Regex.CaretScansEverywhere | src/abs_regex.c:72-75 | "^b" on "ab": not found by the search, found by the scan |
| Regex.CaretHonoured | src/abs_regex.c:72-105 | In one text the scanners report only a match at the start exactly when no later place outside it is matchable |
| RegexPatterns.WholeTextExactly | src/abs_regex.c:33-45 | re_match means "the whole text matches" for every text exactly for the patterns that open, with ^ or with .* before every literal, and close, with $ or with .* behind every literal |
| RegexPatterns.FoundInside | src/abs_regex.c:33-45 | The input where it does not: "a" is found in "xay", which it does not match as a whole |
| RegexPatterns.CaretExactly | src/abs_regex.c:72-134 | For a pattern that starts with ^ the scanners report at most a match at the very start, in every text, exactly when the pattern is "^$" or has .* before every literal |
| RegexPatterns.EmailExactly | src/abs_regex.c:24-39 | A backslash is no escape: the documented pattern for mail addresses is found exactly in texts with a backslash, and a character behind it, after an @ |
| RegexPatterns.EmailNotFound | src/abs_regex.c:24-39 | So not in the documented address |
| RegexPatterns.StretchLeft | src/abs_regex.c:24-39 | A match of an opening pattern can start at any earlier place |
| RegexPatterns.StretchRight | src/abs_regex.c:24-39 | A match of a closing pattern can run to the end of the text |
| Dict.DSetContents | src/abs.c:337-355 | dset on the bucket chains changes the one key and keeps keys unique and in their buckets |
| Dict.DGetContents | src/abs.c:357-367 | dget finds exactly what the dictionary holds |
| Dict.AssignOverwrites | src/abs.c:341-346 | Assigning to the first node with the key overwrites it in the chain |
| Dict.PutKeys | src/abs.c:341-354 | A new key comes to the front of its chain, a known one keeps its place, so printing keeps its order |
| Dict.SlotIs | src/abs.c:330-339 | The bucket of a key: its characters as digits to base 33 behind 5381, modulo 2^64 and then 16, although the code wraps in every step |
| Dict.Dict.constructor | src/abs.c:283-296 | Sixteen empty buckets |
| Dict.Dict.Locate | src/abs.c:340-347 | The walk along a chain finds the node with the key, if there is one |
| Dict.Dict.Set | src/abs.c:337-355 | On linked nodes: the abstract map gains or changes one key, or nothing changes when the node cannot be allocated; the count is the number of keys; when the copy of the key fails a node without a key is linked in front of the bucket, counted, and nothing else changes |
| Dict.Dict.Get | src/abs.c:357-367 | The value of the key or none |
| JsonIO.Parser.SkipSpaces | src/abs.c:983-987 | Moves the cursor past white space |
| JsonIO.Parser.ParseBody | src/abs.c:994-1018 | Reads a string body with its escapes up to the closing quote or the end of the text |
| JsonIO.Parser.ParseString | src/abs.c:989-1022 | Reads a string literal; an unterminated one is accepted |
| JsonIO.Parser.ParseNumber | src/abs.c:1024-1038 | Reads at most 63 characters of a number; a dot or exponent makes it a float |
| JsonIO.Parser.ParseKeyword | src/abs.c:1040-1045 | true, false, null or an error |
| JsonIO.Parser.ParseList | src/abs.c:1047-1062 | Reads a list, moving the cursor exactly as the grammar function does, errors included |
| JsonIO.Parser.ParseDict | src/abs.c:1064-1085 | Reads an object, storing members with dset |
| JsonIO.Parser.ParseMembers | src/abs.c:1070-1084 | The member loop builds exactly the dictionary of the grammar function |
| JsonIO.Parser.ParseValue | src/abs.c:1087-1095 | Reads any value |
| JsonIO.JsonParse | src/abs.c:1097-1105 | One value with nothing but white space behind it, or an error |
| JsonDocuments.ReadTree | src/abs.c:983-1095 | Reading any document, whatever white space stands between its tokens, in front of any text that cannot continue a number gives its value and leaves exactly that text |
| JsonTaken.TreeRead | src/abs.c:983-1095 | Whatever is read without an error is the text of such a document, and the result its value |
| JsonTaken.AcceptedExactly | src/abs.c:981-1105 | json_parse reports no error exactly for the documents: values with white space around the tokens, any character behind a backslash, any run of at most 63 number characters for a number, only a literal at the very end unclosed |
| JsonTaken.ParseDocument | src/abs.c:981-1105 | And what it returns for one is the value the document stands for |
| JsonGrammar.GrammarParses | src/abs.c:981-1105 | Every document of RFC 8259 whose numbers have at most 63 characters is read as the value it stands for, except that code points stay as they are written |
| JsonGrammar.StrictIsLenient | src/abs.c:981-1105 | Every such document is one json_parse takes |
| JsonGrammar.NumberMeaning | src/abs.c:1024-1038 | A number of section 6 of RFC 8259 is read as a float exactly when a fraction or an exponent follows its integer digits, and otherwise as the signed sum of its digits times their powers of ten |
| JsonGrammar.NumberTextMeaning | src/abs.c:1024-1038 | Any run of number characters that is taken: a float where it has a dot or an exponent sign anywhere, and otherwise the sum of the digits before the first other character, with the sign |
| JsonDocuments.ObjectMeaning | src/abs.c:1064-1085 | An object holds exactly its members; of two with the same key the later one counts |
| JsonAccepts.StringsExactly | src/abs.c:989-1022 | A text that starts with a quote and is not one closed literal is an error, as documented, if and only if some later quote is not escaped by a backslash |
| JsonAccepts.UnterminatedAccepted | src/abs.c:994-1018 | A literal that is not closed is read to the end of the text |
| JsonAccepts.NumbersExactly | src/abs.c:1024-1038 | Up to 63 number characters after a minus sign or a digit are read as a number, so the promised error is missing exactly where they are none by section 6 of RFC 8259 |
| JsonAccepts.NumberCharsExactly | src/abs.c:1027-1034 | Behind a digit exactly digits, signs, the dot, e, E and the six white space characters are taken |
| JsonAccepts.DecimalIsFloat | src/abs.c:1035-1036 | An input: 2.5 is a float |
| JsonAccepts.DigitsAreInteger | src/abs.c:1037 | An input: -12 is the integer -12 |
| JsonAccepts.SpacesExactly | src/abs.c:983-987 | Exactly the six characters of isspace may stand before a value |
| JsonAccepts.NoText | src/abs.c:1088-1089 | The error for white space alone |
| JsonAccepts.UnknownStart | src/abs.c:1040-1045 | The error for a start no value has |
| JsonAccepts.TrailingText | src/abs.c:1101-1103 | The error for text behind a document |
| JsonAccepts.ListNotContinued | src/abs.c:1055-1061 | The error for an element that neither a comma nor a bracket follows |
| JsonAccepts.KeyMissing | src/abs.c:989-991 | The error for a member without a key |
| JsonAccepts.ColonMissing | src/abs.c:1074-1076 | The error for a key without a colon |
| JsonAccepts.DictNotContinued | src/abs.c:1080-1083 | The error for a member that neither a comma nor a brace follows |
| JsonAccepts.DifferenceAccepted | src/abs.c:1024-1038 | The input: 1-2 is read as 1 |
| JsonAccepts.OpenQuoteAccepted | src/abs.c:994-1018 | The input: "abc without its closing quote is read as abc |
| JsonIO.Printer.EscapeText | src/abs.c:1492-1515 | Appends the escaped text |
| JsonIO.Printer.Dump | src/abs.c:1517-1575 | Appends the text of a value |
| JsonIO.Printer.DumpBuckets | src/abs.c:1552-1568 | Members in bucket order, separated across buckets |
| JsonIO.JsonDump | src/abs.c:1577-1584 | The text of a value |
| JsonRoundTrip.ReadText | src/abs.c:981-1105 | Reading the text of any value in front of any text that cannot continue a number gives what the value becomes and leaves exactly that text |
| JsonRoundTrip.ParseText | src/abs.c:1097-1105 | So json_parse(json_dump(x)) is never an error and is that value |
| JsonRoundTrip.EscapedPieces | src/abs.c:1492-1515 | An escaped string is a literal of section 7 of RFC 8259, named controls in two characters and the others in four lower-case digits, and it means the string, except for raw control characters, which come back as six characters |
| JsonRoundTrip.TextIsDocument | src/abs.c:1517-1575 | The printed text is the text of one document, with a space behind every comma and colon and no other white space |
| JsonRoundTrip.TextIsJson | src/abs.c:1517-1584 | With floats printed as numbers, that is a document of RFC 8259, for every value |
| JsonRoundTrip.TextPrintable | src/abs.c:1492-1575 | No control character is ever printed |
| JsonRoundTrip.NewlinePrinted | src/abs.c:1500 | The input: a line feed between a and b is printed as a backslash and n |
| JsonRoundTrip.TreeValue | src/abs.c:981-1105 | That document is one the parser takes, and its value is what the value becomes |
| JsonRoundTrip.IntTextReads | src/abs.c:1024-1038 | The decimal text of a long reads back as the same integer |
| JsonFaithful.RoundTripExactly | src/abs.c:981-1105 | json_parse(json_dump(x)) equals x, dictionaries as maps, exactly when x has no raw control character in a string or key, no set or opaque object, and only floats whose text reads back |
| JsonFaithful.RebuildBucketsView | src/abs.c:1064-1085 | Rebuilding a dictionary member by member gives the same map |
| JsonFaithful.UncleanKeysDiffer | src/abs.c:1505-1507 | A key with a raw control character is lost |
| JsonFaithful.IntegralFloatBecomesInt | src/abs.c:1035-1037 | 3.0 comes back as the integer 3 |
| JsonFaithful.ControlCharacterBecomesText | src/abs.c:1505-1507 | The character 1 comes back as six characters |
| Frames.EncodeFrame | src/abs_ws.c:184-205 | Writes the unmasked frame of section 5.2 of RFC 6455, or nothing when it does not fit |
| Frames.DecodeFrame | src/abs_ws.c:207-247 | Writes the payload of any buffer and returns its length, or returns -1 and writes nothing |
| Frames.DecodeHeader | src/abs_ws.c:218-239 | Reads the three length forms and the masking key |
| Frames.DecodeFrameInverts | src/abs_ws.c:207-247 | Decoding inverts a whole frame, masked with any key or not, whatever follows, exactly when it fits |
| Frames.StrictPrefixRejected | src/abs_ws.c:207-247 | Every strict prefix of a frame is rejected |
| Frames.MaskedTwice | src/abs_ws.c:241-242 | Masking twice with one key is the identity |
| Frames.XorExactly | src/abs_ws.c:242 | A bit of a masked byte is set exactly when it is set in one of the two, the byte and the key |
| Frames.FromBigValue | src/abs_ws.c:222-233 | The first length byte counts most |
| Frames.HelloFrames | src/abs_ws.c:184-247 | The first two examples of section 5.7 of RFC 6455 |
| Frames.HeaderForms | src/abs_ws.c:188-202 | The headers for 125, 126, 256, 65535 and 65536 bytes |
| Frames.FromBigEndian | src/abs_ws.c:198-199 | The length bytes read back as the length |
| Frames.OpcodeIgnored | src/abs_ws.c:207-247 | The FIN bit and the opcode do not influence decoding |
| Frames.AnyFormDecoded | src/abs_ws.c:207-247 | Every form of the length is decoded, shortest or not |
| Frames.FrameRebuilt | src/abs_ws.c:207-247 | What is decoded from a length in shortest form is, encoded again, what the buffer starts with, its first byte aside |
| Frames.BigEndianOfFrom | src/abs_ws.c:222-233 | The number read from length bytes is written back as those bytes |
| Frames.MalformedExactly | src/abs_ws.c:207-247 | A buffer is accepted exactly when it starts with a frame of section 5.2 of RFC 6455 that fits, as documented, if and only if, where it is accepted, the reserved bits are clear and the length is in shortest form |
| Frames.MalformedAccepted | src/abs_ws.c:207-247 | The inputs: a frame with reserved bits set, and a length of one in the two-byte form, are decoded |
| Stream.ReadFull | src/abs_ws.c:268-280 | Exactly the next bytes of the stream, however recv chops it, or -1 if it ends before |
| Stream.RecvHeader | src/abs_ws.c:293-317 | Reads a header from the stream and consumes exactly it |
| Stream.Unmask | src/abs_ws.c:326-328 | Unmasks in place |
| Stream.WsRecv | src/abs_ws.c:282-332 | Returns what the next frame of the stream denotes, with each error case, and consumes exactly what the code consumes |
| Stream.ReceiveFrame | src/abs_ws.c:282-332 | A frame is returned up to a NUL, so whole exactly when its payload has none |
| Stream.ReceiveCutFrame | src/abs_ws.c:268-280 | A stream that ends inside a frame gives None |
| Stream.ReceiveOversized | src/abs_ws.c:319 | A frame of more than 16 MiB is refused after its header, and its payload stays in the stream |
| Stream.ReceiveWithoutMemory | src/abs_ws.c:320-321 | Without memory for its payload a frame of at most 16 MiB is refused likewise |
| Stream.CStrExactly | src/abs_ws.c:329-330 | A payload is cut before its first NUL, if it has one |
| Stream.ReceiveAll | src/abs_ws.c:268-333 | Successive calls return the messages of a stream of frames exactly and in order |
| Blocks.ZeroCount | src/abs_crypto.c:77-85 | The zero padding is the smallest that makes the padded length a multiple of 64 |
| Blocks.FoldPadded | src/abs_crypto.c:75-87 | The padded message of section 5.1.1 of FIPS 180-4 is the whole blocks followed by one or two tail blocks |
| Blocks.WordsOfBytes | src/abs_crypto.c:87-92 | The big-endian output bytes determine the words |
| Blocks.PutLength | src/abs_crypto.c:85 | Writes the bit length, last byte first |
| Blocks.LoadWords | src/abs_crypto.c:48-50 | The first loop of a transform reads the 16 big-endian words of a block |
| Sha256.SigmasRotate | src/abs_crypto.c:24-30 | The shift-and-or macros are the rotations of the standard |
| Sha256.ChSelects | src/abs_crypto.c:25 | Bit by bit, CH takes the second argument where the first is set and the third where it is clear |
| Sha256.MajAgrees | src/abs_crypto.c:26 | Bit by bit, MAJ is set where two arguments are set and clear where two are clear |
| Sha256.ScheduleAt | src/abs_crypto.c:51-52 | The message schedule satisfies the equations of section 6.2.2 of FIPS 180-4 |
| HashConstants.RoundConstants | src/abs_crypto.c:32-44 | The 64 constants are the first 32 bits of the fractions of the cube roots of the first 64 primes, in order and none skipped |
| HashConstants.InitialValue | src/abs_crypto.c:66-69 | The initial value is taken from the square roots of the first eight primes |
| KnownAnswers.Sha256OfAbc | src/abs_crypto.c:45-93 | The digest of "abc" is ba7816bf...f20015ad: constants, schedule, rounds, padding and byte order together |
| Sha256.TransformWords | src/abs_crypto.c:51-63 | From the words of the block on, the schedule and round loops compute steps 1 to 4 of section 6.2.2 of FIPS 180-4 |
| Sha256.Transform | src/abs_crypto.c:45-63 | The whole transform of a 64-byte block, from bytes to state |
| Sha256.WholeBlocks | src/abs_crypto.c:75 | The block loop is the fold over the whole blocks |
| Sha256.Tail | src/abs_crypto.c:76-87 | One or two blocks for the tail |
| Sha256.Sha256Bytes | src/abs_crypto.c:65-93 | The digest: the fold of the compression function over the padded message, for messages of every length |
| Sha256.HmacSha256 | src/abs_crypto.c:109-139 | Section 2 of RFC 2104 for keys of every length, in hexadecimal; a NULL argument and a lack of memory are errors |
| Sha256.HmacStandard | src/abs_crypto.c:109-139 | That MAC in the terms of RFC 2104: the key filled up to 64 bytes, combined with 0x36 and 0x5C |
| Sha256.Sha256Text | src/abs_crypto.c:102-107 | The digest in hexadecimal, or an error for NULL |
| Sha256.HexValue | src/abs_crypto.c:95-100 | Two lower-case digits for each byte, the high half first, with its value |
| Sha256.HexUnique | src/abs_crypto.c:95-100 | So different digests have different texts |
| Sha1.RolsRotate | src/abs_ws.c:42-44 | The shifts are circular |
| Sha1.ChooseSelects | src/abs_ws.c:60 | Bit by bit, the function of the first rounds selects |
| Sha1.ParityCounts | src/abs_ws.c:63 | That of the second and the last rounds is the parity |
| Sha1.MajorityAgrees | src/abs_ws.c:66 | That of the third rounds is the majority |
| Sha1.ScheduleAt | src/abs_ws.c:53-54 | The schedule satisfies the equations of section 6.1 of RFC 3174 |
| HashConstants.RangeConstants | src/abs_ws.c:59-70 | The four constants are 2^30 times the square roots of 2, 3, 5 and 10, rounded down |
| KnownAnswers.Sha1OfAbc | src/abs_ws.c:46-104 | The digest of "abc" is a9993e36...9cd0d89d |
| Sha1.TransformWords | src/abs_ws.c:46-76 | The schedule and round loops compute section 6.1 of RFC 3174 |
| Sha1.Sha1Bytes | src/abs_ws.c:78-104 | The digest of RFC 3174, for messages of every length |
| NumberTheory.IsPrime | src/abs_stats.c:177-184 | True exactly for primes |
| NumberTheory.SixStep | src/abs_stats.c:181-182 | Testing i and i + 2 covers all divisors up to i + 5 |
| NumberTheory.RootSuffices | src/abs_stats.c:181-183 | No divisor up to the square root means prime |
| NumberTheory.Gcd | src/abs_stats.c:152-161 | A common divisor that every common divisor divides, and a combination of the arguments, for any signs |
| NumberTheory.Lcm | src/abs_stats.c:163-168 | A common multiple that divides every common multiple |
| NumberTheory.NCr | src/abs_stats.c:207-216 | The binomial coefficient of Pascal's triangle, 0 outside it |
| NumberTheory.LoopDivision | src/abs_stats.c:212-214 | Every division by i + 1 in the loop is exact |
| NumberTheory.BothAgree | src/abs_stats.c:94-116 | The quotient of factorials is exact and the same number |
| Strings.JoinSplit | src/abs.c:813-863 | join(d, split(s, d)) is s for every s and d |
| Strings.JoinAppend | src/abs.c:843-863 | Joining two lists one behind the other puts one delimiter between the two results; one part alone is itself |
| Strings.Pieces | src/abs.c:826-840 | split has one piece more than count finds occurrences |
| Strings.SplitJoinExactly | src/abs.c:813-863 | split(join(d, ps), d) is ps exactly when the delimiters are the first occurrences met |
| Strings.SplitUnique | src/abs.c:826-840 | The split is the only list of parts that joins to s and in which each delimiter is the first occurrence met |
| Strings.SplitEvery | src/abs.c:818-825 | Without a delimiter there is one piece for each character, and one empty piece for the empty string |
| Strings.SplitJoinChar | src/abs.c:813-863 | In particular for a one-character d absent from every part |
| Strings.SplitString | src/abs.c:813-841 | The loop computes that split |
| Strings.CountString | src/abs.c:1425-1433 | The loop counts the occurrences that do not overlap |
| Strings.JoinStrings | src/abs.c:843-863 | The loop joins, skipping what is not a string but not its delimiter |
| Pool.Heap.PoolAlloc | src/abs.c:49-66 | The slot is zeroed and was never handed out before, across block boundaries |
| Pool.Heap.NewPlain | src/abs.c:209-223 | A new object without a payload; NULL only when the pool cannot grow |
| Pool.Heap.NewOwner | src/abs.c:225-236 | A new object with a payload is tracked; without memory for the payload it is neither; NULL only when an allocation fails |
| Pool.Heap.Del | src/abs.c:203-207 | Releases the payload of an object that still has one |
| Pool.Heap.ReleaseAll | src/abs.c:180-185 | The walk along the tracked objects releases every payload left |
| Pool.Heap.Cleanup | src/abs.c:179-201 | Afterwards the payload of each tracked object, and no other, has been released exactly once and each block freed once, in this order |
| Pool.Session | src/abs.c:49-207 | In every run of constructors, del and abs_cleanup each constructor returns an object never returned before unless an allocation fails, constructors give nothing back, del has released the payload of its object when it returns, and at the end the payload of every owner returned has been released exactly once, nothing else has, and every block of a returned object has been freed once, after all releases |

## Left out

- Determinant.DetRec: over reals; the order of the floating-point operations, in which the two product kernels differ, is not modelled either.
- LinearSorts.Distribute: counters are unbounded, where the code counts in `int`.
- RadixSort.SortRadix: requires non-negative integers, as the digit extraction of the code does, and keeps `exp` unbounded, where `exp *= 10` overflows beyond 10^18.
- HashMap.Map.Set: says nothing about success once 2^61 values have been accepted; the load products are unbounded, where `(count + tombstones + 1) * 10` could wrap for capacities above 2^60; `& (cap - 1)` is written `% cap`.
- HashMap.Map.ForEach: the visitor decides when to stop but does not change the map.
- ScalarCalculus.TangentIsDerivative: over reals; IEEE rounding, overflow and NaN are not modelled.
- Frames.DecodeFrame: sums of offsets and lengths are unbounded, where `off + len` could wrap near 2^64.
- JsonRoundTrip.ReadText: needs `"%.17g"` to print a number text of at most 63 characters, so infinities and NaN are outside the model; `atol` is unbounded.
- JsonRoundTrip.TextIsJson: needs `"%.17g"` to print a number of the grammar, which it does for finite doubles.
- JsonGrammar.GrammarParses: numbers of at most 63 characters, the size of the code's buffer; longer ones are not read whole.
- Dict.Dict.Set: promises nothing about later calls after a failed copy of a key, which compare with the missing key in the code.
- JsonIO.Parser.ParseValue: values are trees; objects shared between two places or cyclic ones, and the failed allocations of the parser, are not modelled.
- NumberTheory.IsPrime: unbounded integers, here and in the rest of that module; the code uses `long` and `long long`.
- Pool.Heap.PoolAlloc: locking, and objects whose type is changed by hand after construction, are not modelled; `abs_init` is modelled on a fresh program only.
- Strings.SplitString: failed allocations, after which the code returns the pieces so far, are not modelled.
- Sha256.HmacSha256: messages shorter than 2^61 bytes; the failure to allocate the result object is not modelled.
- NULL receivers and arguments of a wrong type, except where a row says otherwise.
- Base64 and the handshake, `ws_send`, sockets, the HTTP server, plugins, files, environment, time, threads, plotting and CSV: foreign calls or formatting.
- Statistics, complex numbers, geometry, softmax and the other matrix functions: fixed formulas or floating-point analysis.
- Memoization, the event bus, generators, iterators, exceptions, `abs_dynarray` and `abs_string` growth, nested sets: easy or outside the core.
- Bogo sort, whose running time is unbounded, and `sort_c_qsort`, which calls the C library.
