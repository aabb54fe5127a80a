# CS61B coursework cores, modelled in Dafny

This project models the sequential, deterministic cores of a CS61B
coursework repository and proves properties of those models:

- **tester.py**: the test-script interpreter of the Gitlet project. It
  covers the Levenshtein table, the output comparator, `${...}` substitution
  and the line-by-line dispatch loop.
- **Sorting and heaps (hw8)**: the six sorts of `SortingAlgorithms`, the
  array-backed `IntHeap` and `Intervals.coveredLength`.
- **Nybbles (hw5)**: an array of 4-bit signed values packed into `int` words.
- **Canfield solitaire (proj0)**: `Card`, `Pile` and the move rules of
  `Game`, with undo. The undo is modelled through the `Action` applied-flag
  state machine.
- **Gitlet (proj3)**:
  - the staging `Index`;
  - merge: split points, the classification of files, the checks, and the end of merge on the index;
  - the object-store path scheme;
  - command dispatch;
  - the concatenating iterator.
- **db61b (proj1)**: `Row`, `Table`, `TableIterator`, `Column` resolution
  and the `Condition` relation mask.
- **Lines of Action (proj2)**:
  - board updates with piece counts;
  - move legality and the move table;
  - the acyclic player's cycle detector;
  - `BitMatrix`, the levelled `Logger` and `StringTools`.
- **Small collections**:
  - the BST string sets of hw6 and hw7, the generic BST set and the
    dictionary built on it (hw6);
  - the linked-list set (hw6) and the chained hash set (hw7);
  - `IntDList` (lab3) and `SimpleGraph` (hw9);
  - `TrReader` (hw3), `EveryOtherWord` (lab6) and `LeapYear` (lab1).

Java `int` arithmetic is modelled on unbounded integers, and written out
(as `bv32`, a wrap to 32 bits or a range check) where an overflow changes
what the model states: the Nybbles words, `String.hashCode`, the
`Intervals` comparator and count, the sorts' `k - 1`, the distribution
sort's `maxVal + 1` and the logger's `level += 1`. The overflows that remain unmodelled (the store
doubling of `IntHeap`, the edge keys of `SimpleGraph`, the interval sort's comparator) are listed under
"Left out", and `new Nybbles(N)` is required not to overflow in `N + 7`. Java exceptions become `Result`/`Option` error values where the source
throws them deliberately. Code that changes state step by step is written
as methods over classes and arrays. Each method is proved against a pure
function or ghost state, and the properties of that function are proved as
lemmas.

## Model

| member | source | states |
|---|---|---|
| TesterEditDistance.EditDistance | proj3/testing/tester.py:101-109 | the filled table's last cell is the Levenshtein distance `Lev(s1, s2)` of the two strings |
| TesterEditDistance.FillRow | proj3/testing/tester.py:105-108 | row i becomes the minimum of deletion, insertion and substitution costs over the row above; no other row changes |
| TesterEditDistance.LevSelf | proj3/testing/tester.py:101-109 | a string is at distance 0 from itself |
| TesterEditDistance.LevFromEmpty | proj3/testing/tester.py:102-103 | the distance between "" and t is \|t\|, in both directions |
| TesterEditDistance.LevSymmetric | proj3/testing/tester.py:106-108 | the distance is symmetric |
| TesterEditDistance.LevBounds | proj3/testing/tester.py:101-109 | the distance lies between the difference of the lengths and the longer length |
| TesterEditDistance.LevOneSubstitution | proj3/testing/tester.py:108 | replacing one last character costs exactly one |
| TesterSubst.SubstVar | proj3/testing/tester.py:230-241 | a numeric key gives that recorded group or "nonexistent group"; a defined name gives its value; any other key fails with "undefined substitution" |
| TesterSubst.CloseBrace | proj3/testing/tester.py:227 | the lazy `(.*?)` of the token stops at the first `}` with no newline before it, or there is none |
| TesterSubst.Pass | proj3/testing/tester.py:227 | a line with no `${` is left unchanged by one rewrite pass |
| TesterSubst.DoSubsts | proj3/testing/tester.py:221-228 | the loop computes ten passes at most, stopping when a pass changes nothing |
| TesterSubst.IterateFixedPoint | proj3/testing/tester.py:224 | once a pass leaves the text unchanged, the loop stops with that text |
| TesterSubst.IterateIsBoundedPasses | proj3/testing/tester.py:221-228 | the result is reached by some number k <= 10 of successful passes; `TesterSubst.Iterate` is the loop, with the number of passes left |
| TesterSubst.NoTokenUnchanged | proj3/testing/tester.py:221-228 | a line with no `${` comes back unchanged |
| TesterSubst.DefinedToken | proj3/testing/tester.py:238-239 | `${name}` for a defined name whose value has no token becomes that value |
| TesterSubst.NonexistentGroupToken | proj3/testing/tester.py:232-237 | `${N}` past the recorded groups fails with "FAILED (nonexistent group: {N})" |
| TesterSubst.UndefinedToken | proj3/testing/tester.py:240-241 | `${name}` for an undefined non-numeric name fails with "undefined substitution: ${name}" |
| TesterOutput.SplitLines | proj3/testing/tester.py:170 | `re.split(r'\n\r?')` gives at least one piece, none holding a newline, and `[s]` for a string without a newline |
| TesterOutput.TrimLen | proj3/testing/tester.py:171-182 | the count after dropping trailing whitespace-only lines: every dropped line is blank, and the last kept one is not |
| TesterOutput.TrimmedLength | proj3/testing/tester.py:171-176 | the backwards counting loop computes TrimLen |
| TesterOutput.CorrectProgramOutput | proj3/testing/tester.py:166-192 | the method's verdict and capture groups are those of the comparison function CompareOutput |
| TesterOutput.FuzzyPairs | proj3/testing/tester.py:185-191 | in fuzzy mode the pairwise loop passes iff every stripped pair is within distance 2, and it leaves the groups unchanged |
| TesterOutput.RegexPairs | proj3/testing/tester.py:185-189 | in regex mode the loop passes iff every anchored pattern matches its stripped line; the groups of all lines are then appended in order |
| TesterOutput.FuzzyVerdict | proj3/testing/tester.py:166-192 | fuzzy mode passes iff the trimmed line counts agree and every pair is within distance 2; the groups are the right-stripped output alone |
| TesterOutput.RegexVerdict | proj3/testing/tester.py:166-192 | regex mode passes iff the trimmed counts agree and every line matches; the groups are the right-stripped output followed by every line's groups |
| TesterOutput.FirstGroupIsOutput | proj3/testing/tester.py:168-169 | whatever the verdict, the first group is the right-stripped output |
| TesterOutput.TrailingBlanksIgnored | proj3/testing/tester.py:171-176 | appending blank expected lines does not change the comparison |
| TesterScript.SkipSpace | proj3/testing/tester.py:252 | `\s*` from i ends at the first character that is not Python whitespace, every character before it being whitespace |
| TesterScript.RunEnd | proj3/testing/tester.py:259 | `\S+` from i ends at the first Python whitespace character, every character before it being non-whitespace |
| TesterScript.IdEnd | proj3/testing/tester.py:309 | `[a-zA-Z_0-9]*` from i ends at the first non-identifier character |
| TesterScript.OneArg | proj3/testing/tester.py:259 | the argument of `X\s*(\S+)` is a non-empty word without blanks |
| TesterScript.TwoArgs | proj3/testing/tester.py:264 | both words of `X\s*(\S+)\s+(\S+)` are non-empty |
| TesterScript.CommandArg | proj3/testing/tester.py:268-269 | the `>` command has no newline and does not start with a blank |
| TesterScript.LastQuote | proj3/testing/tester.py:309 | the index of the last double quote, or None when there is none |
| TesterScript.DefineArgs | proj3/testing/tester.py:309 | a parsed D line has a name starting with an identifier character and a value without a newline |
| TesterScript.QuotedValue | proj3/testing/tester.py:309 | the value after the opening quote has no newline |
| TesterScript.Classify | proj3/testing/tester.py:257-312 | comments and blank lines are skipped, the empty line is bad, and any other instruction comes from a non-blank, non-comment line |
| TesterScript.RemoveCR | proj3/testing/tester.py:153-156 | canonicalize leaves no carriage return and does not change a string without one |
| TesterScript.ReadBlock | proj3/testing/tester.py:270-281 | a block read successfully ends after line k and within the script |
| TesterScript.Step | proj3/testing/tester.py:246-312 | one step of the loop moves strictly forward within the script |
| TesterScript.Dispatch | proj3/testing/tester.py:257-312 | the dispatch of one instruction moves strictly forward |
| TesterScript.Command | proj3/testing/tester.py:268-291 | the `>` instruction continues only after its block |
| TesterScript.ReadExpected | proj3/testing/tester.py:270-281 | the reading loop computes ReadBlock |
| TesterScript.ExecuteLine | proj3/testing/tester.py:246-256 | one pass of the main loop computes Step |
| TesterScript.DispatchLine | proj3/testing/tester.py:257-312 | the if-elif chain computes Dispatch |
| TesterScript.ExecuteCommand | proj3/testing/tester.py:268-291 | the `>` branch computes Command |
| TesterScript.DoTest | proj3/testing/tester.py:210-312 | the verdict and groups of the whole loop are those of the recursive Run from line 0 (`TesterScript.Run`, one Step per script line) |
| TesterScript.EndPasses | proj3/testing/tester.py:249-251 | reaching the end of the script passes the test |
| TesterScript.CommentSkipped | proj3/testing/tester.py:252-258 | a comment line is skipped without substitution |
| TesterScript.BadTimeoutIgnored | proj3/testing/tester.py:259-263 | a `T` line whose argument is not a number leaves all state unchanged, because the ValueError is built but never raised |
| TesterScript.BadLineFaulty | proj3/testing/tester.py:311-312 | a line matching no instruction fails with "FAILED (bad test line: n)" and its 1-based number |
| TesterScript.UnterminatedBlock | proj3/testing/tester.py:271-276 | a `>` block with no `<<<` line raises an error, which is "unterminated command" when every substitution succeeds |
| TesterScript.NotSkipped | proj3/testing/tester.py:252-258 | a line starting with a non-blank other than `#` is neither a comment nor blank |
| TesterScript.ClassifyBad | proj3/testing/tester.py:311-312 | a line starting with none of the instruction letters is bad |
| TesterScript.ClassifyTimeout | proj3/testing/tester.py:259 | `T\s*(\S+)` takes the word right after T, even with no blank before it |
| TesterScript.ClassifyLoneT | proj3/testing/tester.py:259 | a T followed only by blanks is a bad line |
| TesterScript.ClassifyCopy | proj3/testing/tester.py:264 | `+` takes the destination and source words |
| TesterScript.ClassifyExecute | proj3/testing/tester.py:268 | `>` takes the rest of the line after the blanks, which may be empty |
| TesterScript.ClassifyDefine | proj3/testing/tester.py:309-310 | a D line's value runs from the first quote after the name to the last quote, which only blanks may follow |
| Sorting.PrefixLen | hw8/SortingAlgorithms.java:50 | the sorted prefix has length min(k, array.length), and 0 for k <= 0 |
| Sorting.WrappedPrefixLen | hw8/SortingAlgorithms.java:101 | the prefix min(k - 1, length - 1) + 1 with int k - 1: the whole array for k == MIN_VALUE, PrefixLen(k, length) for every other k |
| Sorting.Pred32 | hw8/SortingAlgorithms.java:101 | k - 1 on ints: one less, except that MIN_VALUE wraps to MAX_VALUE |
| Sorting.Swap | hw8/SortingAlgorithms.java:457-462 | a[i] and a[j] are exchanged, nothing else changes, and the contents are a permutation |
| InsertionSort.Sort | hw8/SortingAlgorithms.java:49-57 | the prefix of length min(k, length) becomes a sorted permutation of itself, and the rest is untouched |
| InsertionSort.InsertOne | hw8/SortingAlgorithms.java:53-55 | one outer pass extends the sorted prefix to a[0..i], permutes the array and leaves everything past i alone |
| SelectionSort.Sort | hw8/SortingAlgorithms.java:73-84 | the prefix becomes a sorted permutation, and the rest is untouched |
| SelectionSort.SelectOne | hw8/SortingAlgorithms.java:75-83 | after pass i, a[i] is the minimum of a[i..N), the prefix through i is sorted and below the rest, and the array is permuted |
| SelectionSort.MinFrom | hw8/SortingAlgorithms.java:76-80 | the inner loop finds the index of a smallest element of a[i..N) |
| MergeSort.MergePermutation | hw8/SortingAlgorithms.java:107-121 | the merge holds exactly the elements of both halves |
| MergeSort.MergeLength | hw8/SortingAlgorithms.java:107-121 | the merge is as long as both halves together |
| MergeSort.MergeSorted | hw8/SortingAlgorithms.java:115-120 | merging two sorted halves gives a sorted sequence |
| MergeSort.MergeTakesRight | hw8/SortingAlgorithms.java:116-118 | the next merged element comes from the right when the left is used up or the right head is strictly smaller |
| MergeSort.MergeTakesLeft | hw8/SortingAlgorithms.java:117-119 | otherwise it comes from the left, so ties are taken from the left |
| MergeSort.CopyToAux | hw8/SortingAlgorithms.java:109-111 | aux[lo..hi] becomes a copy of a[lo..hi] |
| MergeSort.MergeFromAux | hw8/SortingAlgorithms.java:115-120 | a[lo..hi] becomes the merge of aux[lo..mid] and aux[mid+1..hi], and nothing outside changes |
| MergeSort.MergeOne | hw8/SortingAlgorithms.java:116-119 | one loop body writes the next merged element and advances exactly one of i and j |
| MergeSort.MergeHalves | hw8/SortingAlgorithms.java:107-121 | merge(a, aux, lo, mid, hi) leaves in a[lo..hi] the merge of its two old halves and changes nothing else |
| MergeSort.SortRangeSteps | hw8/SortingAlgorithms.java:124-131 | sorting both halves and then merging sorts the range and permutes it |
| MergeSort.SortRange | hw8/SortingAlgorithms.java:124-131 | sort(a, aux, lo, hi) makes a[lo..hi] a sorted permutation and changes nothing else |
| MergeSort.Sort | hw8/SortingAlgorithms.java:99-103 | the first WrappedPrefixLen(k, length) entries become a sorted permutation and the rest is untouched; k == MIN_VALUE sorts the whole array |
| HeapSort.Sort | hw8/SortingAlgorithms.java:199-210 | the prefix becomes a sorted permutation, and the rest is untouched |
| HeapSort.Heapify | hw8/SortingAlgorithms.java:202-203 | sinking every inner node makes a[..N] a heap and permutes it |
| HeapSort.SortDown | hw8/SortingAlgorithms.java:205-209 | extracting the root repeatedly leaves a[..N] sorted and permuted |
| HeapSort.Sink | hw8/SortingAlgorithms.java:212-221 | the array becomes SinkSeq, the sift-down of node m on the 1-based heap of N |
| HeapSort.SinkRound | hw8/SortingAlgorithms.java:214-218 | one round: when the larger child of node m is larger than m, the two are exchanged and the child's node is returned; otherwise the array is unchanged and 0 is returned |
| HeapSort.ExtractStep | hw8/SortingAlgorithms.java:205-209 | exchanging the root with the last heap element and sinking grows the sorted suffix by one and keeps a heap |
| Heaps.SinkSeq | hw8/SortingAlgorithms.java:212-221 | sift-down keeps the length |
| Heaps.SinkPermutes | hw8/IntHeap.java:86-108 | sinking permutes s[..n] and leaves the rest alone |
| Heaps.SinkHeap | hw8/IntHeap.java:86-108 | sinking a node whose subtrees are heaps makes its subtree a heap |
| Heaps.HeapifyStep | hw8/IntHeap.java:155-158 | sinking node m-1 extends the heap order from m to m-1 |
| Heaps.RootMax | hw8/IntHeap.java:115-117 | the root of a heap is its largest element |
| QuickSort.GroupBounds | hw8/SortingAlgorithms.java:296-305 | the smaller, equal and larger lists hold only elements of their kind |
| QuickSort.PartitionPermutes | hw8/SortingAlgorithms.java:278-316 | the three groups hold exactly the elements of the range |
| QuickSort.PartitionOrder | hw8/SortingAlgorithms.java:278-316 | the pivot lands right after the smaller group, with smaller elements before it and the rest after |
| QuickSort.PartitionSeq | hw8/SortingAlgorithms.java:278-316 | partition keeps the array's length |
| QuickSort.Pivot | hw8/SortingAlgorithms.java:314-315 | the returned index lies within lo..hi |
| QuickSort.PartitionSplits | hw8/SortingAlgorithms.java:278-316 | after partition the pivot value sits at the returned index, smaller elements before it, larger or equal after it, in a permutation of the range |
| QuickSort.Sort | hw8/SortingAlgorithms.java:247-251 | the first WrappedPrefixLen(k, length) entries become a sorted permutation and the rest is untouched; k == MIN_VALUE sorts the whole array |
| QuickSort.Range | hw8/SortingAlgorithms.java:253-261 | quicksort(a, lo, hi) makes a[lo..hi] a sorted permutation and touches nothing else |
| QuickSort.Assemble | hw8/SortingAlgorithms.java:255-259 | partitioning and then sorting both sides sorts and permutes the whole range |
| QuickSort.ArrayCopy | hw8/SortingAlgorithms.java:313 | System.arraycopy writes src at lo and keeps the rest |
| QuickSort.Collect | hw8/SortingAlgorithms.java:296-305 | the loop collects, in order, the elements below, equal to and above the pivot |
| QuickSort.Partition | hw8/SortingAlgorithms.java:278-316 | the array becomes PartitionSeq and the result is Pivot |
| DistributionSort.MaxOf | hw8/SortingAlgorithms.java:146-153 | the maximum bounds every element and is either the start value or some element |
| DistributionSort.Outcome | hw8/SortingAlgorithms.java:145-179 | the sort succeeds iff the prefix is non-empty and all its elements are in 0..MAX_VALUE-1 |
| DistributionSort.Sort | hw8/SortingAlgorithms.java:145-179 | on success the prefix becomes a sorted permutation; otherwise a modelled exception leaves the array unchanged |
| DistributionSort.Distribute | hw8/SortingAlgorithms.java:162-177 | once the counts are in, the prefix ends sorted and permuted |
| DistributionSort.CopyBack | hw8/SortingAlgorithms.java:175-177 | the sorted copy is written over the prefix |
| DistributionSort.FindMax | hw8/SortingAlgorithms.java:146-153 | the first loop finds the prefix maximum from MIN_VALUE |
| DistributionSort.CountValues | hw8/SortingAlgorithms.java:155-160 | counts[v] is the number of occurrences of v, or the first negative element fails |
| DistributionSort.StartingPoints | hw8/SortingAlgorithms.java:162-165 | startingPoints[v] is the number of elements below v |
| DistributionSort.Place | hw8/SortingAlgorithms.java:167-173 | placing each element at its starting point produces the spread of the values |
| DistributionSort.SpreadSorted | hw8/SortingAlgorithms.java:167-173 | the spread is sorted |
| DistributionSort.SpreadPermutation | hw8/SortingAlgorithms.java:167-173 | the spread of values in 0..M is a permutation of them |
| BinaryHeap.XorUndo | hw8/IntHeap.java:198-204 | (x ^ y) ^ y == x and (x ^ y) ^ x == y |
| BinaryHeap.XorSwap | hw8/IntHeap.java:198-204 | the XOR swap exchanges a[i] and a[j], and is a no-op when they are equal |
| BinaryHeap.EmptyStoreStaysFull | hw8/IntHeap.java:33-38 | on a store holding at most its capacity, add as written finds a slot exactly when the capacity is not 0; `BinaryHeap.HasSlotAsWritten` is that test as written |
| BinaryHeap.DoubledAsWritten | hw8/IntHeap.java:135 | the doubled capacity grows a non-empty store and leaves a store of length 0 at 0 |
| BinaryHeap.AddAfterEmptyHeapify | hw8/IntHeap.java:33-38 | heapify(new int[0], 0) then add(5) fails as written: the store stays of length 0 |
| BinaryHeap.NewCapacity | hw8/IntHeap.java:133-138 | (corrected) the new capacity is at least one more slot, and twice the old one for a non-empty store |
| BinaryHeap.UpSeq | hw8/IntHeap.java:51-61 | sift-up keeps the length |
| BinaryHeap.UpHeap | hw8/IntHeap.java:51-61 | sift-up from the rising point restores the heap order |
| BinaryHeap.UpPermutes | hw8/IntHeap.java:51-61 | sift-up permutes s[..n] and leaves the rest |
| BinaryHeap.AddStep | hw8/IntHeap.java:33-45 | placing x after the heap and letting it rise gives a heap of L+1 elements with x added |
| BinaryHeap.DropLast | hw8/IntHeap.java:72 | overwriting the root with the last element keeps the order below the root |
| BinaryHeap.RootMaxAll | hw8/IntHeap.java:115-117 | every heap element is at most its root |
| BinaryHeap.IntHeap.constructor | hw8/IntHeap.java:15-17 | a new heap is empty over a store of four |
| BinaryHeap.IntHeap.Wrap | hw8/IntHeap.java:24-27 | the private constructor adopts the array and length |
| BinaryHeap.IntHeap.Parent | hw8/IntHeap.java:169-174 | parent(i) is -1 for i <= 0 and otherwise the node whose left or right child is i |
| BinaryHeap.IntHeap.ChildrenOf | hw8/IntHeap.java:181-192 | both children 2i+1 and 2i+2 have i as parent |
| BinaryHeap.IntHeap.Size | hw8/IntHeap.java:144-146 | size() is the number of stored elements |
| BinaryHeap.IntHeap.Max | hw8/IntHeap.java:115-120 | max() is "Heap empty." on an empty heap, else an element no smaller than any other |
| BinaryHeap.IntHeap.IncreaseStore | hw8/IntHeap.java:133-138 | the store doubles its length, keeping its entries and heap order |
| BinaryHeap.IntHeap.PropagateUp | hw8/IntHeap.java:51-61 | the store becomes UpSeq of the old store |
| BinaryHeap.IntHeap.Add | hw8/IntHeap.java:33-45 | fails (index out of bounds) exactly when the doubled store still has no slot, changing no element; otherwise size grows by one, the heap gains elem, and the heap order holds |
| BinaryHeap.IntHeap.Place | hw8/IntHeap.java:38-43 | with a free slot, elem is stored after the last element and propagated up: size grows by one, the heap gains elem, and the heap order holds |
| BinaryHeap.IntHeap.PropagateDown | hw8/IntHeap.java:86-108 | the store becomes SinkSeq of the old store |
| BinaryHeap.IntHeap.RemoveMax | hw8/IntHeap.java:68-80 | an empty heap errors with "Heap empty."; otherwise it returns the old maximum, size drops by one, the old maximum is removed and the order holds |
| BinaryHeap.IntHeap.Heapify | hw8/IntHeap.java:152-162 | heapify(array, k) turns a[0..k) in place into a max-heap permutation |
| Intervals.CellsCover | hw8/Intervals.java:12-15 | a cell is covered iff some interval [x, y) holds it |
| Intervals.CellsPermutation | hw8/Intervals.java:17 | reordering the list does not change the covered cells |
| Intervals.Absorb | hw8/Intervals.java:26-32 | one sweep step closes, extends or keeps the current block, and the cells counted so far stay right |
| Intervals.Wrap32 | hw8/Intervals.java:17 | a Java int difference wraps to 32 bits |
| Intervals.WrapShift | hw8/Intervals.java:27 | wrapping takes away a multiple of 2^32 |
| Intervals.WrapPeriodic | hw8/Intervals.java:27 | values 2^32 apart wrap to the same int |
| Intervals.WrapAdd | hw8/Intervals.java:27 | int `+=` of wrapped values is the wrapped true sum |
| Intervals.StartOrderAsWritten | hw8/Intervals.java:17 | the comparator as written is the difference when it fits an int, and otherwise has the sign opposite to the starts' order |
| Intervals.StartOrderOverflows | hw8/Intervals.java:17 | the subtraction wraps: {MAX_VALUE, MAX_VALUE} compares below {-1, -1} |
| Intervals.StartOrderAgrees | hw8/Intervals.java:17 | (corrected) the comparator's sign is that of the starts' order, and agrees with the written one when the difference fits an int |
| Intervals.SortByStart | hw8/Intervals.java:17 | the list is sorted by start, in place, as a permutation |
| Intervals.InsertOne | hw8/Intervals.java:17 | one insertion pass extends the start-sorted prefix |
| Intervals.CoveredLength | hw8/Intervals.java:15-38 | the result is the number of cells in the union of the intervals, wrapped to an int, and the list ends sorted by start as a permutation |
| Intervals.Sweep | hw8/Intervals.java:20-37 | the sweep over the sorted list counts exactly the covered cells, wrapped to an int by the int `+=` |
| Intervals.MeasureStep | hw8/Intervals.java:27 | closing a block past the cells counted adds its length to them, and wrapped sums stay the wrapped count |
| Intervals.WholeRangeWraps | hw8/Intervals.java:15-38 | {MIN_VALUE, MAX_VALUE} covers 2^32 - 1 cells, which the int result reports as -1 |
| Intervals.FiveIntervals | hw8/Intervals.java:43-46 | the five-interval example covers 23 |
| Intervals.PointInterval | hw8/Intervals.java:48-51 | {a, a} covers nothing |
| Intervals.NestedInterval | hw8/Intervals.java:53-56 | an interval inside another adds nothing |
| Intervals.SevenIntervals | hw8/Intervals.java:58-61 | the seven-interval example covers 13 |
| Nybbles.Decode | hw5/Nybbles.java:31-37 | get's reading of 4 bits is in -8..7 |
| Nybbles.ReadBack | hw5/Nybbles.java:49-58 | clearing a field and writing a value's code makes get read back the value |
| Nybbles.OtherFields | hw5/Nybbles.java:64-74 | unsetByte and setByte leave every other field alone |
| Nybbles.StoreLength | hw5/Nybbles.java:13 | the word array has (N + 7) / 8 words, enough for N nybbles |
| Nybbles.Nybbles.constructor | hw5/Nybbles.java:11-15 | N elements, all 0 |
| Nybbles.Nybbles.Size | hw5/Nybbles.java:18-20 | size() is N |
| Nybbles.Nybbles.Get | hw5/Nybbles.java:24-39 | IndexOutOfBoundsException iff k is outside 0..N-1; otherwise the k-th element, in -8..7 |
| Nybbles.Nybbles.Set | hw5/Nybbles.java:43-62 | a bad index, then a value outside -8..7, is an error and changes nothing; otherwise only element k becomes val |
| Nybbles.SetThenGet | hw5/Nybbles.java:24-62 | get(k) after set(k, v) returns v |
| Cards.Rank | proj0/canfield/Card.java:31-33 | rank() = ordinal % 13 + 1, in 1..13 |
| Cards.Suit | proj0/canfield/Card.java:37-39 | suit() = ordinal / 13 + 1, in 1..4 |
| Cards.CardOf | proj0/canfield/Card.java:31-39 | a suit and a rank in range name exactly one card, whose suit and rank they are |
| Cards.SuitAbbrev | proj0/canfield/Card.java:42-44 | the first letter of the card's constant name |
| Cards.RankAbbrev | proj0/canfield/Card.java:47-49 | the rest of the card's constant name |
| Cards.ToString | proj0/canfield/Card.java:25-28 | the name with the suit letter moved to the end |
| Cards.NameInjective | proj0/canfield/Card.java:10-13 | no two cards share a name; the name is `Cards.Name`, the suit letter then the rank (the enum constants of Card.java:10-13) |
| Cards.ValueOf | proj0/canfield/Card.java:92-93 | valueOf finds the card with that constant name, and fails for any other string |
| Cards.ToCard | proj0/canfield/Card.java:91-94 | toCard(name) is the card whose toString is name; an empty or unknown name is an error |
| Cards.ToCardToString | proj0/canfield/Card.java:89-94 | toCard(c.toString()) == c for every card |
| Cards.ToCardAccepts | proj0/canfield/Card.java:89-94 | toCard accepts a string exactly when it is some card's toString |
| Cards.SuitName | proj0/canfield/Card.java:52-66 | Club, Diamond, Heart or Spade by suit number |
| Cards.RankName | proj0/canfield/Card.java:69-82 | Ace, Jack, Queen and King by name; any other rank as its decimal number |
| Cards.RedSuits | proj0/canfield/Card.java:85-87 | isRed iff the suit is 2 or 3: the diamonds and the hearts; `Cards.IsRed` is isRed() as written |
| Piles.TopOf | proj0/canfield/Pile.java:36-42 | the top card is the last element, or nothing when empty |
| Piles.MoveTop | proj0/canfield/Pile.java:117-122 | the top min(k, \|src\|) cards of src go onto dst in order |
| Piles.MoveTopUndo | proj0/canfield/Pile.java:117-122 | moving back as many cards as were moved restores both lists |
| Piles.MoveTopConserves | proj0/canfield/Pile.java:108-122 | a move keeps the total cards of the two piles |
| Piles.ReverseInvolutive | proj0/canfield/Pile.java:130-132 | reversing twice is the identity |
| Piles.Pile.constructor | proj0/canfield/Pile.java:20-22 | a pile of the given cards, the last one on top |
| Piles.Pile.Empty | proj0/canfield/Pile.java:25-27 | an empty pile |
| Piles.Pile.CopyFrom | proj0/canfield/Pile.java:30-33 | copyFrom makes the cards equal to pile0's; from itself it leaves the pile empty |
| Piles.Pile.Size | proj0/canfield/Pile.java:66-68 | size() is the number of cards |
| Piles.Pile.IsEmpty | proj0/canfield/Pile.java:70-73 | isEmpty() holds exactly when size() is 0 and get(0) is null; `Piles.Pile.Contains` is contains(card) (Pile.java:80-82), membership in the cards |
| Piles.Pile.Get | proj0/canfield/Pile.java:57-63 | get(k) is the k-th card from the top, or null outside 0..size()-1 |
| Piles.Pile.Top | proj0/canfield/Pile.java:36-42 | top() is the last card, or null when empty |
| Piles.Pile.Bottom | proj0/canfield/Pile.java:45-51 | bottom() is the first card, or null when empty |
| Piles.Pile.DealTop | proj0/canfield/Pile.java:88-91 | dealTop removes and returns the top card, and returns nothing when empty |
| Piles.Pile.Add | proj0/canfield/Pile.java:98-102 | add puts a card on top, and add(null) is a no-op |
| Piles.Pile.Move | proj0/canfield/Pile.java:117-122 | the top min(k, \|pile\|) cards of pile move onto this pile, in order, and leave pile |
| Piles.Pile.MoveAll | proj0/canfield/Pile.java:108-110 | move(pile) moves all of pile onto this pile and empties pile |
| Piles.Pile.Clear | proj0/canfield/Pile.java:125-127 | clear() empties the pile |
| Piles.Pile.TurnOver | proj0/canfield/Pile.java:130-132 | turnOver reverses the pile |
| Piles.DealThenAdd | proj0/canfield/Pile.java:88-102 | dealing the top card and adding it back restores the pile |
| Piles.TurnOverTwice | proj0/canfield/Pile.java:130-132 | turning a pile over twice restores it |
| Piles.CopyIsSeparate | proj0/canfield/Pile.java:30-33 | a copy has the original's cards, and changing it leaves the original alone |
| CanfieldRules.Shift | proj0/canfield/Pile.java:117-122 | dst.move(src, k) on a layout changes only those two piles |
| CanfieldRules.ShiftUndo | proj0/canfield/Pile.java:117-122 | moving back as many cards as a move took restores the layout |
| CanfieldRules.ShiftEachTurns | proj0/canfield/Game.java:280-282 | n single-card moves put the top n cards of src on dst in reverse order |
| CanfieldRules.ShiftEachUndo | proj0/canfield/Game.java:294-296 | n single-card moves back undo n single-card moves |
| CanfieldRules.TableauIndex | proj0/canfield/Game.java:614-620 | tableau(k) names pile k, or errors with "No such tableau pile" outside 1..4 |
| CanfieldRules.FoundationIndex | proj0/canfield/Game.java:582-588 | foundation(k) names pile k, or errors with "No such foundation pile" outside 1..4 |
| CanfieldRules.FoundationAddLegal | proj0/canfield/Game.java:624-639 | a card may go onto a foundation iff the foundation is empty and the card has the base rank, or it has the top's suit and the rank after the top's (mod 13); `CanfieldRules.CheckFoundationAdd` is checkFoundationAdd as written, with its messages, and this lemma states its meaning |
| CanfieldRules.TableauAddLegal | proj0/canfield/Game.java:643-657 | a card may go onto a tableau iff it is not of the base rank and, below a top card, differs in colour and is one rank lower mod 13; `CanfieldRules.CheckTableauAdd` is checkTableauAdd as written, with its messages, and this lemma states its meaning |
| CanfieldRules.SuitPile | proj0/canfield/Game.java:597-603 | findFoundation's first loop finds the first foundation whose top has the card's suit |
| CanfieldRules.EmptyPile | proj0/canfield/Game.java:604-608 | its second loop finds the first empty foundation |
| CanfieldRules.ForwardRevert | proj0/canfield/Game.java:266-556 | every move's undo, applied after a successful act, restores the layout before the move |
| CanfieldRules.RecycleRevert | proj0/canfield/Game.java:276-278 | with an empty stock, the stock becomes the reversed waste, and the undo restores both |
| CanfieldRules.ToFoundationShifts | proj0/canfield/Game.java:306-360 | a move to a foundation moves one card onto one of the four foundations |
| CanfieldRules.StockTurnsThree | proj0/canfield/Game.java:274-283 | stockToWaste turns min(3, \|stock\|) cards onto the waste, the top stock card ending deepest; nothing else changes |
| CanfieldRules.TableauToTableauRules | proj0/canfield/Game.java:408-452 | the same pile and an empty source are refused; the whole source pile moves in order onto the target; the source is refilled from the reserve |
| CanfieldRules.WasteToEmptyTableau | proj0/canfield/Game.java:498-527 | wasteToTableau onto an empty tableau is refused while the reserve has cards |
| CanfieldRules.ForwardConserves | proj0/canfield/Game.java:266-556 | no move loses or creates a card |
| CanfieldRules.RevertConserves | proj0/canfield/Game.java:266-556 | no undo loses or creates a card |
| CanfieldRules.WonIffAllFounded | proj0/canfield/Game.java:94-106 | with the whole deck laid out, all 52 cards are on the foundations iff every other pile is empty |
| CanfieldRules.Dealt | proj0/canfield/Game.java:67-91 | a deal has 13 reserve cards, one base card on the first foundation, one card per tableau and 34 in the stock |
| CanfieldRules.DealtConserves | proj0/canfield/Game.java:67-91 | a deal lays out every card of the deck, once each |
| CanfieldRules.StaleUndoAfterDeal | proj0/canfield/Game.java:67-91 | an undo left from the earlier game, applied to a fresh deal, takes the new base card off its foundation |
| Canfield.Action.constructor | proj0/canfield/actions/Action.java:14 | a new action is not applied |
| Canfield.Action.Apply | proj0/canfield/actions/Action.java:19-25 | a second apply throws; otherwise the action acts and is marked applied, unless the move is refused |
| Canfield.Action.InverseApply | proj0/canfield/actions/Action.java:31-37 | inverseApply before apply throws; otherwise it undoes and clears applied |
| Canfield.ApplyInverseApply | proj0/canfield/actions/Action.java:19-37 | apply, a refused second apply, then inverseApply restore the game and leave the action unapplied |
| Canfield.Game.constructor | proj0/canfield/Game.java:26-39 | all piles are empty, with no base card and no history |
| Canfield.Game.CopyFrom | proj0/canfield/Game.java:49-59 | each pile gets the cards of game0's pile; copying from itself clears every pile |
| Canfield.Game.Transfer | proj0/canfield/Pile.java:117-122 | dst.move(src, k) on two piles of the game is Shift |
| Canfield.Game.TurnOverPile | proj0/canfield/Pile.java:130-132 | one pile is reversed |
| Canfield.Game.FillFromReserve | proj0/canfield/Game.java:569-575 | an empty pile gets the reserve's top card when the reserve has one, and says whether it did |
| Canfield.Game.FindFoundation | proj0/canfield/Game.java:593-610 | the foundation of the card's suit, else the first empty one, else none; "No card" for null |
| Canfield.Game.Score | proj0/canfield/Game.java:99-106 | five points per foundation card |
| Canfield.Game.IsWon | proj0/canfield/Game.java:94-96 | won iff all 52 cards are on the foundations |
| Canfield.Game.ActStockToWaste | proj0/canfield/Game.java:274-285 | the act of stockToWaste |
| Canfield.Game.ActToFoundation | proj0/canfield/Game.java:306-360 | the act shared by moves to a foundation |
| Canfield.Game.ActTableauToFoundation | proj0/canfield/Game.java:369-401 | the act of tableauToFoundation |
| Canfield.Game.ActTableauToTableau | proj0/canfield/Game.java:408-452 | the act of tableauToTableau |
| Canfield.Game.ActFoundationToTableau | proj0/canfield/Game.java:459-490 | the act of foundationToTableau |
| Canfield.Game.ActWasteToTableau | proj0/canfield/Game.java:498-527 | the act of wasteToTableau |
| Canfield.Game.ActReserveToTableau | proj0/canfield/Game.java:535-556 | the act of reserveToTableau |
| Canfield.Game.Act | proj0/canfield/Game.java:266-556 | each move's act changes the layout as Forward says, or errors and changes nothing |
| Canfield.Game.UndoDone | proj0/canfield/Game.java:288-297 | each undo changes the layout as Revert says |
| Canfield.Game.Apply | proj0/canfield/Game.java:228-238 | a refused action throws before the push and changes nothing; an applied one is pushed on the history |
| Canfield.Game.Perform | proj0/canfield/Game.java:228-238 | a move's action is applied as Forward says and pushed on the history, or refused with the layout and history unchanged; the game stays well formed |
| Canfield.Game.Undo | proj0/canfield/Game.java:244-255 | "Nothing to undo!" on an empty history; otherwise it pops the newest action and restores the layout from before it |
| Canfield.Game.StockToWaste | proj0/canfield/Game.java:266-299 | applies the stock-to-waste action and records it in the history |
| Canfield.Game.WasteToFoundation | proj0/canfield/Game.java:306-332 | applies the waste-to-foundation action, or errors with the layout unchanged |
| Canfield.Game.ReserveToFoundation | proj0/canfield/Game.java:339-360 | the same for reserveToFoundation |
| Canfield.Game.TableauToFoundation | proj0/canfield/Game.java:369-401 | the same for tableauToFoundation |
| Canfield.Game.TableauToTableau | proj0/canfield/Game.java:408-452 | the same for tableauToTableau |
| Canfield.Game.FoundationToTableau | proj0/canfield/Game.java:459-490 | the same for foundationToTableau |
| Canfield.Game.WasteToTableau | proj0/canfield/Game.java:498-527 | the same for wasteToTableau |
| Canfield.Game.ReserveToTableau | proj0/canfield/Game.java:535-556 | the same for reserveToTableau |
| Canfield.Game.Deal | proj0/canfield/Game.java:67-91 | (as written) deal lays out a new game and keeps the earlier history |
| Canfield.Game.DealFrom | proj0/canfield/Game.java:71-87 | the deck's cards go onto the piles as Dealt says, and the 39th card from the bottom becomes the base |
| Canfield.Game.DealReserve | proj0/canfield/Game.java:71-78 | the top 13 cards go to the reserve, the foundations are cleared, and the next card goes to the first foundation |
| Canfield.Game.DealAfresh | proj0/canfield/Game.java:67-91 | (corrected) deal also starts an empty history |
| Canfield.DealThenUndo | proj0/canfield/Game.java:244-246 | undo right after a corrected deal finds nothing to undo |
| Canfield.MoveThenUndo | proj0/canfield/GameTest.java:231-269 | a legal move followed by undo restores the layout and the history |
| GitletIndex.ChangedIff | proj3/gitlet/Index.java:159-162 | the index reports a change exactly when something is staged or staged for removal |
| GitletIndex.Cleared | proj3/gitlet/Index.java:136-139 | after clearing the stage nothing is staged or removed and the tracked files are kept |
| GitletIndex.Added | proj3/gitlet/Index.java:95-107 | after add the file is tracked and no longer staged for removal |
| GitletIndex.Removed | proj3/gitlet/Index.java:113-123 | remove fails with "No reason to remove the file." exactly when the file is untracked; otherwise the file is neither tracked nor staged |
| GitletIndex.Unstaged | proj3/gitlet/Index.java:125-131 | unstage fails exactly when the file is untracked; otherwise only the file's staging is dropped, tracking and removals are unchanged |
| GitletIndex.CheckedOut | proj3/gitlet/Index.java:72-81 | the file is tracked afterwards; without staging it is tracked at the given hash and is neither staged nor removed |
| GitletIndex.CheckedOutCommit | proj3/gitlet/Index.java:83-86 | checking out a commit clears the stage and tracks exactly the commit's files |
| GitletIndex.FromStage | proj3/gitlet/Index.java:48-55 | taking the blobs fails with "No changes added to the commit." exactly when nothing changed; otherwise it returns the tracked files and leaves nothing staged |
| GitletIndex.AddRestoresRemoved | proj3/gitlet/Index.java:96-98 | adding a file staged for removal tracks it again at the hash it was removed with, whatever hash is given, and stages nothing |
| GitletIndex.AddStagesChanges | proj3/gitlet/Index.java:99-105 | adding any other file tracks it at the given hash and stages it exactly when it was new, changed or already staged; no other file changes |
| GitletIndex.AddUnchangedIsNoOp | proj3/gitlet/Index.java:99-105 | re-adding an unchanged tracked file leaves a consistent index as it was |
| GitletIndex.RemoveRecords | proj3/gitlet/Index.java:117-119 | removing from the last commit records the file's tracked hash as removed |
| GitletIndex.RemoveThenAdd | proj3/gitlet/Index.java:95-123 | removing a tracked unstaged file from the last commit and adding it back restores the index exactly |
| GitletIndex.AddConsistent | proj3/gitlet/Index.java:95-107 | add keeps the index consistent: staged files are tracked at their staged hash and removed files are untracked |
| GitletIndex.RemoveConsistent | proj3/gitlet/Index.java:113-123 | remove keeps the index consistent |
| GitletIndex.UnstageConsistent | proj3/gitlet/Index.java:125-131 | unstage keeps the index consistent |
| GitletIndex.CheckoutConsistent | proj3/gitlet/Index.java:72-81 | checkout of a file keeps the index consistent |
| GitletIndex.FromStageConsistent | proj3/gitlet/Index.java:48-55 | taking the blobs keeps the index consistent |
| GitletIndex.Index.constructor | proj3/gitlet/Index.java:38-42 | a new index tracks, stages and removes nothing |
| GitletIndex.Index.IsChanged | proj3/gitlet/Index.java:159-162 | true exactly when the stage or the removals are non-empty |
| GitletIndex.Index.BlobsFromStage | proj3/gitlet/Index.java:48-55 | the error or the returned blobs and the new state are those of FromStage on the old state |
| GitletIndex.Index.GetBlobs | proj3/gitlet/Index.java:61-63 | returns the tracked files of the current state |
| GitletIndex.Index.Checkout | proj3/gitlet/Index.java:72-81 | the new state is CheckedOut of the old one |
| GitletIndex.Index.CheckoutCommit | proj3/gitlet/Index.java:83-86 | the new state is CheckedOutCommit of the old one |
| GitletIndex.Index.Add | proj3/gitlet/Index.java:95-107 | the new state is Added of the old one |
| GitletIndex.Index.Remove | proj3/gitlet/Index.java:113-123 | the error or the new state is that of Removed on the old state |
| GitletIndex.Index.Unstage | proj3/gitlet/Index.java:125-131 | the error or the new state is that of Unstaged on the old state |
| GitletIndex.Index.ClearStage | proj3/gitlet/Index.java:136-139 | the new state is Cleared of the old one |
| GitletIndex.CommitTwice | proj3/gitlet/Index.java:48-55 | the first commit returns the tracked files; a second one without changes is refused with "No changes added to the commit." |
| GitletMerge.HistoryFuel | proj3/gitlet/MergeCommand.java:266-274 | the history of a commit does not depend on the step bound it is computed with |
| GitletMerge.HistoryLinks | proj3/gitlet/MergeCommand.java:266-274 | the history starts at the commit, every entry is a stored commit, each next one is the parent of the one before, and the last has no parent |
| GitletMerge.HistorySuffix | proj3/gitlet/MergeCommand.java:266-274 | the history of the i'th entry of a history is the rest of that history |
| GitletMerge.HistoryDistinct | proj3/gitlet/MergeCommand.java:266-274 | a history never lists the same commit twice |
| GitletMerge.GetHistory | proj3/gitlet/MergeCommand.java:266-274 | the loop collects exactly the history of the start commit |
| GitletMerge.CommonAt | proj3/gitlet/MergeCommand.java:241-257 | the position found is the first of one list whose element is in the other, or the list's length when none is |
| GitletMerge.Retain | proj3/gitlet/MergeCommand.java:250 | retainAll keeps exactly the elements present in both lists |
| GitletMerge.RetainFirst | proj3/gitlet/MergeCommand.java:250-256 | what retainAll keeps is empty exactly when no element is common, and otherwise starts with the first common one |
| GitletMerge.CommonAtUnique | proj3/gitlet/MergeCommand.java:241-257 | the first common position is the one before which no element is common |
| GitletMerge.GetSplitPoint | proj3/gitlet/MergeCommand.java:241-257 | returns the split point: the first commit of a's history that is in b's, or "" |
| GitletMerge.SplitPointCommon | proj3/gitlet/MergeCommand.java:241-257 | the split point is in both histories with no commit of a's history before it in b's, and is "" exactly when the histories share nothing |
| GitletMerge.SplitPointSymmetric | proj3/gitlet/MergeCommand.java:241-257 | the split point of a and b is the split point of b and a |
| GitletMerge.SplitPointAncestor | proj3/gitlet/MergeCommand.java:54-61 | the split point of a and b is b exactly when b is in a's history, which is what the ancestor and fast-forward checks rely on |
| GitletMerge.ClassifyAsWritten | proj3/gitlet/MergeCommand.java:98-131 | the verdict the two loops give a file from its hash at the split point, in the head and in the other branch, as written |
| GitletMerge.Classify | proj3/gitlet/MergeCommand.java:98-131 | the corrected verdict: a file the head changed and the other branch left alone stays as in the head |
| GitletMerge.ClassifyIsThreeWay | proj3/gitlet/MergeCommand.java:91-138 | the corrected verdict is three-way merge: a conflict exactly when both sides changed the file differently, otherwise the merged file |
| GitletMerge.ClassifyCases | proj3/gitlet/MergeCommand.java:79-90 | the four documented cases of mergeCompare: take the other's change, keep the head's, remove, conflict |
| GitletMerge.ClassifyAsWrittenDiffers | proj3/gitlet/MergeCommand.java:115 | the loops as written differ from three-way merge exactly on a file changed in the head and unchanged in the other branch, which they report as a conflict |
| GitletMerge.VerdictOf | proj3/gitlet/MergeCommand.java:98-131 | the verdict as written of one file: taken only from the other branch, dropped only when absent there and unchanged in the head since the split, taken when new in the other branch alone, a conflict when removed in the other and changed in the head |
| GitletMerge.MergeCompare | proj3/gitlet/MergeCommand.java:91-138 | the three lists are the other branch's files to check out or in conflict, then the head's files absent in the other to remove or in conflict, in iteration order, each by its verdict as written |
| GitletMerge.CompareOther | proj3/gitlet/MergeCommand.java:98-119 | the first loop appends the files of the other branch whose verdict as written is Take, and those whose verdict is Conflict |
| GitletMerge.CompareHead | proj3/gitlet/MergeCommand.java:121-131 | the second loop appends the removed and conflicting files of the head that the other lacks |
| GitletMerge.MergeCompareSorts | proj3/gitlet/MergeCommand.java:91-138 | every file lands in at most one list, the one its verdict as written names, and a kept file in none |
| GitletMerge.MergeChecks | proj3/gitlet/MergeCommand.java:40-61 | the checks as written: uncommitted changes, then an ancestor, in that order, and otherwise whether merge resets to the other commit first (the split point is the head); the self-merge test of line 41 never holds, since it compares a name with a reference object |
| GitletMerge.MergeChecksIntended | proj3/gitlet/MergeCommand.java:41-43 | (corrected) a branch equal by name to the current one is refused as a self-merge before any other check, and other branches go through the checks as written |
| GitletMerge.SelfMergeIsAncestor | proj3/gitlet/MergeCommand.java:41-56 | as written, merging the current branch reports uncommitted changes or "Given branch is an ancestor of the current branch.", never the self-merge message the intended checks give |
| GitletMerge.MergeAncestry | proj3/gitlet/MergeCommand.java:54-61 | merge refuses exactly when the other commit is in the head's history and fast-forwards exactly when the head is in the other's |
| GitletMerge.CheckoutAll | proj3/gitlet/MergeCommand.java:149-163 | checking out with stage set tracks exactly the index's files and the checked-out ones, and changes nothing when every file is already tracked at the other's hash and not staged for removal |
| GitletMerge.CheckoutAllTracks | proj3/gitlet/Index.java:95-107 | on an index with nothing staged for removal, every checked-out file ends tracked at the other commit's hash, every other file keeps its hash, and nothing is staged for removal |
| GitletMerge.CheckoutAllStages | proj3/gitlet/Index.java:100-103 | on such an index, the checkouts stage exactly the checked-out files that were untracked or tracked at another hash, beside those already staged |
| GitletMerge.RemoveAll | proj3/gitlet/MergeCommand.java:174-177 | the removals fail only with "No reason to remove the file.", and succeed only when every file was tracked, leaving the index tracking its files minus the removed ones |
| GitletMerge.RemoveAllSucceeds | proj3/gitlet/Index.java:113-123 | the removals of distinct tracked files always succeed |
| GitletMerge.RemoveAllUnstages | proj3/gitlet/Index.java:113-123 | a success unstages exactly the removed files |
| GitletMerge.RemoveAllRecords | proj3/gitlet/Index.java:113-123 | a success stages for removal exactly the removed files the head has, at the hash they were tracked at, and keeps earlier removals |
| GitletMerge.MergeEnd | proj3/gitlet/MergeCommand.java:70-76 | an untracked working file in a checkout's way fails first; a merge commit happens only with no conflict; on an index with nothing staged for removal it holds exactly the tracked and checked-out files that were not removed, a checked-out file at the other commit's hash and any other at its tracked hash; nothing to check out or remove on a clean index fails with "No changes added to the commit." (or the conflict message); every failure is one of the four messages |
| GitletMerge.MergeEndCommits | proj3/gitlet/MergeCommand.java:70-76 | on a clean index tracking the head, the end of merge commits when no file to check out is untracked in the working directory, nothing conflicts, the files to remove are distinct head files not checked out, and some file is checked out at a new hash or removed |
| GitletMerge.MergeCommitFollowsVerdicts | proj3/gitlet/MergeCommand.java:66-76 | off a fast-forward, on a clean index tracking the head, the merge commit (`MergeAsWritten`) holds every file as its verdict as written leaves it: the other branch's version when taken, none when removed, the head's when kept; with ClassifyAsWrittenDiffers, this is three-way merge on every file but one changed in the head alone, which is a conflict |
| GitletMerge.MergeCommitsIff | proj3/gitlet/MergeCommand.java:66-76 | off a fast-forward, on a clean index tracking the head, merge commits exactly when no file's verdict is a conflict, no file taken from the other branch is an untracked working file, and some file is taken or removed |
| GitletMerge.MergeCommitsOnly | proj3/gitlet/MergeCommand.java:66-76 | a merge commit implies no conflict, no untracked file in a taken file's way, and some file taken or removed |
| GitletMerge.MergeCommitsWhen | proj3/gitlet/MergeCommand.java:66-76 | no conflict, no untracked file in the way and one file taken or removed make merge commit |
| GitletMerge.FastForwardFails | proj3/gitlet/MergeCommand.java:58-76 | as written (`MergeAsWritten`), after a fast-forward merge carries on and always fails: with "No reason to remove the file." when the old head has a file the other commit lacks, otherwise with "No changes added to the commit." |
| GitletMerge.EndAfterReset | proj3/gitlet/Index.java:83-123 | on an index reset to the other commit's files, re-checking out its files stages nothing and removing a file it lacks throws |
| GitletMerge.SameChangeFails | proj3/gitlet/Index.java:48-55 | for every split point and every head, a merge with another branch holding the same files (both branches made the same changes), off a fast-forward on a clean index tracking the head, fails with "No changes added to the commit." instead of committing |
| GitletMerge.MergeFinish | proj3/gitlet/MergeCommand.java:54-76 | (corrected) merge ends by fast-forwarding exactly when the split point is the head, and otherwise ends exactly as the code as written does, with its merge commit or its error |
| GitletMerge.MergeFinishAncestry | proj3/gitlet/MergeCommand.java:54-61 | (corrected) once the checks pass, merge ends by fast-forwarding, with no merge commit and no error, exactly when the head is in the other branch's history |
| GitletObjects.HashToFile | proj3/gitlet/GitletObjectManager.java:143-146 | fails exactly when the hash is shorter than two characters; otherwise the path is one character longer and starts with the hash's first two characters |
| GitletObjects.FileToHash | proj3/gitlet/GitletObjectManager.java:153-155 | the result is the file name with its first '/' taken out, and unchanged when it has none |
| GitletObjects.FileToHashToFile | proj3/gitlet/GitletObjectManager.java:143-155 | fileToHash undoes hashToFile for every hash of two or more characters without '/' in the first two |
| GitletObjects.HashToFileInjective | proj3/gitlet/GitletObjectManager.java:143-146 | two such hashes with the same path are the same hash |
| GitletObjects.HashToFileToHash | proj3/gitlet/GitletObjectManager.java:143-155 | a path whose first '/' is its third character is the path of the hash fileToHash gives for it |
| GitletObjects.ObjectStore.Contains | proj3/gitlet/GitletObjectManager.java:47-50 | true exactly when some tracked kind holds the hash's path; a short hash throws only when some kind is tracked |
| GitletObjects.ObjectStore.Add | proj3/gitlet/GitletObjectManager.java:60-61 | adding under a path already stored fails with "<kind> as specified already exists."; otherwise the object is stored under the path and the path is tracked under its kind |
| GitletObjects.ObjectStore.Put | proj3/gitlet/GitletObjectManager.java:58-64 | a short hash fails and changes nothing; otherwise the hash is returned and contained afterwards, a stored hash changes nothing, and a new one stores the object under its path |
| GitletObjects.PutTwice | proj3/gitlet/GitletObjectManager.java:58-64 | putting the same object twice stores it once and returns the same hash |
| GitletCommands.Dispatch | proj3/gitlet/CommandManager.java:31-56 | missing or empty arguments fail with "Please enter a command.", and a command that runs is the one named by the first argument |
| GitletCommands.DispatchOrder | proj3/gitlet/CommandManager.java:33-55 | each check is made only when the earlier ones pass, a command runs exactly when all pass, and its operands are the arguments after the trigger |
| GitletCommands.RepositoryCheckLast | proj3/gitlet/CommandManager.java:50-55 | a command with good operands that needs a repository is refused outside one for that reason only and runs inside one |
| GitletCommands.CommandManager.Add | proj3/gitlet/CommandManager.java:19-21 | the trigger names the new command and the other triggers are unchanged |
| GitletCommands.CommandManager.Process | proj3/gitlet/CommandManager.java:31-56 | an unknown trigger fails with "No command with that name exists.", and a command that runs is registered and accepts its operands |
| GitletCommands.AddThenProcess | proj3/gitlet/CommandManager.java:19-56 | after adding a command its trigger dispatches to it and other triggers dispatch as before |
| GitletConcat.ConcatSkip | proj3/gitlet/ConcatIterator.java:37-43 | exhausted iterators at the front contribute no elements |
| GitletConcat.ConcatEmpty | proj3/gitlet/ConcatIterator.java:37-43 | there is nothing left exactly when every remaining iterator is exhausted |
| GitletConcat.ConcatIterator.constructor | proj3/gitlet/ConcatIterator.java:27-30 | the iterator starts at the first of the given iterators |
| GitletConcat.ConcatIterator.HasNext | proj3/gitlet/ConcatIterator.java:37-43 | skips exhausted iterators and answers whether any element is left, without changing what remains |
| GitletConcat.ConcatIterator.Next | proj3/gitlet/ConcatIterator.java:50-52 | returns the current iterator's next element, which is the first of what remains, and removes it; fails past the last iterator or on an exhausted current one |
| GitletConcat.Drain | proj3/gitlet/ConcatIterator.java:37-52 | draining with hasNext and next yields all the iterators' elements concatenated in list order |
| DbRows.Size | proj1/db61b/Row.java:37-39 | the number of values of the row |
| DbRows.Get | proj1/db61b/Row.java:42-44 | the k-th value, for a position within the row |
| DbRows.Equals | proj1/db61b/Row.java:47-53 | comparing the values position by position is equality of the rows |
| DbRows.JoinLoop | proj1/db61b/Row.java:71-78 | the loop builds the values joined by the separator, with no separator after the last |
| DbRows.ToString | proj1/db61b/Row.java:69-79 | the values joined by single spaces |
| DbRows.ToDBFormat | proj1/db61b/Row.java:85-95 | the values joined by commas, and "" for a row with no values |
| DbRows.Pieces | proj1/db61b/Table.java:131 | there is always at least one piece, and no piece holds the separator |
| DbRows.PiecesOfJoin | proj1/db61b/Table.java:131 | the pieces of joined values that contain no separator are exactly those values |
| DbRows.PiecesOfPlain | proj1/db61b/Table.java:131 | a string without the separator is a single piece |
| DbRows.PiecesAppend | proj1/db61b/Table.java:131 | appending a separator and a plain string adds exactly that string as a last piece |
| DbRows.DropTrailingEmpty | proj1/db61b/Table.java:131 | split's dropping of trailing empty strings keeps a prefix of the pieces that does not end with an empty one |
| DbRows.Split | proj1/db61b/Table.java:131 | without the separator the string itself; otherwise the pieces up to the last non-empty one; no piece holds the separator |
| DbRows.SplitToDBFormat | proj1/db61b/Table.java:131-139 | a row written in database format reads back as the same values when no value holds a comma and the last is not empty |
| DbRows.LastEmptyIsLost | proj1/db61b/Table.java:131-139 | a row whose last value is empty does not read back: "a," splits to one value |
| DbTables.TitleIndex | proj1/db61b/Table.java:78-85 | -1 exactly when the title is absent; otherwise the position of its first occurrence |
| DbTables.TitleIndexOfTitle | proj1/db61b/Table.java:78-85 | with distinct titles the index of the k-th title is k |
| DbTables.FirstDuplicate | proj1/db61b/Table.java:28-37 | the nested loops find no duplicate exactly when the titles are distinct, and otherwise a title that repeats |
| DbTables.Table.Create | proj1/db61b/Table.java:24-41 | creation fails exactly when two titles are equal, with the message naming the first title that is repeated later, and otherwise gives an empty table with those titles |
| DbTables.Table.NumColumns | proj1/db61b/Table.java:49-51 | the number of titles |
| DbTables.Table.Title | proj1/db61b/Table.java:70-72 | the k-th title, which is one of the table's titles |
| DbTables.Table.Size | proj1/db61b/Table.java:88-90 | the number of rows |
| DbTables.Table.ColumnIndex | proj1/db61b/Table.java:78-85 | the loop returns TitleIndex of the titles |
| DbTables.Table.Add | proj1/db61b/Table.java:96-109 | an equal row present gives false and no change; otherwise a row of the wrong width fails with no change, and a row of the right width is appended and gives true |
| DbTables.TableIterator.constructor | proj1/db61b/TableIterator.java:15-18 | a new iterator is at the first row, or has none for an empty table |
| DbTables.TableIterator.Reset | proj1/db61b/TableIterator.java:21-25 | after reset the current row is the first row, or none for an empty table |
| DbTables.TableIterator.Next | proj1/db61b/TableIterator.java:44-51 | next moves to the following row and returns it, or returns none once the rows are used up |
| DbTables.TableIterator.HasRow | proj1/db61b/TableIterator.java:36-38 | true exactly when the iterator is not past the last row |
| DbTables.TableIterator.ColumnIndex | proj1/db61b/TableIterator.java:57-59 | the table's index of the name |
| DbTables.TableIterator.Value | proj1/db61b/TableIterator.java:62-67 | fails with "Past the last row." exactly when there is no current row, and otherwise gives the current row's k-th value |
| DbTables.ColumnsFit | proj1/db61b/TableIterator.java:62-67 | every column index of the table is a valid position in the current row |
| DbTables.Walk | proj1/db61b/TableIterator.java:21-51 | walking with next visits exactly the table's rows in order, hasRow is then false, and reset returns to the first row |
| DbColumns.Holders | proj1/db61b/Column.java:58-67 | the positions found are below the bound |
| DbColumns.HoldersMeaning | proj1/db61b/Column.java:58-67 | the holders are exactly the iterators whose table has the column, in increasing order |
| DbColumns.FirstOver | proj1/db61b/Column.java:72-78 | the first iterator over the table, with none over it before; the length when there is none |
| DbColumns.Column.Create | proj1/db61b/Column.java:20-27 | fails with "<name> is not a column in <table>" exactly when a table is given without that column |
| DbColumns.Column.Literal | proj1/db61b/Column.java:34-39 | a literal column has no name and no table and always has its value |
| DbColumns.Column.Name | proj1/db61b/Column.java:42-44 | the column's name, absent exactly for a literal |
| DbColumns.Column.Resolve | proj1/db61b/Column.java:52-81 | a literal is untouched; a column without a table fails as unknown with no holder and as ambiguous with two holders or a row source already set, and otherwise takes its only holder; a column with a table takes the first iterator over it or fails with "<table> is not being selected from" |
| DbColumns.Column.ResolveByName | proj1/db61b/Column.java:56-70 | the outcome of the loop over the iterators for a column without a table, in terms of its holders |
| DbColumns.Column.ResolveInTable | proj1/db61b/Column.java:71-80 | the outcome of the loop for a column with a table, in terms of the first iterator over it |
| DbColumns.Column.Value | proj1/db61b/Column.java:87-93 | a literal's value, or the row source's value at the column's index |
| DbColumns.Column.Alias | proj1/db61b/Column.java:99-106 | the alias when one is set and the name otherwise |
| DbColumns.Column.SetAlias | proj1/db61b/Column.java:112-114 | the alias is the one given |
| DbColumns.ScanByName | proj1/db61b/Column.java:57-67 | the loop stops as ambiguous exactly when a holder exists with a row source already set or there are two holders, and otherwise leaves index -1 or the only holder and its index |
| DbColumns.FirstHolder | proj1/db61b/Column.java:58-67 | a holder at position i is one more than the holders before it |
| DbColumns.HoldersGrow | proj1/db61b/Column.java:58-67 | a longer prefix has at least as many holders |
| DbColumns.FirstOverIs | proj1/db61b/Column.java:72-78 | the first match of the loop is FirstOver |
| DbColumns.ResolveOne | proj1/db61b/Column.java:52-106 | a column resolved against a single iterator over its table succeeds and then reads that iterator's current row at its title, or fails past the last row |
| DbConditions.Mask | proj1/db61b/Condition.java:23-53 | fails with "Error: invalid relation." exactly for a relation that is not one of the six, and otherwise gives a non-empty mask of GT, EQ and LT |
| DbConditions.MaskMeaning | proj1/db61b/Condition.java:23-77 | a comparison passes the mask of a relation exactly when the relation means it, and "!=" is GT or LT |
| DbConditions.LessThanRelations | proj1/db61b/Condition.java:69-77 | for a smaller first value, <, <= and != hold and >, >= and = do not |
| DbConditions.MirroredRelation | proj1/db61b/Condition.java:69-77 | swapping the values and mirroring the relation gives the same test |
| DbConditions.Condition.Create | proj1/db61b/Condition.java:23-53 | fails exactly when the relation is invalid, and otherwise holds the two columns |
| DbConditions.Condition.Test | proj1/db61b/Condition.java:69-77 | the first column's error, then the second's, or whether compareTo of the two values passes the mask |
| DbConditions.TestAll | proj1/db61b/Condition.java:80-87 | true exactly when every condition holds; otherwise the result of the first condition that does not |
| LoaPieces.Ordinal | proj2/loa/Board.java:73-78 | a piece's ordinal indexes the three piece counts |
| LoaPieces.PieceOf | proj2/loa/Move.java:266 | Piece.values()[n] is the piece whose ordinal is n |
| LoaPieces.PieceOfOrdinal | proj2/loa/Move.java:266 | values()[ordinal()] is the piece itself |
| LoaPieces.DirectionsAll | proj2/loa/Board.java:187-190 | every direction is among Direction.values() and is one step in row and column, never none |
| LoaPieces.InitialPieces | proj2/loa/Board.java:39-47 | the initial position is an 8 by 8 grid |
| LoaPieces.ToColPos | proj2/loa/Board.java:89-91 | a column letter a to h gives a column from 1 to 8 |
| LoaPieces.ToRowPos | proj2/loa/Board.java:100-102 | parsing the second character succeeds exactly when it is a digit, and gives that digit |
| LoaPieces.SquareName | proj2/loa/Board.java:89-102 | the letter and digit naming a square on the board read back as its column and row |
| LoaBoards.RowTallyTotal | proj2/loa/Board.java:75-80 | the counts of the three pieces in a row add up to its length |
| LoaBoards.TallyTotal | proj2/loa/Board.java:71-81 | the three piece counts of a board add up to its number of cells |
| LoaBoards.RowTallyUpdate | proj2/loa/Board.java:133-137 | changing one cell of a row moves one count from the old piece to the new |
| LoaBoards.TallyUpdate | proj2/loa/Board.java:133-137 | changing one cell of a board moves one count from the old piece to the new |
| LoaBoards.RowTallyStep | proj2/loa/Board.java:76-79 | one more cell of a row counts that cell's piece once more |
| LoaBoards.TallyStep | proj2/loa/Board.java:75-80 | one more row counts that row's pieces once more |
| LoaBoards.Put | proj2/loa/Board.java:133-137 | the board with the piece at the square and every other square as it was |
| LoaBoards.GridEquality | proj2/loa/Board.java:354 | boards with the same cells are equal |
| LoaBoards.Opposite | proj2/loa/Board.java:274-279 | the opposite direction steps back by the same amounts |
| LoaBoards.LineCountIsPieces | proj2/loa/Board.java:265-282 | from a piece, lineOfAction is the number of pieces on its line, at least one; from an empty square one less; the same for the opposite direction; `LoaBoards.LineCount` is the count the two loops make |
| LoaBoards.UnblockedLands | proj2/loa/Board.java:238-253 | an unblocked line of action lands at least one step away, on the board, on a square not holding the mover's piece |
| LoaBoards.LineMove | proj2/loa/Board.java:214-216 | the move created for an unblocked line goes the line's length from the square, of its piece onto the landing square's piece |
| LoaBoards.LineOfAction | proj2/loa/Board.java:265-282 | the two loops compute LineCount |
| LoaBoards.CountAlong | proj2/loa/Board.java:267-272 | one loop adds to the count the pieces from the start square to the edge in its direction (Ray) |
| LoaBoards.Blocked | proj2/loa/Board.java:238-253 | the loop computes IsBlocked: an obstruction on the path, or a landing off the board or on the mover's own piece; `LoaBoards.IsBlocked` is that definition, and a square is on the board by `LoaPieces.InBounds` (inBounds, Board.java:108-110) |
| LoaBoards.ScanPath | proj2/loa/Board.java:240-247 | whether the first len squares hold an obstruction, and the landing square when none does |
| LoaBoards.PossibleMovesIn | proj2/loa/Board.java:212-219 | the loop over the given directions computes MovesIn |
| LoaBoards.MovesAlong | proj2/loa/Board.java:214-217 | one direction contributes its line's move exactly when it is not blocked |
| LoaBoards.MovesMeaning | proj2/loa/Board.java:206-223 | no moves from an empty square; every possible move moves the square's piece onto the board and onto no piece of its own; every unblocked direction's move is among them; at most eight |
| LoaBoards.MovesInMeaning | proj2/loa/Board.java:212-219 | the moves for some directions are table moves from the square, at most one per direction, including every unblocked one |
| LoaBoards.InitialPiecesAt | proj2/loa/Board.java:39-47 | the initial position has black on the top and bottom rows and white on the side columns, corners empty |
| LoaBoards.InitialIsInitial | proj2/loa/Board.java:39-47 | INITIAL_PIECES is the initial position |
| LoaBoards.InitialB1Blocked | proj2/loa/tests/BoardTest.java:139-147 | from b1 in the initial position the south and west lines give no move |
| LoaBoards.InitialB1East | proj2/loa/tests/BoardTest.java:139-147 | from b1 the east line gives b1-h1 |
| LoaBoards.InitialMovesB1 | proj2/loa/tests/BoardTest.java:139-147 | in the initial position b1 has exactly the moves b1-b3, b1-d3 and b1-h1 |
| LoaBoards.InitialB1N | proj2/loa/Board.java:206-282 | from b1 the north line has length 2, is open and gives b1-b3 |
| LoaBoards.InitialB1NE | proj2/loa/Board.java:206-282 | from b1 the north-east line has length 2, is open and gives b1-d3 |
| LoaBoards.InitialB1E | proj2/loa/Board.java:206-282 | from b1 the east line has length 6, is open and gives b1-h1 |
| LoaBoards.InitialB1SE | proj2/loa/Board.java:206-282 | from b1 the south-east line has length 2 and is blocked |
| LoaBoards.InitialB1S | proj2/loa/Board.java:206-282 | from b1 the south line has length 2 and is blocked |
| LoaBoards.InitialB1SW | proj2/loa/Board.java:206-282 | from b1 the south-west line has length 2 and is blocked |
| LoaBoards.InitialB1W | proj2/loa/Board.java:206-282 | from b1 the west line has length 6 and is blocked |
| LoaBoards.InitialB1NW | proj2/loa/Board.java:206-282 | from b1 the north-west line has length 2 and is blocked |
| LoaBoards.Board.Cells | proj2/loa/Board.java:26 | the board's array read as a grid, cell by cell |
| LoaBoards.Board.constructor | proj2/loa/Board.java:54-64 | a new board holds the initial position with its piece counts |
| LoaBoards.Board.Clear | proj2/loa/Board.java:71-81 | fresh arrays holding the given cells and the counts of each piece in them |
| LoaBoards.Board.CopyRow | proj2/loa/Board.java:76-79 | one row copied and its pieces added to the counts, the other rows unchanged |
| LoaBoards.Board.Get | proj2/loa/Board.java:120-122 | the piece at the row and column |
| LoaBoards.Board.Set | proj2/loa/Board.java:133-137 | the cell holds the new piece, every other cell is unchanged, and one count moves from the old piece to the new |
| LoaBoards.Board.PossibleMoves | proj2/loa/Board.java:206-223 | the moves of the current board from the square, as Moves gives them (`LoaBoards.Moves`: none from an empty square) |
| LoaBoards.Board.PerformMove | proj2/loa/Board.java:292-304 | a move not among the possible moves fails and changes nothing; otherwise its start is emptied and its destination holds the moved piece |
| LoaBoards.Board.ContiguityCount | proj2/loa/Board.java:180-196 | the search marks exactly the team's pieces connected to the start that were unmarked, and returns how many it marked |
| LoaBoards.Contiguity | proj2/loa/Board.java:180-196 | the same search on a board given by its cells |
| LoaBoards.NeighboursStep | proj2/loa/Board.java:187-190 | after the search from one more neighbour, that neighbour is marked too |
| LoaBoards.ExploredStep | proj2/loa/Board.java:187-190 | a search from a neighbour keeps the state of the search from the start, adding its count |
| LoaBoards.ExploredDone | proj2/loa/Board.java:180-193 | once every neighbour on the team is marked, the search from the start is complete |
| LoaBoards.MoveTallies | proj2/loa/Board.java:292-304 | a move keeps the mover's piece count, and a capture takes one piece of the other side off the board |
| LoaMoves.MoveEqualsIff | proj2/loa/Move.java:213-254 | comparing every field is equality of moves; the fields compared are `LoaMoves.Col0`, `Row0`, `Col1`, `Row1`, `MovedPiece`, `ReplacedPiece`, `IsInvalid` and `CreationString` (the getters of Move.java:87-183, -1 or null for an invalid move), and the comparison is `LoaMoves.MoveEquals` |
| LoaMoves.Length | proj2/loa/Move.java:172-176 | the larger of the row and the column distance |
| LoaMoves.TableEntry | proj2/loa/Move.java:101-116 | a table entry, when there is one, is the move between its key's squares and pieces |
| LoaMoves.CharCast | proj2/loa/Move.java:276 | Java's char conversion: below 65536, and the value itself when it is already in range |
| LoaMoves.PutEntry | proj2/loa/Move.java:274-288 | storing a valid entry keeps the table sound and adds exactly that key |
| LoaMoves.FillStep | proj2/loa/Move.java:272-291 | one pass of the innermost loop adds only moves from the start and reaches the column, diagonal, row and anti-diagonal squares at k |
| LoaMoves.FillToRow | proj2/loa/Move.java:273-281 | the column and diagonal squares in row k are added |
| LoaMoves.FillToColumn | proj2/loa/Move.java:282-290 | the row and anti-diagonal squares in column k are added |
| LoaMoves.ReachedStep | proj2/loa/Move.java:272-291 | a square newly reached at step k is one of the four squares that step adds |
| LoaMoves.FillFrom | proj2/loa/Move.java:272-291 | the innermost loop adds every move from the start square on a line, and only moves from it |
| LoaMoves.FillPair | proj2/loa/Move.java:270-293 | the loops over the start square add every move of the pair of pieces |
| LoaMoves.BuildTable | proj2/loa/Move.java:260-296 | the table holds a move exactly at the keys TableEntry describes, and that move |
| LoaMoves.MoveAtMeaning | proj2/loa/Move.java:42-67 | the lookup gives the invalid move exactly when a square is off the board, a move of the squares' pieces along a line when one exists, and null otherwise |
| LoaMoves.CreateAt | proj2/loa/Move.java:59-67 | fails exactly when both squares are on the board and the start square is empty; gives the invalid move exactly when a square is off the board |
| LoaMoves.MoveAt | proj2/loa/Move.java:42-67 | (corrected) the invalid move exactly when a square is off the board, and a table move only of the start square's piece, never of an empty square |
| LoaMoves.CreateStep | proj2/loa/Move.java:72-76 | a step move fails exactly when both squares are on the board and the start square is empty |
| LoaMoves.CreateAtEmptyStart | proj2/loa/Move.java:64-66 | the lookup as written fails for a move from an empty square, where the documented lookup gives null; everywhere else the two agree |
| LoaMoves.CreateStepLength | proj2/loa/Move.java:72-76 | a step move onto the board, onto no piece of the mover's own, is the table's move, and its length is the number of steps |
| LoaMoves.Trim | proj2/loa/Move.java:30 | the trimmed string has no control or space character at either end, and a string without such ends is unchanged |
| LoaMoves.TrimStart | proj2/loa/Move.java:30 | a suffix of the string that does not start with a trimmed character |
| LoaMoves.TrimEnd | proj2/loa/Move.java:30 | a prefix of the string that does not end with a trimmed character |
| LoaMoves.Create | proj2/loa/Move.java:29-40 | trimmed text that does not name a move gives the invalid move of that text; text that does is looked up as written at the squares its letters and digits name |
| LoaMoves.MatchesMove | proj2/loa/Move.java:31 | a match names two columns a to h and two rows 1 to 9 around a dash, followed by the end or a non-word character, with no line terminator after the move's text |
| LoaMoves.Matched | proj2/loa/Move.java:31-35 | the text's squares p1 and p2 are read from its letters and digits and looked up as written |
| LoaMoves.ColLetter | proj2/loa/Move.java:183 | a column on the board is written as a letter from a to h |
| LoaMoves.ToString | proj2/loa/Move.java:178-186 | a move's text is five characters with a dash in the middle; an invalid move's text is its creation string |
| LoaMoves.DigitOf | proj2/loa/Move.java:183-184 | a row on the board is written as its one digit |
| LoaMoves.CreateToString | proj2/loa/Move.java:29-40 | reading back the text of a table move, on a board holding its pieces, gives the same move |
| LoaMoves.MoveText | proj2/loa/Move.java:179-186 | the text of a move on the board has nothing to trim, is matched as a move's text, and its letters and digits name the move's two squares |
| LoaMoves.FiveParts | proj2/loa/Move.java:32-33 | the two squares of a move's text are its first two and its last two characters |
| LoaMoves.OffBoardText | proj2/loa/Move.java:59-63 | text naming row 9 gives the invalid move of that text |
| LoaBitMatrices.BitMatrix.constructor | proj2/loa/util/BitMatrix.java:24-29 | a new matrix has the given number of rows and every bit off |
| LoaBitMatrices.BitMatrix.Get | proj2/loa/util/BitMatrix.java:55-57 | true exactly when the bit is on |
| LoaBitMatrices.BitMatrix.Set | proj2/loa/util/BitMatrix.java:66-68 | the bit is on and every other bit is as it was |
| LoaBitMatrices.BitMatrix.Clear | proj2/loa/util/BitMatrix.java:43-45 | the bit is off and every other bit is as it was |
| LoaBitMatrices.SetGetClear | proj2/loa/tests/BitMatrixTest.java:38-58 | setting a pattern's bits and reading them back gives the pattern, and clearing them leaves every bit off |
| LoaLoggers.CountBelow | proj2/loa/util/Logger.java:49 | the number of levels below the bound is at most the number of levels |
| LoaLoggers.CountBelowMeaning | proj2/loa/util/Logger.java:49 | with levels in order, the levels below the bound are exactly the first CountBelow of them |
| LoaLoggers.LowerEntry | proj2/loa/util/Logger.java:49 | lowerEntry gives a position of the map, or none |
| LoaLoggers.Receivers | proj2/loa/util/Logger.java:49-52 | with the levels in order, every listener attached below the bound receives the message once per attachment, and no other listener receives it |
| LoaLoggers.LogReceiversAsWritten | proj2/loa/util/Logger.java:46-54 | with the int `level += 1`, a message below Integer.MAX_VALUE reaches the listeners below level + 1, and one at Integer.MAX_VALUE reaches no one |
| LoaLoggers.BelowAttached | proj2/loa/util/Logger.java:49-52 | the listeners of the first n levels are those attached below a bound that exactly n levels are under |
| LoaLoggers.NoneBelow | proj2/loa/util/Logger.java:49 | with no level below the bound, nothing is attached below it |
| LoaLoggers.BelowShift | proj2/loa/util/Logger.java:49-52 | the listeners of the first n levels are the first level's and then the next n - 1 levels' |
| LoaLoggers.AddInt | proj2/loa/util/Logger.java:48 | Java's int addition stays an int, and is the sum when the sum fits |
| LoaLoggers.LogAtMaxLevelIsLost | proj2/loa/util/Logger.java:48 | a listener at level 0 does not receive a message logged at Integer.MAX_VALUE, although it does with the bound computed without wrap-around |
| LoaLoggers.InsertMeaning | proj2/loa/util/Logger.java:64-73 | attach keeps the levels in order, adds the level, appends the listener to that level's list and leaves every other list as it was |
| LoaLoggers.InsertSorted | proj2/loa/util/Logger.java:64-73 | attach keeps the levels in order and adds the level |
| LoaLoggers.InsertLevels | proj2/loa/util/Logger.java:64-73 | attach adds exactly the listener's level to the levels |
| LoaLoggers.InsertListeners | proj2/loa/util/Logger.java:64-73 | attach appends the listener to its level's list only |
| LoaLoggers.LevelsCons | proj2/loa/util/Logger.java:25 | the levels of a map are its first level and the rest's |
| LoaLoggers.SortedHead | proj2/loa/util/Logger.java:25 | the first level of an ordered map is below all the others |
| LoaLoggers.LevelAbsent | proj2/loa/util/Logger.java:65-70 | no listener is attached at a level the map does not have |
| LoaLoggers.SortedCons | proj2/loa/util/Logger.java:25 | a level below every level of an ordered map can go in front of it |
| LoaLoggers.IndexOf | proj2/loa/util/Logger.java:83 | the first position holding the listener |
| LoaLoggers.RemoveFirstMeaning | proj2/loa/util/Logger.java:83 | remove takes out the first occurrence when there is one, keeping the others in order, and otherwise changes nothing; exactly one occurrence fewer |
| LoaLoggers.RemoveFirstAbsent | proj2/loa/util/Logger.java:83 | removing an absent listener changes nothing |
| LoaLoggers.RemoveFirstAt | proj2/loa/util/Logger.java:83 | removing a present listener drops its first occurrence |
| LoaLoggers.DetachedReceivesNothing | proj2/loa/util/Logger.java:80-86 | a listener attached at most once per level receives nothing once detached, and every other listener receives as before |
| LoaLoggers.DetachedAttached | proj2/loa/util/Logger.java:80-86 | after detach the listener is attached nowhere below any bound, the others as before |
| LoaLoggers.RangeQuery | proj2/loa/util/Logger.java:49-52 | the loop of lowerEntry calls delivers the message to exactly the listeners below the bound, highest level first |
| LoaLoggers.CountBelowAt | proj2/loa/util/Logger.java:49-50 | the levels below an entry's level are those before it |
| LoaLoggers.Logger.constructor | proj2/loa/util/Logger.java:32-36 | a new logger has its name, no listeners and an empty log |
| LoaLoggers.Logger.GetLog | proj2/loa/util/Logger.java:92-94 | the log so far |
| LoaLoggers.Logger.Log | proj2/loa/util/Logger.java:46-54 | the listeners reached are LogReceiversAsWritten: those attached at or below the level when it is below Integer.MAX_VALUE, and none at Integer.MAX_VALUE; the message and a newline are appended to the log |
| LoaLoggers.Logger.Attach | proj2/loa/util/Logger.java:64-73 | the listener is appended to its level's list, which is created when missing |
| LoaLoggers.Logger.Detach | proj2/loa/util/Logger.java:80-86 | the listener is removed once from every level's list, and every level is kept |
| LoaStrings.UpperCase | proj2/loa/util/StringTools.java:19 | an ASCII lower-case letter becomes its upper-case letter, and every other character is unchanged |
| LoaStrings.CapitalizeFirstLetter | proj2/loa/util/StringTools.java:15-20 | the empty string is unchanged; otherwise the first character is upper-cased (ASCII) and the rest kept |
| LoaStrings.CapitalizeIdempotent | proj2/loa/util/StringTools.java:15-20 | capitalizing twice is capitalizing once, and a string not starting with a lower-case letter is unchanged |
| LoaStrings.CapitalizeExamples | proj2/loa/tests/StringToolsTest.java:19-29 | "" stays "", "hi" becomes "Hi", "1isd" stays "1isd" |
| LoaAcyclic.ScanBack | proj2/loa/players/AcyclicMachinePlayer.java:74-77 | the index the scan stops at is at most its start |
| LoaAcyclic.ScanBackMeaning | proj2/loa/players/AcyclicMachinePlayer.java:74-77 | the scan stops at the last index up to its start holding the move, or below 0 when there is none |
| LoaAcyclic.CyclicRepeats | proj2/loa/players/AcyclicMachinePlayer.java:71-93 | when a move is cyclic, playing it ends a block of moves that repeats the block of the same length just before it |
| LoaAcyclic.RepeatsCyclic | proj2/loa/players/AcyclicMachinePlayer.java:71-93 | conversely, such a repetition ending at the cycle's end in the later half of the history makes the move cyclic |
| LoaAcyclic.CyclicCases | proj2/loa/tests/AcyclicMachinePlayerTest.java:31-88 | the unit test's histories: the repeating ones are cycles and the others are not |
| LoaAcyclic.Choose | proj2/loa/players/AcyclicMachinePlayer.java:47-55 | the played move is a candidate: the second best exactly when the best is cyclic and there is another candidate, otherwise the best |
| LoaAcyclic.RememberMeaning | proj2/loa/players/AcyclicMachinePlayer.java:57-60 | the history keeps at most ten moves, ends with the move played, and is the last moves played |
| LoaAcyclic.AcyclicPlayer.constructor | proj2/loa/players/AcyclicMachinePlayer.java:32-35 | a new player has an empty history |
| LoaAcyclic.FindEndCycle | proj2/loa/players/AcyclicMachinePlayer.java:74-77 | the scan back from the next-to-last move stops at the last earlier occurrence of the move, or below 0 when there is none |
| LoaAcyclic.MatchesBack | proj2/loa/players/AcyclicMachinePlayer.java:82-90 | true exactly when every move before the cycle's end, back as far as the cycle is long, equals the move as far back from the end of the history |
| LoaAcyclic.AcyclicPlayer.CyclicMove | proj2/loa/players/AcyclicMachinePlayer.java:71-93 | returns whether the move is Cyclic for the history: a cycle end in the later half whose preceding block repeats at the end |
| LoaAcyclic.AcyclicPlayer.Act | proj2/loa/players/AcyclicMachinePlayer.java:44-63 | the move played is Choose of the candidates, and the history becomes Remember of it |
| SearchTrees.KeysAreElements | hw6/BSTStringSet.java:28-68 | in a tree of strings the keys searched by are the elements themselves |
| SearchTrees.Descend | hw6/BSTGenericSet.java:59-73 | in an ordered tree a key below the root's is present exactly when it is in the left subtree, and one above exactly when it is in the right |
| SearchTrees.KeysOfElements | hw6/BSTGenericSet.java:59-73 | the keys of a tree are exactly the keys of its elements |
| SearchTrees.KeyOfElement | hw6/BSTGenericSet.java:59-73 | every element's key is among the tree's keys |
| SearchTrees.Find | hw6/BSTGenericSet.java:75-89 | what the search finds is an element of the tree with the key searched for |
| SearchTrees.Insert | hw6/BSTGenericSet.java:33-53 | inserting gives a non-empty tree that keeps every element and adds at most the new one |
| SearchTrees.FindMeaning | hw6/BSTGenericSet.java:75-89 | in an ordered tree the search finds something exactly when the key is present, and what it finds is an element with that key |
| SearchTrees.InsertKeys | hw6/BSTGenericSet.java:33-53 | inserting adds the element's key, and adds the element itself when its key was absent |
| SearchTrees.InsertOrdered | hw6/BSTGenericSet.java:33-53 | inserting keeps a tree ordered |
| SearchTrees.InsertPresent | hw6/BSTGenericSet.java:33-53 | inserting an element whose key is present leaves the tree unchanged, so the element stored first stays |
| SearchTrees.FindAfterInsert | hw6/BSTGenericSet.java:33-89 | after inserting, the search for the element's key finds the element, or the earlier element with that key when there was one |
| SearchTrees.FindNew | hw6/BSTGenericSet.java:33-89 | after inserting an element with a new key the search for that key finds it |
| SearchTrees.FindOther | hw6/BSTGenericSet.java:33-89 | inserting leaves the search for every other key unchanged |
| BstStringSets.ContainsAt | hw7/BSTStringSet.java:37-51 | in an ordered tree the descent answers exactly whether the string is in the subtree |
| BstStringSets.PutAt | hw7/BSTStringSet.java:63-78 | the returned subtree is the old one with the string inserted, new nodes only, and the same root node when there was one |
| BstStringSets.PutLeft | hw7/BSTStringSet.java:70-72 | the left subtree gets the string inserted and the rest of the node is unchanged |
| BstStringSets.SetLeft | hw7/BSTStringSet.java:71 | the node's left subtree is the one given |
| BstStringSets.PutRight | hw7/BSTStringSet.java:73-75 | the right subtree gets the string inserted and the rest of the node is unchanged |
| BstStringSets.SetRight | hw7/BSTStringSet.java:74 | the node's right subtree is the one given |
| BstStringSets.BSTStringSet.constructor | hw7/BSTStringSet.java:27-29 | a new set holds nothing |
| BstStringSets.BSTStringSet.Contains | hw7/BSTStringSet.java:32-34 | true exactly when the string is in the set |
| BstStringSets.BSTStringSet.Put | hw7/BSTStringSet.java:56-58 | the set gains the string and stays ordered; a string already present leaves the tree as it was |
| BstStringSets.PutTwo | hw7/BSTStringSet.java:27-58 | a fresh set holds nothing; after putting two strings it holds both and no other |
| BstStringSetsHw6.BSTStringSet.constructor | hw6/BSTStringSet.java:7-9 | a new set has no value and no children |
| BstStringSetsHw6.BSTStringSet.Of | hw6/BSTStringSet.java:18-20 | a one-string set holding exactly that string |
| BstStringSetsHw6.BSTStringSet.IsEmpty | hw6/BSTStringSet.java:70-72 | true exactly when the set holds nothing |
| BstStringSetsHw6.BSTStringSet.Contains | hw6/BSTStringSet.java:54-68 | in an ordered set, true exactly when the string is in it |
| BstStringSetsHw6.BSTStringSet.Put | hw6/BSTStringSet.java:28-48 | the tree becomes the old tree with the string inserted; an empty set takes it as its value and a non-empty one keeps its value |
| BstStringSetsHw6.BSTStringSet.PutRight | hw6/BSTStringSet.java:34-40 | the right child gets the string inserted, the rest unchanged |
| BstStringSetsHw6.BSTStringSet.PutLeft | hw6/BSTStringSet.java:41-46 | the left child gets the string inserted, the rest unchanged |
| BstStringSetsHw6.PutMeaning | hw6/BSTStringSet.java:28-48 | put keeps a set ordered, adds exactly the string, and changes nothing when it is already there |
| BstStringSetsHw6.PutTwo | hw6/BSTStringSet.java:7-72 | a fresh set is empty and contains nothing; after two puts it contains both and is not empty |
| BstGenericSets.BSTGenericSet.constructor | hw6/BSTGenericSet.java:12-14 | a new set is empty |
| BstGenericSets.BSTGenericSet.Of | hw6/BSTGenericSet.java:23-25 | a one-element set holding exactly that element |
| BstGenericSets.BSTGenericSet.IsEmpty | hw6/BSTGenericSet.java:91-93 | true exactly when the set holds nothing |
| BstGenericSets.BSTGenericSet.Contains | hw6/BSTGenericSet.java:59-73 | false for null, otherwise true exactly when an element comparing equal is in the set |
| BstGenericSets.BSTGenericSet.Get | hw6/BSTGenericSet.java:75-89 | an element is returned exactly when one compares equal, and it is a stored element comparing equal |
| BstGenericSets.BSTGenericSet.Put | hw6/BSTGenericSet.java:33-53 | the tree becomes the old tree with the element inserted; an empty set takes it as its value |
| BstGenericSets.BSTGenericSet.PutRight | hw6/BSTGenericSet.java:39-45 | the right child gets the element inserted, the rest unchanged |
| BstGenericSets.BSTGenericSet.PutLeft | hw6/BSTGenericSet.java:46-51 | the left child gets the element inserted, the rest unchanged |
| BstGenericSets.PutMeaning | hw6/BSTGenericSet.java:33-89 | put keeps the tree ordered and adds the element's key; the element is added only when no element compares equal, otherwise the first stays and get still finds it |
| BstDictionaries.BSTDictionary.constructor | hw6/BSTDictionary.java:7-9 | a new dictionary has no words |
| BstDictionaries.BSTDictionary.Put | hw6/BSTDictionary.java:15-20 | the word gains an entry; a new word gets the definition, a word already there keeps its first one, and other words are unchanged |
| BstDictionaries.BSTDictionary.Contains | hw6/BSTDictionary.java:26-30 | false for null, otherwise true exactly when the word has an entry |
| BstDictionaries.BSTDictionary.Get | hw6/BSTDictionary.java:36-42 | null for a word without an entry, otherwise the definition of its entry |
| BstDictionaries.GetFinds | hw6/BSTDictionary.java:36-42 | what the store's get returns for a probe is what the search for the probe's word finds |
| BstDictionaries.UniqueWords | hw6/BSTDictionary.java:64-69 | in an ordered tree, comparing entries by word, no two entries share a word |
| BstDictionaries.Side | hw6/BSTDictionary.java:64-69 | an entry of an ordered tree is the root, or on the left with a smaller word, or on the right with a larger one |
| BstDictionaries.Define | hw6/BSTDictionary.java:15-42 | the first definition put for a word is the one get returns, even after a second put; null is not contained |
| EcHashStringSets.HashToStore | hw7/ECHashStringSet.java:71-76 | the bucket chosen for any 32-bit hash code is a valid index into the buckets |
| EcHashStringSets.UnsignedHashIsNonNegative | hw7/ECHashStringSet.java:71-76 | the unsigned shift keeps the sign bit clear, so Java's truncating `%` cannot give a negative bucket |
| EcHashStringSets.InBag | hw7/ECHashStringSet.java:37-48 | a string is among the set's strings exactly when some bucket's list holds it |
| EcHashStringSets.BagAppend | hw7/ECHashStringSet.java:26-33 | appending a string to one bucket adds exactly one copy of it to the set's strings |
| EcHashStringSets.BagSameItems | hw7/ECHashStringSet.java:26-30 | creating an empty list in place of a null bucket leaves the set's strings unchanged |
| EcHashStringSets.BagPrefixBound | hw7/ECHashStringSet.java:55-65 | the old buckets already re-put during a resize hold no more strings than all of them |
| EcHashStringSets.BagEmpty | hw7/ECHashStringSet.java:13-16 | a table of null buckets holds no strings |
| EcHashStringSets.BagPrefix | hw7/ECHashStringSet.java:58-64 | each step of the resize loop adds exactly the next old bucket's strings |
| EcHashStringSets.ECHashStringSet.constructor | hw7/ECHashStringSet.java:13-16 | a new set has INITIAL_BUCKETS buckets, no strings and size 0 |
| EcHashStringSets.ECHashStringSet.Size | hw7/ECHashStringSet.java:50-52 | the size is the number of strings held, duplicates counted |
| EcHashStringSets.ECHashStringSet.Contains | hw7/ECHashStringSet.java:37-48 | contains answers true exactly when the argument is not null and is held somewhere in the table, although only one bucket is searched |
| EcHashStringSets.ECHashStringSet.Put | hw7/ECHashStringSet.java:19-34 | put(null) changes nothing; otherwise the string is added once more and the size grows by one, and the table doubles exactly when the old load exceeded MAX_LOAD |
| EcHashStringSets.ECHashStringSet.Add | hw7/ECHashStringSet.java:26-33 | adding a string under the load bound keeps the table and adds one copy of the string |
| EcHashStringSets.ECHashStringSet.PutAll | hw7/ECHashStringSet.java:60-63 | re-putting one old bucket's strings adds all of them, in order, without triggering another resize |
| EcHashStringSets.ECHashStringSet.Resize | hw7/ECHashStringSet.java:55-65 | resizing doubles the buckets and keeps the set's strings and size |
| EcHashStringSets.PutSome | hw7/ECHashStringSetTest.java:19-45 | after putting a, b, a again and null the size is 3, both strings are contained and null is not |
| LinkedListSets.LinkedListStringSet.constructor | hw6/LinkedListStringSet.java:23-26 | a new set holds only the sentinel string "dummy", which is both front and last |
| LinkedListSets.LinkedListStringSet.Contains | hw6/LinkedListStringSet.java:34-42 | contains answers true exactly when the string is held |
| LinkedListSets.LinkedListStringSet.Put | hw6/LinkedListStringSet.java:48-55 | put leaves a held string's set unchanged and otherwise appends the string at the end, so no string is held twice |
| LinkedListSets.PutTwice | hw6/LinkedListStringSet.java:23-55 | a fresh set contains the sentinel, and after two puts of the same string it contains that string |
| IntDLists.TextJoin | lab3/IntDList.java:108-121 | the text built by toString's loop is the values joined by ", " |
| IntDLists.RenderCases | lab3/IntDList.java:108-121 | an empty list renders as "[]" and a single value v as "[v]" |
| IntDLists.IntDList.constructor | lab3/IntDList.java:6-8 | a new list is empty |
| IntDLists.IntDList.FromValues | lab3/IntDList.java:10-15 | the list built from values holds exactly those values in order |
| IntDLists.IntDList.GetFront | lab3/IntDList.java:17-19 | an empty list throws; otherwise the first value |
| IntDLists.IntDList.GetBack | lab3/IntDList.java:22-24 | an empty list throws; otherwise the last value |
| IntDLists.IntDList.Get | lab3/IntDList.java:28-46 | an empty list gives -1; a non-negative index counts from the front and a negative one from the back, and an index past an end gives the value at that end |
| IntDLists.IntDList.Size | lab3/IntDList.java:49-60 | the size is the number of values in the list |
| IntDLists.IntDList.InsertFront | lab3/IntDList.java:63-75 | the list becomes d followed by the old values |
| IntDLists.IntDList.InsertBack | lab3/IntDList.java:77-87 | the list becomes the old values followed by d |
| IntDLists.IntDList.DeleteBack | lab3/IntDList.java:91-103 | an empty list gives -1 and stays empty; otherwise the last value is returned and the list becomes the old values without it |
| IntDLists.IntDList.ToString | lab3/IntDList.java:108-121 | the text is the values joined by ", " between brackets |
| IntDLists.DeleteBackAsWritten | lab3/IntDList.java:91-103 | the lab's deleteBack returns -1 on an empty list, otherwise the old back's value; it moves the back to the old back's next, clears the front only when it was the old back, and changes no link of any cell |
| IntDLists.DeleteBackLeavesStaleLink | lab3/IntDList.java:91-121 | with the lab's deleteBack, insertBack(1), insertBack(2), deleteBack() returns 2 yet a walk from the front still meets 1 and then 2, and toString's loop on the cells (`IntDLists.WalkText`) renders "[12, ]" |
| IntDLists.DeleteBackClient | lab3/IntDList.java:77-121 | with the corrected deleteBack the same calls leave size 1 and the text "[1]" |
| SimpleGraphs.EdgeKeyInjective | hw9/SimpleGraph.java:67-69 | two edges between vertices in range share a label key only when they are the same edge |
| SimpleGraphs.SimpleGraph.constructor | hw9/SimpleGraph.java:18-20 | a new graph has no vertices and no labels and keeps the given vertex bound |
| SimpleGraphs.SimpleGraph.AddVertex | hw9/SimpleGraph.java:23-31 | a vertex outside 0..maxVertex is rejected; a new vertex gets empty successor and predecessor lists, and nothing else changes |
| SimpleGraphs.SimpleGraph.AddEdge | hw9/SimpleGraph.java:34-39 | the edge is added exactly when both ends are in range: v2 is appended to v1's successors and v1 to v2's predecessors, and every other vertex keeps its lists |
| SimpleGraphs.SimpleGraph.Link | hw9/SimpleGraph.java:37-38 | once both ends are vertices, v2 is appended to v1's successors and v1 to v2's predecessors, and the graph stays well formed |
| SimpleGraphs.LinkKeepsAdjacency | hw9/SimpleGraph.java:34-39 | appending an edge between two vertices keeps the vertex range and keeps every listed neighbour a vertex |
| SimpleGraphs.SimpleGraph.Successors | hw9/SimpleGraph.java:52-54 | the successor list of a vertex, and null exactly when v is not a vertex; `SimpleGraphs.SimpleGraph.ContainsVertex` is contains(v) (SimpleGraph.java:42-44), the same null test |
| SimpleGraphs.SimpleGraph.ContainsEdge | hw9/SimpleGraph.java:47-49 | an edge is reported only between two vertices of the graph, v2 among v1's successors |
| SimpleGraphs.SimpleGraph.Predecessors | hw9/SimpleGraph.java:57-59 | the predecessor list of a vertex, and null exactly when v is not a vertex |
| SimpleGraphs.SimpleGraph.AddVertexLabel | hw9/SimpleGraph.java:62-64 | the vertex's label becomes the given one and no other label changes |
| SimpleGraphs.SimpleGraph.AddEdgeLabel | hw9/SimpleGraph.java:67-69 | the edge's label becomes the given one and no other label changes |
| SimpleGraphs.SimpleGraph.VertexLabel | hw9/SimpleGraph.java:72-74 | the label last given to the vertex, and null exactly when it has none |
| SimpleGraphs.SimpleGraph.EdgeLabel | hw9/SimpleGraph.java:77-79 | the label last given to the edge, and null exactly when it has none |
| SimpleGraphs.SimpleGraph.Apply | hw9/SimpleGraph.java:81-84 | func receives (v, label) once for every labelled vertex, in the label map's iteration order |
| SimpleGraphs.EdgeLabelUpdate | hw9/SimpleGraph.java:67-79 | labelling one edge between vertices in range changes that edge's label and no other edge's |
| SimpleGraphs.AddOneEdge | hw9/SimpleGraph.java:23-59 | after adding one edge to a fresh graph both ends are vertices, the edge is present and the reverse edge is not |
| TrReaders.IndexOf | hw3/TrReader/TrReader.java:56 | the index is -1 exactly when the character is absent, and otherwise the first position holding it |
| TrReaders.Translate | hw3/TrReader/TrReader.java:55-63 | a character outside FROM passes unchanged; one inside becomes the character of TO at its first position in FROM |
| TrReaders.IndexOfDistinct | hw3/TrReader/TrReader.java:55-63 | in a FROM without repeated characters each character's first position is its own position |
| TrReaders.TranslateRoundTrip | hw3/TrReader/TrReader.java:15-19 | translating by a permutation FROM to TO and back by TO to FROM restores every character |
| TrReaders.TrReader.constructor | hw3/TrReader/TrReader.java:20-29 | the reader keeps its source, FROM and TO, which must have equal lengths |
| TrReaders.TrReader.Read | hw3/TrReader/TrReader.java:38-47 | a bad range throws and changes nothing; otherwise the characters read are stored translated, the rest of the range is translated in place, the source advances by the count read, and the result is that count or -1 at the end |
| TrReaders.TrReader.ReadSource | hw3/TrReader/TrReader.java:39 | the string source copies up to len of its characters into the buffer at off and gives their count, or -1 when it is exhausted and len is positive |
| EveryOtherWords.EvenIndexedMeaning | lab6/EveryOtherWord.java:23-35 | a word is in the result exactly when it sits at an even index of L |
| EveryOtherWords.EveryOtherWord | lab6/EveryOtherWord.java:23-35 | the iterator loop collects exactly the words at even indices |
| EveryOtherWords.EveryOtherWordExample | lab6/EveryOtherWord.java:41-65 | the main method's list gives {"hey", "fish", "are"} |
| EveryOtherWords.SortedCons | lab6/EveryOtherWord.java:86 | a sorted list stays sorted with a word in front that comes before all of its words |
| EveryOtherWords.InsertSorted | lab6/EveryOtherWord.java:86 | inserting into a sorted list keeps it sorted and adds exactly that word |
| EveryOtherWords.LessEqTransitive | lab6/EveryOtherWord.java:86 | compareTo's "at most" is transitive, as sorting needs |
| EveryOtherWords.SortSpec | lab6/EveryOtherWord.java:82-92 | sorting gives a sorted permutation of the list |
| EveryOtherWords.SortedUnique | lab6/EveryOtherWord.java:94 | two sorted lists with the same words, counted with multiplicity, are equal |
| EveryOtherWords.SameLeast | lab6/EveryOtherWord.java:94 | two sorted lists with the same words start with the same word |
| EveryOtherWords.SortEqualIff | lab6/EveryOtherWord.java:82-94 | the sorted lists are equal exactly when the two collections hold the same words as often |
| EveryOtherWords.HaveSameItems | lab6/EveryOtherWord.java:72-95 | false when exactly one collection is null, an exception when both are, and otherwise whether they hold the same words as often |
| EveryOtherWords.DistinctCount | lab6/EveryOtherWord.java:53-56 | a collection without repetitions, such as a set, holds each of its words once |
| EveryOtherWords.SameSetSameItems | lab6/EveryOtherWord.java:51-59 | any two enumerations of the same set have the same items, so the main method's check does not depend on HashSet order |
| LeapYears.IsLeapYear | labs/src/lab1/LeapYear.java:10-13 | a leap year is divisible by 4, and a century year not divisible by 400 is not one |
| LeapYears.LeapYearPeriodic | labs/src/lab1/LeapYear.java:10-13 | the rule repeats every 400 years |
| LeapYears.LeapYearCases | labs/src/lab1/LeapYear.java:14-23 | odd years are never leap years; 2000 and 2024 are, 1900 and 2023 are not |
| LeapYears.LeapYearsFrom | labs/src/lab1/LeapYear.java:10-13 | a run of n years holds at most n leap years |
| LeapYears.LeapYearsPerCycle | labs/src/lab1/LeapYear.java:10-13 | every 400 consecutive years hold exactly 97 leap years |
| LeapYears.ShiftCount | labs/src/lab1/LeapYear.java:10-13 | counting leap years from a multiple of 400 depends only on the offset |
| LeapYears.Split | labs/src/lab1/LeapYear.java:10-13 | counting n + m years is counting n and then m more |
| LeapYears.LeapStep | labs/src/lab1/LeapYear.java:10-13 | from year x to x + 1 the closed-form count grows by one exactly when x is a leap year |
| LeapYears.CountUp | labs/src/lab1/LeapYear.java:10-13 | counting years 0 to n - 1 one by one gives 1 + (n-1)/4 - (n-1)/100 + (n-1)/400 leap years |
| Common.RStrip | proj3/testing/tester.py:168 | rstrip never lengthens the text (its exact meaning is RStripSpec) |
| Common.RStripSpec | proj3/testing/tester.py:168 | rstrip removes exactly the trailing Python whitespace and keeps the rest as a prefix |
| Common.CompareTo | hw7/BSTStringSet.java:42 | compareTo is 0 exactly for equal strings |
| Common.CompareToAntisymmetric | hw7/BSTStringSet.java:42 | comparing b with a gives the negation of comparing a with b |
| Common.LessTransitive | hw7/BSTStringSet.java:42 | the order compareTo defines is transitive |
| Common.LessTrichotomy | hw7/BSTStringSet.java:42 | of two strings exactly one is below the other, or they are equal |
| Common.HashCode | hw7/ECHashStringSet.java:25 | hashCode is an int, 0 for the empty string; it is `Common.HashWord`, the 32-bit `h * 31 + c` over the characters, read as a signed int |
| Common.IntToString | proj0/canfield/Game.java:618 | the decimal text of an int, as `%d` writes it: a leading '-' exactly for a negative number, digits after it; that the digits spell the number is IntToStringSpells |
| Common.IntToStringSpells | proj0/canfield/Game.java:618 | the digits of an int's text, after the '-' of a negative number, spell its magnitude (DigitsValue), with no leading zero except in "0", so "-0" and "007" are never produced |
| Common.NatToString | proj0/canfield/Game.java:618 | the decimal text of a natural number is one or more digits |
| Common.NatToStringSpells | proj0/canfield/Game.java:618 | the decimal text of a natural number spells it, and starts with '0' only when it is "0" |
| Common.Join | proj1/db61b/Row.java:70-95 | joining no parts gives "" and one part gives that part; that the pieces of a join are its parts is DbRows.PiecesOfJoin |
| Common.LStrip | proj3/testing/tester.py:187-190 | lstrip never lengthens the text (its exact meaning is LStripSpec) |
| Common.LStripSpec | proj3/testing/tester.py:187-190 | lstrip, the other half of strip, removes exactly the leading Python whitespace and keeps the rest as a suffix; `Common.Strip`, Python's strip(), is LStrip after RStrip, so by the two Spec lemmas it removes exactly the leading and trailing Python whitespace |

## Left out

- Input and output: the tester's subprocess runs, file copying and deletion, temporary directories and reports; db61b's `readTable`, `writeTable` and `print` (proj1/db61b/Table.java:115-193); Gitlet's serialized objects and files. Where the core reads such state it receives it as a parameter: a map for the test directory, an oracle for a program's output.
- Python's `re` matching is a parameter of the tester's model (a function from pattern and subject to the groups of a match); regular-expression semantics are not modelled.
- Randomness: `Pile.shuffle` is not modelled; `Game.deal` takes the shuffled deck as a parameter.
- Iteration order of `HashSet` and `HashMap`: it is a parameter (an enumeration of the set) wherever a result depends on it.
- `java.io.Reader`: `TrReader`'s source is a string with the behaviour of `StringReader.read(cbuf, off, len)`; `close` and the single-character `read` inherited from `Reader` are not modelled.
- Floating point: `Board.contiguityScore` and `Board.densityScore` (proj2/loa/Board.java:145-166, 370-391) and the machine players' scores. The acyclic player receives its candidates already ranked.
- GUIs, text players and `GameListener` notifications are not modelled. `LogListener`s are values, and `log` is modelled by the list of listeners a message reaches, not by callbacks.
- `Board.toString`, `clone`, `hashCode` and `equals` (proj2/loa/Board.java:310-361), `Move.hashCode` (proj2/loa/Move.java:196-211) and `Logger.getName`/`setName` (proj2/loa/util/Logger.java:100-111) are not modelled: they format or copy the state without a property of their own.
- `GitletObjectManager.forEach`, `putAll`, `remove` and `find` (proj3/gitlet/GitletObjectManager.java:38-135) are left out: they iterate over or delete files on disk. The object store is modelled by its path scheme and `put`.
- hw7 `BSTStringSet.iterator` returns null in the source, so it is not modelled.
- Null arguments are modelled (as `Option`) only where the source checks for them: `ECHashStringSet.put`/`contains`, `BSTGenericSet.contains`, `haveSameItems`. Elsewhere a null reference would throw a `NullPointerException` that the source does not handle, and the model's types exclude it.
- `Comparable` and `compareTo` on generic elements are modelled by a key function into strings. `BSTDictionary` entries compare by word.
- ECHashStringSet buckets are sequences rather than `LinkedList` objects; aliasing between buckets cannot arise in the source and is not modelled.
- SimpleGraphs.EdgeKeyInjective: stated for vertices in 0..maxVertex with unbounded arithmetic. The source's `v1 * (maxVertex + 1) + v2` overflows a Java `int` for a maxVertex above about 46340, and that wrap-around is not modelled.
- EcHashStringSets.ECHashStringSet.Resize: required exactly at the load threshold, size == MAX_LOAD * buckets + 1, the only state in which `put` calls it. It is not stated for an arbitrary load.
- IntDLists.IntDList.DeleteBack: states the corrected behaviour (see Findings); the lab's code is modelled by `DeleteBackAsWritten` on an explicit cell array.
- Canfield.Game.Deal: keeps the history, as the source does; `DealAfresh` is the corrected deal.
- DbColumns.Column.Value and DbConditions.Condition.Test: require resolved columns. An unresolved column in the source throws a `NullPointerException` that nothing catches.
- BinaryHeap.IntHeap.Heapify: takes k as a natural number no larger than the array's length. A negative k in the source gives a heap of negative size, and a larger k makes `propagateDown` index past the array; neither is modelled.
- BinaryHeap.IntHeap.IncreaseStore: doubles on unbounded integers. The source's `store.length*2` overflows a Java `int` for a store of 2^30 or more entries, and that is not modelled.
- Nybbles.Nybbles.constructor: requires -14 <= N <= 2^31 - 8. For a smaller N the source's word array gets a negative length, and for a larger int N the sum `N + 7` wraps to a negative int; in both cases `new` throws `NegativeArraySizeException`. A constructor cannot return an error value, so neither case is modelled. Nybbles.StoreLength has the same bounds.
- LoaMoves.MatchesMove: the word characters of `\b` are the ASCII letters, digits and '_', as in Java 19 and later. Before Java 19, `\b` counts every character for which `Character.isLetterOrDigit` holds, so for a move's text followed by a non-ASCII letter or digit ("a1-a2é") the source finds no move and the model finds one.
- GitletMerge.MergeEnd: the working directory is only the set of files present in it. Writing the checked-out files, deleting the removed ones and writing the conflict files are not modelled. Neither is the unstaging of conflicted files by `mergeConflict`, after which merge always throws, nor the index a failed merge leaves behind. `Repository.checkout` is not part of this model: checking out a commit's file with stage set is taken to be `Index.checkout(file, hash, true)`, and `ResetCommand.reset`'s checkout of a commit to be `Index.checkout(Commit)`. When the two histories share no commit, the split point is "" and merge compares against the commit tagged "initial" (MergeCommand.java:62-64); the model takes the split point's files as a parameter, so in that case they are the files of that commit, and the tag lookup is not modelled.
- Intervals.SortByStart: sorts by the true order of the starts and does not state stability. The source's comparator `arr1[0] - arr2[0]` wraps for starts 2^31 or more apart (Intervals.StartOrderAsWritten); for such lists the order `List.sort` produces, or its exception for an inconsistent comparator, is not modelled. Where every difference fits an int the two orders agree (Intervals.StartOrderAgrees).
- Intervals.CoveredLength: sorts with SortByStart, so it inherits that line's limit for starts 2^31 or more apart; its count is wrapped to an int as the source's is.
- Common.RStrip and Common.LStrip: the functions' own ensures state only that the result is no longer than the input; what exactly they remove is proved separately as Common.RStripSpec and Common.LStripSpec, so that the line comparisons that call them stay cheap to verify.
- Common.CompareTo and Common.HashCode: a Dafny `char` is a Unicode scalar value, and Java's `String` holds UTF-16 code units. The two agree on text of the Basic Multilingual Plane; for a character above U+FFFF Java compares and hashes two surrogate code units, which is not modelled.
- TesterSubst.IsDigit: ASCII digits only. Python's `\d` in a str pattern matches every Unicode decimal digit, so a `${...}` key written in other scripts' digits is not modelled.
- LoaStrings.UpperCase and LoaStrings.CapitalizeFirstLetter: upper-case the ASCII letters only. The source's `substring(0, 1).toUpperCase()` is `String.toUpperCase`, which maps every Unicode lower-case letter (à to À), depends on the default locale, and can lengthen the text (ß to SS, where `|r| == |original|` would fail); none of that is modelled.

## Findings

| source | as written | input that shows it | evidently intended | confidence | as-written member | corrected member |
|---|---|---|---|---|---|---|
| proj0/canfield/Game.java:67-91 | `deal` lays out a new game but keeps the undo history of the previous one | finish a game with a waste-to-foundation move, deal again, then undo: the new base card leaves its foundation for the empty waste | a new deal starts with nothing to undo | not executed | CanfieldRules.StaleUndoAfterDeal | Canfield.Game.DealAfresh |
| proj3/gitlet/MergeCommand.java:115 | a file present in split, head and other is a conflict when the other's hash differs from the head's | split "a", head "b", other "a": reported as a conflict | a file changed only in the head keeps the head's version (three-way merge) | not executed | GitletMerge.ClassifyAsWrittenDiffers | GitletMerge.ClassifyIsThreeWay |
| proj2/loa/util/Logger.java:48 | `level += 1` wraps at `Integer.MAX_VALUE` before the range query | a listener attached at level 0 and a message logged at `Integer.MAX_VALUE`: the listener receives nothing | every listener attached at or below the message level receives it | not executed | LoaLoggers.LogAtMaxLevelIsLost | LoaLoggers.Receivers |
| lab3/IntDList.java:91-103 | `deleteBack` moves the back but leaves the new back's `_prev` link to the removed node | insertBack(1), insertBack(2), deleteBack(): size() is 2 and toString() is "[12, ]" | the removed node is unreachable: size 1 and "[1]" | not executed | IntDLists.DeleteBackLeavesStaleLink | IntDLists.IntDList.DeleteBack |
| hw8/IntHeap.java:133-138 | `increaseStore` doubles the store's length | heapify(new int[0], 0) then add(5): the store stays of length 0 and the add indexes past it | the store grows by at least one slot | not executed | BinaryHeap.AddAfterEmptyHeapify | BinaryHeap.NewCapacity |
| hw8/Intervals.java:17 | the comparator subtracts the starts as `int`s | intervals {MAX_VALUE, MAX_VALUE} and {-1, -1}: the difference wraps and the first sorts before the second | order by start, as `Integer.compare` does | not executed | Intervals.StartOrderOverflows | Intervals.StartOrderAgrees |
| proj3/gitlet/MergeCommand.java:58-61 | the fast-forward resets to the other branch and prints its message but does not return | a head that is an ancestor of the other branch: after the fast-forward merge compares the commits with the old head as split point, re-checks out files the reset already tracks and removes files the reset already untracked, and fails with "No reason to remove the file." or "No changes added to the commit." after printing "Current branch fast-forwarded." | a fast-forward ends merge, with no error | not executed | GitletMerge.FastForwardFails | GitletMerge.MergeFinishAncestry |
| proj3/gitlet/MergeCommand.java:41 | the self-merge test compares the branch's name with `repo.getCurrentBranch()`, the current branch's reference (CheckoutCommand.java:60-68 calls `target()` and `setTarget` on the same kind of value), so it is never true | `merge master` while on master with nothing staged: "Given branch is an ancestor of the current branch." | "Cannot merge a branch with itself." | not executed | GitletMerge.SelfMergeIsAncestor | GitletMerge.MergeChecksIntended |
| proj2/loa/Move.java:64-66 | `create` indexes the move table by the ordinal of the piece on the start square, which has no slot for an empty square | "a1-a2" on the initial board, whose a1 is empty: `ArrayIndexOutOfBoundsException` | null, as for any move the table does not hold | not executed | LoaMoves.CreateAtEmptyStart | LoaMoves.MoveAtMeaning |
