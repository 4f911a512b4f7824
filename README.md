# dsa-visualizer algorithms in Dafny

This project models the algorithm code inside the dsa-visualizer teaching
app and proves properties of it. The app is written in TypeScript and React.
Each visualizer component or page embeds an algorithm: sorts, heaps, string
matching, graph searches, dynamic programming, range structures, caches,
hashing, search trees and backtracking. The algorithm records its steps so
that they can be animated. Each core source file becomes one Dafny module.
The step records are kept as plain sequences of datatypes wherever a
property speaks about them. Rendering and timers are dropped.

Shared definitions live in `common.dfy` (module `Common`): `Option`,
sortedness, multiset helpers, and the parsing of decimal numbers typed into
input boxes. `ParseDecimal` follows JavaScript's `parseInt(s, 10)`: leading
blanks are skipped, one sign is allowed, the longest digit prefix is read,
and no digit at all gives NaN, which is `None` here. The union-find page
calls `parseInt` without a radix, which `ParseIntAuto` models: a `0x` or
`0X` prefix after the sign switches to hexadecimal, and any other text is
read as `ParseDecimal` reads it.

Handlers whose React state changes step by step are modelled as classes.
Their fields are the component's state variables (`stack`, `operations`,
`error`, the limit), and each handler is a method with a `modifies` clause.
Each history entry records the collection as the handler found it, because
`addOperation` captures the state from before the update.

## Model

| member | source | states |
|---|---|---|
| StackVisualizer.Stack.HandlePush | dsa-visualizer/dsa-visualizer/src/components/visualizers/stack-visualizer.tsx:64-80 | a full stack (length ≥ limit) is rejected first, then non-numeric input; otherwise the value goes on top and one push entry with the old stack is logged |
| StackVisualizer.Stack.HandlePop | dsa-visualizer/dsa-visualizer/src/components/visualizers/stack-visualizer.tsx:82-93 | an empty stack is rejected; otherwise the last element is removed and logged |
| StackVisualizer.Stack.HandlePeek | dsa-visualizer/dsa-visualizer/src/components/visualizers/stack-visualizer.tsx:95-103 | an empty stack is rejected; peek never changes the stack and logs the top element |
| StackVisualizer.Stack.HandleReset | dsa-visualizer/dsa-visualizer/src/components/visualizers/stack-visualizer.tsx:105-111 | the stack is emptied and the history becomes the single 'clear' entry |
| StackVisualizer.PushThenPop | dsa-visualizer/dsa-visualizer/src/components/visualizers/stack-visualizer.tsx:64-93 | a push followed by a pop restores the stack and returns the pushed value (last in, first out) |
| StackVisualizer.Stats | dsa-visualizer/dsa-visualizer/src/components/visualizers/stack-visualizer.tsx:45-51 | corrected statistics: the maximum size is at least the current size and every recorded size; push and pop counts fit in the total |
| StackVisualizer.LongestState | dsa-visualizer/dsa-visualizer/src/components/visualizers/stack-visualizer.tsx:49 | the maximum bounds every recorded stack size and is attained by one of them |
| StackVisualizer.MaxSizeBelowCurrentSize | dsa-visualizer/dsa-visualizer/src/components/visualizers/stack-visualizer.tsx:45-51 | after one push onto an empty stack the panel as written shows maximum 0 and current size 1 |
| QueueVisualizer.Queue.HandleEnqueue | dsa-visualizer/dsa-visualizer/src/components/visualizers/queue-visualizer.tsx:99-115 | a full queue is rejected, then non-numeric input; otherwise the value joins at the rear |
| QueueVisualizer.Queue.HandleDequeue | dsa-visualizer/dsa-visualizer/src/components/visualizers/queue-visualizer.tsx:117-128 | an empty queue is rejected; otherwise the element at index 0 leaves (first in, first out) |
| QueueVisualizer.Queue.HandleClear | dsa-visualizer/dsa-visualizer/src/components/visualizers/queue-visualizer.tsx:130-134 | the queue is emptied and one 'clear' entry is appended to the history |
| QueueVisualizer.Queue.HandlePeek | dsa-visualizer/dsa-visualizer/src/components/visualizers/queue-visualizer.tsx:136-145 | an empty queue is rejected; peek leaves the queue unchanged and logs the front |
| QueueVisualizer.Statistics | dsa-visualizer/dsa-visualizer/src/components/visualizers/queue-visualizer.tsx:70-86 | the maximum size is at least the current size and every recorded size; the counts fit in the total |
| QueueVisualizer.Queue.CurrentStatistics | dsa-visualizer/dsa-visualizer/src/components/visualizers/queue-visualizer.tsx:70-86 | the panel's maximum size is never below the current queue length |
| LinkedListVisualizer.FindValue | dsa-visualizer/dsa-visualizer/src/components/visualizers/linked-list-visualizer.tsx:182 | -1 exactly when no node holds the value, otherwise the first index holding it |
| LinkedListVisualizer.LinkedList.CreateNode | dsa-visualizer/dsa-visualizer/src/components/visualizers/linked-list-visualizer.tsx:111-115 | the new id is the clock plus the counter, above every id in the list while the clock does not go back |
| LinkedListVisualizer.LinkedList.HandleInsert | dsa-visualizer/dsa-visualizer/src/components/visualizers/linked-list-visualizer.tsx:129-170 | rejected at capacity or for a non-numeric value; head and tail insert put the node first or last; insert-at needs 0 ≤ index ≤ length, otherwise the list is unchanged; ids stay distinct |
| LinkedListVisualizer.LinkedList.HandleDelete | dsa-visualizer/dsa-visualizer/src/components/visualizers/linked-list-visualizer.tsx:172-192 | only the first node holding the value is removed; a missing value is an error |
| LinkedListVisualizer.LinkedList.HandleSearch | dsa-visualizer/dsa-visualizer/src/components/visualizers/linked-list-visualizer.tsx:194-247 | logs the index of the first node holding the value, or -1 with an error |
| LinkedListVisualizer.LinkedList.HandleClear | dsa-visualizer/dsa-visualizer/src/components/visualizers/linked-list-visualizer.tsx:249-258 | the list is emptied and one 'clear' entry is logged |
| LinkedListVisualizer.InsertKeepsDistinct | dsa-visualizer/dsa-visualizer/src/components/visualizers/linked-list-visualizer.tsx:111-115 | inserting a node with a fresh id keeps ids distinct |
| MessageQueue.ReduceMin | dsa-visualizer/dsa-visualizer/src/components/visualizers/message-queue-visualizer.tsx:79-81 | the index of the smallest priority number, the earliest one on ties |
| MessageQueue.EnqueueAll | dsa-visualizer/dsa-visualizer/src/components/visualizers/message-queue-visualizer.tsx:63-74 | all messages are enqueued first, one numbered op each, in input order, each recording the queue so far |
| MessageQueue.DrainQueue | dsa-visualizer/dsa-visualizer/src/components/visualizers/message-queue-visualizer.tsx:76-111 | the drain loop produces exactly the drain specification |
| MessageQueue.ProcessMessageQueue | dsa-visualizer/dsa-visualizer/src/components/visualizers/message-queue-visualizer.tsx:56-113 | the operations are the enqueue ops followed by the drain of the waiting messages |
| MessageQueue.SchedulePermutes | dsa-visualizer/dsa-visualizer/src/components/visualizers/message-queue-visualizer.tsx:76-111 | every queued message is dequeued exactly once |
| MessageQueue.ScheduleSorted | dsa-visualizer/dsa-visualizer/src/components/visualizers/message-queue-visualizer.tsx:78-84 | messages leave in order of priority number, smallest first |
| MessageQueue.DrainSteps | dsa-visualizer/dsa-visualizer/src/components/visualizers/message-queue-visualizer.tsx:76-111 | the drain makes two ops per message, numbered consecutively |
| MessageQueue.DrainRound | dsa-visualizer/dsa-visualizer/src/components/visualizers/message-queue-visualizer.tsx:84-108 | the k-th pair dequeues and then processes the k-th scheduled message, and the recorded queue has shrunk by k + 1 |
| MessageQueue.OperationCount | dsa-visualizer/dsa-visualizer/src/components/visualizers/message-queue-visualizer.tsx:56-113 | there are 3n ops, numbered 1, 2, 3, ... without gaps |
| MessageQueue.GetAnimations | dsa-visualizer/dsa-visualizer/src/components/visualizers/message-queue-visualizer.tsx:115-140 | one frame per op, numbered from 0, of the matching kind, and a final 'complete' frame with an empty queue |
| FenwickTreePage.LowBitIsLowestBit | dsa-visualizer/dsa-visualizer/src/app/visualizer/fenwick-tree/page.tsx:123-130 | LowBit(i), the `i & -i` of getParent and getNext, is a power of two of which i is an odd multiple: the lowest set bit |
| FenwickTreePage.GetParent | dsa-visualizer/dsa-visualizer/src/app/visualizer/fenwick-tree/page.tsx:123-125 | getParent moves strictly down, to a non-negative cell |
| FenwickTreePage.GetNext | dsa-visualizer/dsa-visualizer/src/app/visualizer/fenwick-tree/page.tsx:127-130 | getNext moves strictly up |
| FenwickTreePage.NextStep | dsa-visualizer/dsa-visualizer/src/app/visualizer/fenwick-tree/page.tsx:72-81 | from a cell covering a position, getNext reaches the next cell covering it and skips only cells that do not, so an update writes exactly the covering cells |
| Common.SumRangeUpdate | dsa-visualizer/dsa-visualizer/src/app/visualizer/fenwick-tree/page.tsx:83-90 | changing one value changes the sum of every block holding it by the same delta and no other block |
| FenwickTreePage.FenwickTree.constructor | dsa-visualizer/dsa-visualizer/src/app/visualizer/fenwick-tree/page.tsx:42-55 | the tree has n + 1 cells, cell 0 stays 0, and after adding every element in turn each cell holds the sum of its block |
| FenwickTreePage.FenwickTree.UpdateTree | dsa-visualizer/dsa-visualizer/src/app/visualizer/fenwick-tree/page.tsx:72-81 | adding delta at index + 1 and climbing by the lowest bit while inside the tree keeps every block sum right for the array with delta added at index |
| FenwickTreePage.FenwickTree.Update | dsa-visualizer/dsa-visualizer/src/app/visualizer/fenwick-tree/page.tsx:83-90 | the delta is the new value minus arr[index], arr[index] takes the new value, and the tree then sums the updated array |
| FenwickTreePage.FenwickTree.Query | dsa-visualizer/dsa-visualizer/src/app/visualizer/fenwick-tree/page.tsx:92-105 | query(index) returns arr[0] + … + arr[index], and 0 for index -1 |
| FenwickTreePage.FenwickTree.RangeQuery | dsa-visualizer/dsa-visualizer/src/app/visualizer/fenwick-tree/page.tsx:107-121 | rangeQuery(l, r) returns arr[l] + … + arr[r] |
| FenwickTreePage.PerformQuery | dsa-visualizer/dsa-visualizer/src/app/visualizer/fenwick-tree/page.tsx:144-158 | NaN, left < 0, right ≥ n or left > right is ignored; otherwise the range sum of the current array is reported |
| FenwickTreePage.PerformUpdate | dsa-visualizer/dsa-visualizer/src/app/visualizer/fenwick-tree/page.tsx:161-177 | NaN or an index outside the array is ignored; otherwise exactly that cell takes the new value |
| SegmentTreePage.ChildrenInBounds | dsa-visualizer/dsa-visualizer/src/app/visualizer/segment-tree/page.tsx:61-68 | both halves of an inner node, split at floor((start + end) / 2), are non-empty sub-ranges, and every node build, queryRange or updateTree visits has an index below 4n |
| SegmentTreePage.NodeRange | dsa-visualizer/dsa-visualizer/src/app/visualizer/segment-tree/page.tsx:134-146 | getNodeRange gives every node a range inside the global range (empty past a leaf) |
| SegmentTreePage.NodeRangeOfChildren | dsa-visualizer/dsa-visualizer/src/app/visualizer/segment-tree/page.tsx:134-146 | getNodeRange splits a node's range at its mid between its two children, as build does |
| SegmentTreePage.SegmentTree.constructor | dsa-visualizer/dsa-visualizer/src/app/visualizer/segment-tree/page.tsx:55-59 | the tree has 4n cells and, once built from the root over [0, n - 1], every node holds the sum of its range |
| SegmentTreePage.SegmentTree.Build | dsa-visualizer/dsa-visualizer/src/app/visualizer/segment-tree/page.tsx:61-72 | a leaf takes arr[start], an inner node the sum of its two built halves; the whole subtree then holds range sums and no cell outside it changes |
| SegmentTreePage.SegmentTree.Query | dsa-visualizer/dsa-visualizer/src/app/visualizer/segment-tree/page.tsx:148-153 | query(left, right) returns the sum over the part of [left, right] inside the array, which is arr[left] + … + arr[right] for an in-range query |
| SegmentTreePage.SegmentTree.QueryRange | dsa-visualizer/dsa-visualizer/src/app/visualizer/segment-tree/page.tsx:155-171 | a disjoint node gives 0, a covered node its cell and any other the sum of its children, so the result is the sum over the overlap of the node's range and the query |
| SegmentTreePage.SegmentTree.Update | dsa-visualizer/dsa-visualizer/src/app/visualizer/segment-tree/page.tsx:173-178 | arr[index] takes the value and the tree then sums the array with that one cell changed |
| SegmentTreePage.SegmentTree.UpdateTree | dsa-visualizer/dsa-visualizer/src/app/visualizer/segment-tree/page.tsx:180-194 | writing the leaf and re-summing the nodes on its path keeps the whole subtree's range sums right for the updated array, changing no cell outside the subtree |
| SegmentTreePage.Replayed | dsa-visualizer/dsa-visualizer/src/app/visualizer/segment-tree/page.tsx:248-255 | replaying recorded writes changes only the cells they name and keeps the length |
| SegmentTreePage.ReplayAgreeing | dsa-visualizer/dsa-visualizer/src/app/visualizer/segment-tree/page.tsx:248-255 | replaying writes that already agree with the array leaves it unchanged |
| SegmentTreePage.ReconstructTree | dsa-visualizer/dsa-visualizer/src/app/visualizer/segment-tree/page.tsx:244-257 | the rebuilt tree sums the current array with the recorded updates up to the current step replayed in order |
| SegmentTreePage.PerformQuery | dsa-visualizer/dsa-visualizer/src/app/visualizer/segment-tree/page.tsx:208-222 | NaN, left < 0, right ≥ n or left > right is ignored before any tree is built; otherwise the range sum of the replayed array is reported |
| SegmentTreePage.PerformUpdate | dsa-visualizer/dsa-visualizer/src/app/visualizer/segment-tree/page.tsx:225-241 | NaN or an index outside the array is ignored; otherwise the new array is the current one with exactly that cell changed |
| SortingVisualizer.BubbleStep | dsa-visualizer/dsa-visualizer/src/components/visualizers/sorting-visualizer-new.tsx:48-72 | one inner step compares a[j] with a[j+1] and exchanges them when the left is larger, leaving the smaller first and every other cell alone; an exchange record shows two neighbours that were out of order |
| SortingVisualizer.BubblePass | dsa-visualizer/dsa-visualizer/src/components/visualizers/sorting-visualizer-new.tsx:47-73 | after pass i the largest i + 1 elements sit sorted at the end and nothing before them exceeds them |
| SortingVisualizer.BubbleSort | dsa-visualizer/dsa-visualizer/src/components/visualizers/sorting-visualizer-new.tsx:41-77 | the result is a sorted permutation of the input, the records are numbered 1, 2, 3, … with snapshots that are permutations of the input, and every exchange fixes an inversion of neighbours |
| SortingVisualizer.SelectionScan | dsa-visualizer/dsa-visualizer/src/components/visualizers/sorting-visualizer-new.tsx:87-102 | the scan finds the first index of a smallest element of a[i..], logging only comparisons |
| SortingVisualizer.SelectionSwap | dsa-visualizer/dsa-visualizer/src/components/visualizers/sorting-visualizer-new.tsx:104-115 | exchanging a smallest element of the rest into place i extends the sorted prefix, which no later element undercuts |
| SortingVisualizer.SelectionPass | dsa-visualizer/dsa-visualizer/src/components/visualizers/sorting-visualizer-new.tsx:85-116 | a pass extends the sorted, partitioned prefix by one and makes at most one exchange, which brings a smaller element forward |
| SortingVisualizer.SelectionSort | dsa-visualizer/dsa-visualizer/src/components/visualizers/sorting-visualizer-new.tsx:79-119 | a sorted permutation of the input, numbered permutation snapshots, at most n - 1 exchanges, and no records for an empty array |
| SortingVisualizer.SortedFromPrefix | dsa-visualizer/dsa-visualizer/src/components/visualizers/sorting-visualizer-new.tsx:85 | the outer loop can stop one short: a sorted, partitioned prefix of n - 1 elements makes the whole array sorted |
| SortingVisualizer.InsertionStep | dsa-visualizer/dsa-visualizer/src/components/visualizers/sorting-visualizer-new.tsx:127-152 | a step compares a[j-1] and a[j], exchanging them when the left is larger; when it stops, a[..i+1] is sorted |
| SortingVisualizer.InsertionPass | dsa-visualizer/dsa-visualizer/src/components/visualizers/sorting-visualizer-new.tsx:126-153 | a pass moves a[i] left while its neighbour is larger, making a[..i+1] sorted |
| SortingVisualizer.InsertionSort | dsa-visualizer/dsa-visualizer/src/components/visualizers/sorting-visualizer-new.tsx:121-159 | a sorted permutation of the input, with numbered permutation snapshots and exchanges that each fix an inversion of neighbours |
| SortingVisualizer.Partition | dsa-visualizer/dsa-visualizer/src/components/visualizers/sorting-visualizer-new.tsx:167-211 | Lomuto partition around a[high]: the pivot lands at the returned index p in [low, high], everything before it in the range is at most it, everything after it exceeds it, and nothing outside [low, high] changes |
| SortingVisualizer.PartitionStep | dsa-visualizer/dsa-visualizer/src/components/visualizers/sorting-visualizer-new.tsx:171-197 | a[j] no larger than the pivot is swapped to the end of the low part, keeping the partition shape |
| SortingVisualizer.PivotPlaced | dsa-visualizer/dsa-visualizer/src/components/visualizers/sorting-visualizer-new.tsx:199-210 | swapping the pivot into place i + 1 finishes the partition |
| SortingVisualizer.QuickSortHelper | dsa-visualizer/dsa-visualizer/src/components/visualizers/sorting-visualizer-new.tsx:213-219 | quickSortHelper(low, high) sorts a[low..high] in place, permuting it and leaving the rest alone |
| SortingVisualizer.QuickLevel | dsa-visualizer/dsa-visualizer/src/components/visualizers/sorting-visualizer-new.tsx:215-218 | a partition followed by sorting both sides sorts the whole range |
| SortingVisualizer.QuickSort | dsa-visualizer/dsa-visualizer/src/components/visualizers/sorting-visualizer-new.tsx:161-223 | a sorted permutation of the input, with numbered permutation snapshots |
| SortingVisualizer.HalvingsShape | dsa-visualizer/dsa-visualizer/src/components/visualizers/sorting-visualizer-new.tsx:292-330 | the gaps start at floor(n / 2), halve each time and end at 1 |
| SortingVisualizer.ShellShift | dsa-visualizer/dsa-visualizer/src/components/visualizers/sorting-visualizer-new.tsx:299-324 | an element gap places left of the hole that exceeds temp moves into the hole, which moves gap places left |
| SortingVisualizer.ShellInsert | dsa-visualizer/dsa-visualizer/src/components/visualizers/sorting-visualizer-new.tsx:295-329 | gapped insertion of a[i] makes elements gap apart in order up to i, permuting the array |
| SortingVisualizer.ShellPass | dsa-visualizer/dsa-visualizer/src/components/visualizers/sorting-visualizer-new.tsx:295-329 | after one pass with a fixed gap the whole array is gap-sorted |
| SortingVisualizer.ShellSort | dsa-visualizer/dsa-visualizer/src/components/visualizers/sorting-visualizer-new.tsx:286-334 | a sorted permutation of the input; every record compares or moves two cells one of the gaps apart |
| SortingVisualizer.TimInsertOne | dsa-visualizer/dsa-visualizer/src/components/visualizers/sorting-visualizer-new.tsx:344-376 | key = a[i] is inserted into the sorted a[left..i] by shifting larger elements one place right, sorting a[left..i+1] |
| SortingVisualizer.TimInsertionRun | dsa-visualizer/dsa-visualizer/src/components/visualizers/sorting-visualizer-new.tsx:343-377 | insertionSortHelper(left, right) sorts a[left..right] in place, permuting only that range |
| SortingVisualizer.TimMerge | dsa-visualizer/dsa-visualizer/src/components/visualizers/sorting-visualizer-new.tsx:379-425 | merge(left, mid, right) writes the stable merge of the two slices over a[left..right] and nothing else |
| SortingVisualizer.MergeOfRuns | dsa-visualizer/dsa-visualizer/src/components/visualizers/sorting-visualizer-new.tsx:379-425 | the merge of two neighbouring sorted runs is a sorted permutation of them |
| SortingVisualizer.TimRuns | dsa-visualizer/dsa-visualizer/src/components/visualizers/sorting-visualizer-new.tsx:430-432 | after the first loop every run of 32 elements starting at a multiple of 32 is sorted |
| SortingVisualizer.TimMergeStep | dsa-visualizer/dsa-visualizer/src/components/visualizers/sorting-visualizer-new.tsx:437-442 | the run at start is merged with the run after it when there is one (mid < end), moving the boundary of merged runs on by 2 size |
| SortingVisualizer.TimMergePass | dsa-visualizer/dsa-visualizer/src/components/visualizers/sorting-visualizer-new.tsx:437-443 | one pass turns sorted runs of size elements into sorted runs of 2 size elements |
| SortingVisualizer.TimSort | dsa-visualizer/dsa-visualizer/src/components/visualizers/sorting-visualizer-new.tsx:336-448 | a sorted permutation of the input, with numbered records |
| MergeSortVisualizer.MergeSortSpecPermutes | dsa-visualizer/dsa-visualizer/src/components/visualizers/merge-sort-visualizer.tsx:93-118 | top-down merge sort, split at floor((start + end) / 2), returns a permutation of its input |
| MergeSortVisualizer.MergeSortSpecSorted | dsa-visualizer/dsa-visualizer/src/components/visualizers/merge-sort-visualizer.tsx:93-118 | top-down merge sort returns a sorted sequence |
| MergeSortVisualizer.SpecSplit | dsa-visualizer/dsa-visualizer/src/components/visualizers/merge-sort-visualizer.tsx:103-117 | the sort of a range is the merge of the sorts of its two halves |
| MergeSortVisualizer.DoMerge | dsa-visualizer/dsa-visualizer/src/components/visualizers/merge-sort-visualizer.tsx:120-197 | doMerge writes into main[start..end] the stable merge of aux's two halves, leaves every other cell alone and emits one 'place' animation per element |
| MergeSortVisualizer.LevelSorts | dsa-visualizer/dsa-visualizer/src/components/visualizers/merge-sort-visualizer.tsx:100-118 | one level of mergeSortHelper, with the roles of the two arrays swapped in the recursive calls, sorts the range |
| MergeSortVisualizer.MergeSortHelper | dsa-visualizer/dsa-visualizer/src/components/visualizers/merge-sort-visualizer.tsx:93-118 | mergeSortHelper(main, start, end, aux) leaves main[start..end] equal to the merge sort of the range, changing no cell outside it in either array |
| MergeSortVisualizer.GetMergeSortAnimations | dsa-visualizer/dsa-visualizer/src/components/visualizers/merge-sort-visualizer.tsx:77-91 | the array ends up as its merge sort, a sorted permutation of the input, and the last animation is 'complete' over every index |
| MergeSortVisualizer.PushStep | dsa-visualizer/dsa-visualizer/src/components/visualizers/merge-sort-visualizer.tsx:293-299 | each pushed step is numbered by its position and shows the array |
| MergeSortVisualizer.BuildSteps | dsa-visualizer/dsa-visualizer/src/components/visualizers/merge-sort-visualizer.tsx:287-313 | a range of n > 1 elements adds n - 1 divide steps and n - 1 merge steps, all highlighting a range; a shorter range adds none |
| MergeSortVisualizer.GenerateTreeBuildSteps | dsa-visualizer/dsa-visualizer/src/components/visualizers/merge-sort-visualizer.tsx:283-322 | the steps are numbered from 0, with as many divide as merge steps, and end with the single 'complete' step without a range |
| MergeSortVisualizer.GenerateTreeFromSteps | dsa-visualizer/dsa-visualizer/src/components/visualizers/merge-sort-visualizer.tsx:328-374 | an index outside the steps gives no nodes; otherwise one node per array cell with its value, active exactly when it lies in the highlighted range, and no edges ever |
| HeapSortVisualizer.PickLargest | dsa-visualizer/dsa-visualizer/src/components/visualizers/heap-sort-visualizer.tsx:107-131 | largest is i or a child of i inside the heap that strictly beats it, and no child inside the heap exceeds it (ties keep the earlier candidate) |
| HeapSortVisualizer.SiftStep | dsa-visualizer/dsa-visualizer/src/components/visualizers/heap-sort-visualizer.tsx:134-142 | exchanging i with its larger child, which beats it, moves the only possible heap violation down to that child |
| HeapSortVisualizer.SiftDone | dsa-visualizer/dsa-visualizer/src/components/visualizers/heap-sort-visualizer.tsx:133 | a node at least as large as its children closes the only violation, so the heap holds |
| HeapSortVisualizer.Heapify | dsa-visualizer/dsa-visualizer/src/components/visualizers/heap-sort-visualizer.tsx:106-145 | heapify(arr, n, i) on a heap broken at most at i leaves a[..n] a max-heap, permutes only a[i..n) and marks nothing sorted |
| HeapSortVisualizer.HeapRootMax | dsa-visualizer/dsa-visualizer/src/components/visualizers/heap-sort-visualizer.tsx:65-104 | the root of a max-heap is at least every element of the heap |
| HeapSortVisualizer.BuildMaxHeap | dsa-visualizer/dsa-visualizer/src/components/visualizers/heap-sort-visualizer.tsx:70-73 | heapifying from floor(n / 2) - 1 down to 0 builds a max-heap, permuting the array |
| HeapSortVisualizer.ExtractSwap | dsa-visualizer/dsa-visualizer/src/components/visualizers/heap-sort-visualizer.tsx:78-79 | exchanging the root with a[i] puts the heap's maximum at the front of the sorted tail |
| HeapSortVisualizer.ExtractMax | dsa-visualizer/dsa-visualizer/src/components/visualizers/heap-sort-visualizer.tsx:76-91 | one iteration moves the root to i, marks i sorted and repairs the heap on a[..i], keeping the sorted tail bounded below by the heap |
| HeapSortVisualizer.ExtractDone | dsa-visualizer/dsa-visualizer/src/components/visualizers/heap-sort-visualizer.tsx:76 | when the loop ends at i = 0 the array is sorted |
| HeapSortVisualizer.GetHeapSortAnimations | dsa-visualizer/dsa-visualizer/src/components/visualizers/heap-sort-visualizer.tsx:65-104 | the array ends sorted and a permutation of the input; the sorted marks are n - 1, n - 2, …, 0 in that order (just 0 for an empty array) |
| HeapSortVisualizer.GenerateHeapTree | dsa-visualizer/dsa-visualizer/src/components/visualizers/heap-sort-visualizer.tsx:216-300 | one node per cell with its value, highlighted and sorted flags; an edge from each parent to each child inside the array, n - 1 of them, the k-th leading to cell k + 1 from floor(k / 2) |
| HeapDataStructure.Parent | dsa-visualizer/dsa-visualizer/src/components/visualizers/heap-data-structure-visualizer.tsx:43-45 | parent(i) is the index whose left or right child is i, below i, and -1 for the root |
| HeapDataStructure.CompareStrictOrder | dsa-visualizer/dsa-visualizer/src/components/visualizers/heap-data-structure-visualizer.tsx:47-49 | compare is a strict order (irreflexive, asymmetric, transitive) that is total on distinct values, for both heap types |
| HeapDataStructure.RootIsBest | dsa-visualizer/dsa-visualizer/src/components/visualizers/heap-data-structure-visualizer.tsx:31-49 | in an ordered heap no element beats the root |
| HeapDataStructure.UpStep | dsa-visualizer/dsa-visualizer/src/components/visualizers/heap-data-structure-visualizer.tsx:60-90 | exchanging a node with the parent it beats moves the only violation up to the parent |
| HeapDataStructure.UpDone | dsa-visualizer/dsa-visualizer/src/components/visualizers/heap-data-structure-visualizer.tsx:60-90 | a node that does not beat its parent closes the only violation |
| HeapDataStructure.HeapifyUp | dsa-visualizer/dsa-visualizer/src/components/visualizers/heap-data-structure-visualizer.tsx:56-91 | heapifyUp permutes the array, and a heap broken only at index (as after appending) ends ordered |
| HeapDataStructure.PickTarget | dsa-visualizer/dsa-visualizer/src/components/visualizers/heap-data-structure-visualizer.tsx:99-129 | the target is the node or one of its children inside the heap that beats it, and no child beats the target (left child first, ties keep the earlier candidate) |
| HeapDataStructure.DownStep | dsa-visualizer/dsa-visualizer/src/components/visualizers/heap-data-structure-visualizer.tsx:131-148 | exchanging a node with its best child, which beats it, moves the only violation down to that child |
| HeapDataStructure.HeapifyDown | dsa-visualizer/dsa-visualizer/src/components/visualizers/heap-data-structure-visualizer.tsx:93-152 | heapifyDown permutes the array, and a heap whose only violation lies below index ends ordered |
| HeapDataStructure.AppendShape | dsa-visualizer/dsa-visualizer/src/components/visualizers/heap-data-structure-visualizer.tsx:158-170 | appending to an ordered heap leaves only the new element out of place |
| HeapDataStructure.ReplaceByLast | dsa-visualizer/dsa-visualizer/src/components/visualizers/heap-data-structure-visualizer.tsx:256-259 | moving the last element into cell i removes exactly the element at i |
| HeapDataStructure.ReplaceShape | dsa-visualizer/dsa-visualizer/src/components/visualizers/heap-data-structure-visualizer.tsx:256-276 | after the replacement either the new element beats its parent and only it is out of place upwards, or the only violation lies below it |
| HeapDataStructure.ReplaceAndRepair | dsa-visualizer/dsa-visualizer/src/components/visualizers/heap-data-structure-visualizer.tsx:255-277 | deleting cell i by the last element and moving it up or down removes exactly that element and keeps an ordered heap ordered |
| HeapDataStructure.HeapVisualizer.constructor | dsa-visualizer/dsa-visualizer/src/components/visualizers/heap-data-structure-visualizer.tsx:31-38 | the heap starts empty, as a min-heap |
| HeapDataStructure.HeapVisualizer.SetHeapType | dsa-visualizer/dsa-visualizer/src/components/visualizers/heap-data-structure-visualizer.tsx:31-49 | changing the heap type keeps the array |
| HeapDataStructure.HeapVisualizer.Insert | dsa-visualizer/dsa-visualizer/src/components/visualizers/heap-data-structure-visualizer.tsx:154-175 | the value is added (one more element, the old ones kept) and an ordered heap stays ordered |
| HeapDataStructure.HeapVisualizer.ExtractRoot | dsa-visualizer/dsa-visualizer/src/components/visualizers/heap-data-structure-visualizer.tsx:177-217 | an empty heap is left alone; otherwise the root is returned and removed, exactly, and an ordered heap stays ordered |
| HeapDataStructure.HeapVisualizer.Delete | dsa-visualizer/dsa-visualizer/src/components/visualizers/heap-data-structure-visualizer.tsx:219-281 | a value not in the heap changes nothing; otherwise exactly one copy of it is removed and an ordered heap stays ordered |
| HeapDataStructure.HeapVisualizer.Find | dsa-visualizer/dsa-visualizer/src/components/visualizers/heap-data-structure-visualizer.tsx:283-306 | the index shown is -1 exactly when the value is absent, and otherwise its first occurrence |
| HeapDataStructure.HeapVisualizer.InsertText | dsa-visualizer/dsa-visualizer/src/components/visualizers/heap-data-structure-visualizer.tsx:154-175 | text that parseInt reads as NaN leaves the heap unchanged; otherwise the number read is added and an ordered heap stays ordered |
| HeapDataStructure.HeapVisualizer.DeleteText | dsa-visualizer/dsa-visualizer/src/components/visualizers/heap-data-structure-visualizer.tsx:219-281 | text read as NaN changes nothing and finds nothing; otherwise one copy of the number read is removed exactly when it is present |
| HeapDataStructure.HeapVisualizer.FindText | dsa-visualizer/dsa-visualizer/src/components/visualizers/heap-data-structure-visualizer.tsx:283-306 | text read as NaN shows nothing; otherwise the index shown is -1 exactly when the number read is absent, and otherwise its first occurrence |
| HeapDataStructure.HeapVisualizer.Clear | dsa-visualizer/dsa-visualizer/src/components/visualizers/heap-data-structure-visualizer.tsx:339-347 | the heap is emptied |
| HeapDataStructure.HeapVisualizer.BuildFrom | dsa-visualizer/dsa-visualizer/src/components/visualizers/heap-data-structure-visualizer.tsx:349-368 | pushing each value and moving it up gives an ordered heap of exactly those values |
| StringMatching.ComputeLps | dsa-visualizer/dsa-visualizer/src/components/visualizers/string-matching-visualizer.tsx:94-114 | lps[i] is the length of the longest proper border of pattern[..i+1] (the same loop as buildLPS at dsa-visualizer/dsa-visualizer/src/app/visualizer/string-algorithms/page.tsx:49-78) |
| StringMatching.LpsExtend | dsa-visualizer/dsa-visualizer/src/components/visualizers/string-matching-visualizer.tsx:100-104 | when pattern[i] equals pattern[len], the border grows by one and is the longest |
| StringMatching.LpsFallback | dsa-visualizer/dsa-visualizer/src/components/visualizers/string-matching-visualizer.tsx:105-107 | on a mismatch len falls back to lps[len - 1] without skipping any candidate border |
| StringMatching.KmpFound | dsa-visualizer/dsa-visualizer/src/components/visualizers/string-matching-visualizer.tsx:142-158 | after a full match at i - m, the match is recorded and the search resumes at lps[m - 1] without missing an overlapping occurrence |
| StringMatching.KmpFallback | dsa-visualizer/dsa-visualizer/src/components/visualizers/string-matching-visualizer.tsx:170-183 | on a mismatch, falling back to lps[j - 1] misses no occurrence |
| StringMatching.KmpDone | dsa-visualizer/dsa-visualizer/src/components/visualizers/string-matching-visualizer.tsx:125-187 | when the text is used up, the recorded matches are exactly the occurrences, in increasing order |
| StringMatching.LastBelow | dsa-visualizer/dsa-visualizer/src/components/visualizers/string-matching-visualizer.tsx:193-201 | the last index below h holding c, or -1 when there is none |
| StringMatching.BadCharTable | dsa-visualizer/dsa-visualizer/src/components/visualizers/string-matching-visualizer.tsx:193-201 | the table holds exactly the pattern's characters, each mapped to its last index |
| StringMatching.Shift | dsa-visualizer/dsa-visualizer/src/components/visualizers/string-matching-visualizer.tsx:257-258 | every shift rule moves the pattern by at least 1 and at most j + 1 |
| StringMatching.MismatchAt | dsa-visualizer/dsa-visualizer/src/components/visualizers/string-matching-visualizer.tsx:216-219 | the right-to-left scan stops at the last mismatching index, -1 when every character matches |
| StringMatching.BoyerMooreRunSound | dsa-visualizer/dsa-visualizer/src/components/visualizers/string-matching-visualizer.tsx:211-275 | every alignment the Boyer-Moore loop reports, under any shift rule, is an occurrence, and they come in increasing order |
| StringMatching.BoyerMooreRunComplete | dsa-visualizer/dsa-visualizer/src/components/visualizers/string-matching-visualizer.tsx:211-275 | with the last-occurrence shift, max(1, j - last), no occurrence is skipped |
| StringMatching.LastOccurrenceRunExact | dsa-visualizer/dsa-visualizer/src/components/visualizers/string-matching-visualizer.tsx:211-275 | with the last-occurrence shift the loop reports exactly the occurrences |
| StringMatching.BoyerMooreSearch | dsa-visualizer/dsa-visualizer/src/components/visualizers/string-matching-visualizer.tsx:204-276 | the corrected bad-character search: it reports exactly the occurrences, in increasing order |
| StringAlgorithmsPage.KmpSearch | dsa-visualizer/dsa-visualizer/src/app/visualizer/string-algorithms/page.tsx:41-173 | kmpSearch reports exactly the occurrences of the pattern, in increasing order |
| StringAlgorithmsPage.MatchLength | dsa-visualizer/dsa-visualizer/src/app/visualizer/string-algorithms/page.tsx:362-376 | the inner loop stops at m exactly when the pattern occurs at i |
| StringAlgorithmsPage.NaiveSearch | dsa-visualizer/dsa-visualizer/src/app/visualizer/string-algorithms/page.tsx:327-430 | naiveSearch reports exactly the occurrences, in increasing order |
| StringAlgorithmsPage.BuildBadCharTable | dsa-visualizer/dsa-visualizer/src/app/visualizer/string-algorithms/page.tsx:184-211 | a character among the first m - 1 has shift m - 1 minus its last index there, every character below code 256 has an entry, and any other entry is m |
| StringAlgorithmsPage.PageShift | dsa-visualizer/dsa-visualizer/src/app/visualizer/string-algorithms/page.tsx:288-289 | the page's shift max(1, j - (badChar[c] \|\| m)) as a shift rule |
| StringAlgorithmsPage.BoyerMooreSearch | dsa-visualizer/dsa-visualizer/src/app/visualizer/string-algorithms/page.tsx:176-324 | the page's Boyer-Moore reports only occurrences, in increasing order, and is exactly the run of its shift rule |
| StringAlgorithmsPage.HorspoolTableRuleSkips | dsa-visualizer/dsa-visualizer/src/app/visualizer/string-algorithms/page.tsx:288-289 | the page's shift skips an occurrence: on text AAAAAB and pattern AAAAB nothing is reported although the pattern occurs at 1 |
| StringAlgorithmsPage.JsRemRepair | dsa-visualizer/dsa-visualizer/src/app/visualizer/string-algorithms/page.tsx:537-541 | JavaScript's % can be negative here, and adding 101 to a negative remainder gives the true residue |
| StringAlgorithmsPage.PrefixHash | dsa-visualizer/dsa-visualizer/src/app/visualizer/string-algorithms/page.tsx:453-456 | the initial loop computes the hash of the first m characters, base 256 modulo 101 |
| StringAlgorithmsPage.NextHash | dsa-visualizer/dsa-visualizer/src/app/visualizer/string-algorithms/page.tsx:536-543 | the rolling update gives the hash of the next window, in [0, 101) |
| StringAlgorithmsPage.CheckWindow | dsa-visualizer/dsa-visualizer/src/app/visualizer/string-algorithms/page.tsx:495-533 | a window whose hash matches is reported only when the characters match |
| StringAlgorithmsPage.RabinKarpSearch | dsa-visualizer/dsa-visualizer/src/app/visualizer/string-algorithms/page.tsx:433-563 | rabinKarpSearch reports exactly the occurrences, in increasing order |
| StringMatchingVisualizer.KmpSearch | dsa-visualizer/dsa-visualizer/src/components/visualizers/string-matching-visualizer.tsx:117-190 | the visualizer's kmpSearch reports exactly the occurrences, in increasing order |
| StringMatchingVisualizer.FalsyZeroShift | dsa-visualizer/dsa-visualizer/src/components/visualizers/string-matching-visualizer.tsx:257-258 | the visualizer's shift, in which a last index of 0 counts as absent (0 \|\| -1 is -1) |
| StringMatchingVisualizer.BoyerMooreSearch | dsa-visualizer/dsa-visualizer/src/components/visualizers/string-matching-visualizer.tsx:204-276 | the visualizer's Boyer-Moore reports only occurrences, in increasing order, and is exactly the run of its shift rule |
| StringMatchingVisualizer.FalsyZeroRuleSkips | dsa-visualizer/dsa-visualizer/src/components/visualizers/string-matching-visualizer.tsx:257-258 | the falsy-zero shift skips an occurrence: on text AAB and pattern AB nothing is reported although the pattern occurs at 1 |
| ZAlgorithmPage.ZIsLongest | dsa-visualizer/dsa-visualizer/src/app/visualizer/z-algorithm/page.tsx:79-81 | a Z value is the longest prefix match at its index: any prefix match there is at most as long |
| ZAlgorithmPage.ZUnique | dsa-visualizer/dsa-visualizer/src/app/visualizer/z-algorithm/page.tsx:79-81 | the Z value at an index is uniquely determined |
| ZAlgorithmPage.MirrorStart | dsa-visualizer/dsa-visualizer/src/app/visualizer/z-algorithm/page.tsx:67-69 | inside the Z-box, min(right - i + 1, Z[mirror]) characters at i already repeat the prefix, so the extension may start there |
| ZAlgorithmPage.NextBox | dsa-visualizer/dsa-visualizer/src/app/visualizer/z-algorithm/page.tsx:91-99 | the updated box still repeats the prefix; right becomes max(right, i + Z[i] - 1), and left moves to i exactly when right grows |
| ZAlgorithmPage.HitsSpec | dsa-visualizer/dsa-visualizer/src/app/visualizer/z-algorithm/page.tsx:110-124 | the reported positions are ascending, and x is reported exactly when Z at x + m + 1 equals the pattern length m |
| ZAlgorithmPage.CombinedLayout | dsa-visualizer/dsa-visualizer/src/app/visualizer/z-algorithm/page.tsx:44 | the combined string is the pattern, then '$', then the text |
| ZAlgorithmPage.ZValueSound | dsa-visualizer/dsa-visualizer/src/app/visualizer/z-algorithm/page.tsx:114-119 | a Z value equal to the pattern length at a text index means the pattern occurs there |
| ZAlgorithmPage.ZValueComplete | dsa-visualizer/dsa-visualizer/src/app/visualizer/z-algorithm/page.tsx:114-119 | when the text holds no '$', every occurrence gives a Z value of exactly the pattern length |
| ZAlgorithmPage.ZValueOccurs | dsa-visualizer/dsa-visualizer/src/app/visualizer/z-algorithm/page.tsx:110-124 | per text index, both directions of the Z value / occurrence correspondence |
| ZAlgorithmPage.ZMatches | dsa-visualizer/dsa-visualizer/src/app/visualizer/z-algorithm/page.tsx:110-124 | the positions read off a Z array are ascending real occurrences, and all of them when the text has no '$' and the pattern is not empty |
| ZAlgorithmPage.SeparatorInTextHidesMatch | dsa-visualizer/dsa-visualizer/src/app/visualizer/z-algorithm/page.tsx:44-116 | for text "a$" and pattern "a" the occurrence at 0 is not reported, because the separator in the text extends the Z value past the pattern |
| ZAlgorithmPage.ZAlgorithm.constructor | dsa-visualizer/dsa-visualizer/src/app/visualizer/z-algorithm/page.tsx:41-47 | the combined string is pattern + '$' + text and the Z array is complete |
| ZAlgorithmPage.ZAlgorithm.RunZAlgorithm | dsa-visualizer/dsa-visualizer/src/app/visualizer/z-algorithm/page.tsx:49-100 | starting from zeros, every entry from index 1 on becomes the Z value of the combined string, with Z[0] = 0 |
| ZAlgorithmPage.ExtendZ | dsa-visualizer/dsa-visualizer/src/app/visualizer/z-algorithm/page.tsx:66-81 | one entry: the mirror start inside the box, then the extension, leaves the other entries alone and makes this one the Z value |
| ZAlgorithmPage.ZAlgorithm.FindMatches | dsa-visualizer/dsa-visualizer/src/app/visualizer/z-algorithm/page.tsx:110-124 | the reported positions are ascending real occurrences, and every occurrence when the text has no '$' and the pattern is not empty |
| ManacherPage.Join | dsa-visualizer/dsa-visualizer/src/app/visualizer/manacher/page.tsx:47 | split-then-join puts the text's characters at the even places and '#' at the odd places, 2n - 1 long (empty for the empty text) |
| ManacherPage.PreprocessLayout | dsa-visualizer/dsa-visualizer/src/app/visualizer/manacher/page.tsx:45-60 | the padded text has '#' at every even place and the text's characters at the odd ones, length 2n + 1; the empty text pads to "##" |
| ManacherPage.StripPreprocess | dsa-visualizer/dsa-visualizer/src/app/visualizer/manacher/page.tsx:45-60 | removing the padding gives back the text |
| ManacherPage.RadiusIsLongest | dsa-visualizer/dsa-visualizer/src/app/visualizer/manacher/page.tsx:87-94 | the radius the expansion stops at is the longest palindrome radius at its centre |
| ManacherPage.MirrorStart | dsa-visualizer/dsa-visualizer/src/app/visualizer/manacher/page.tsx:68-73 | inside the right bound, min(rightBound - i, P[2·center - i]) is a palindrome radius at i, so the expansion may start there |
| ManacherPage.NextBound | dsa-visualizer/dsa-visualizer/src/app/visualizer/manacher/page.tsx:108-122 | the new right bound is max(rightBound, i + P[i]), the centre moves to i exactly when it grows, and the pair still spans a palindrome |
| ManacherPage.ExpandAt | dsa-visualizer/dsa-visualizer/src/app/visualizer/manacher/page.tsx:68-94 | one centre: mirror start, then expansion, leaves the other entries alone and makes this one the maximal radius |
| ManacherPage.ManacherAlgorithm.constructor | dsa-visualizer/dsa-visualizer/src/app/visualizer/manacher/page.tsx:38-43 | the padded text is stored and every radius is the maximal one at its centre |
| ManacherPage.ManacherAlgorithm.RunManacher | dsa-visualizer/dsa-visualizer/src/app/visualizer/manacher/page.tsx:62-134 | from all zeros, the centre/right-bound loop leaves every entry the maximal palindrome radius at its centre |
| ManacherPage.Convert | dsa-visualizer/dsa-visualizer/src/app/visualizer/manacher/page.tsx:140-153 | a converted palindrome, when kept, lies within the text and its text is the substring from start to end |
| ManacherPage.RawMember | dsa-visualizer/dsa-visualizer/src/app/visualizer/manacher/page.tsx:139-155 | every centre whose conversion is kept contributes its palindrome to the collected list |
| ManacherPage.RawOrigin | dsa-visualizer/dsa-visualizer/src/app/visualizer/manacher/page.tsx:139-155 | every collected palindrome comes from the conversion of some centre |
| ManacherPage.CollectPalindromes | dsa-visualizer/dsa-visualizer/src/app/visualizer/manacher/page.tsx:137-155 | the loop collects the kept conversions in centre order |
| ManacherPage.UniqueSpec | dsa-visualizer/dsa-visualizer/src/app/visualizer/manacher/page.tsx:158-160 | the first-occurrence filter keeps only collected entries, loses no (start, end) pair and leaves each pair once |
| ManacherPage.InsertByLengthSorted | dsa-visualizer/dsa-visualizer/src/app/visualizer/manacher/page.tsx:162 | inserting into a longest-first list keeps it longest first |
| ManacherPage.InsertByLengthPermutes | dsa-visualizer/dsa-visualizer/src/app/visualizer/manacher/page.tsx:162 | inserting adds exactly the one element |
| ManacherPage.SortByLengthSorted | dsa-visualizer/dsa-visualizer/src/app/visualizer/manacher/page.tsx:162 | sorting by length, descending, gives a longest-first permutation |
| ManacherPage.PermutedDistinctKeys | dsa-visualizer/dsa-visualizer/src/app/visualizer/manacher/page.tsx:158-162 | sorting keeps the (start, end) pairs distinct |
| ManacherPage.ExtractedShape | dsa-visualizer/dsa-visualizer/src/app/visualizer/manacher/page.tsx:136-163 | extraction gives distinct, in-bounds (start, end) pairs, longest first, covering every collected pair |
| ManacherPage.ManacherAlgorithm.ExtractPalindromes | dsa-visualizer/dsa-visualizer/src/app/visualizer/manacher/page.tsx:136-163 | the result is unique in-bounds (start, end) pairs sorted longest first, each with its substring of the text |
| ManacherPage.ManacherAlgorithm.GetLongestPalindrome | dsa-visualizer/dsa-visualizer/src/app/visualizer/manacher/page.tsx:195-198 | the first extracted palindrome's text, or "" when there is none; always a substring of the text |
| ManacherPage.RadiusParity | dsa-visualizer/dsa-visualizer/src/app/visualizer/manacher/page.tsx:87-94 | on the padded text, a maximal radius reaches back to a '#' place |
| ManacherPage.MirrorText | dsa-visualizer/dsa-visualizer/src/app/visualizer/manacher/page.tsx:45-94 | a padded palindrome of radius r ending on '#' places is a palindrome of length r in the text |
| ManacherPage.RadiusGivesPalindrome | dsa-visualizer/dsa-visualizer/src/app/visualizer/manacher/page.tsx:140-153 | with the corrected conversion, a maximal radius r gives a palindromic substring of length r |
| ManacherPage.PalindromeGivesRadius | dsa-visualizer/dsa-visualizer/src/app/visualizer/manacher/page.tsx:87-94 | every palindromic substring t[a..b] gives a padded palindrome of radius b - a at centre a + b |
| ManacherPage.CorrectedSound | dsa-visualizer/dsa-visualizer/src/app/visualizer/manacher/page.tsx:136-155 | with the corrected conversion every collected entry is an in-bounds palindrome |
| ManacherPage.CorrectedCovers | dsa-visualizer/dsa-visualizer/src/app/visualizer/manacher/page.tsx:136-155 | with the corrected conversion every palindromic substring is matched by a collected entry at least as long |
| ManacherPage.LongestCovers | dsa-visualizer/dsa-visualizer/src/app/visualizer/manacher/page.tsx:157-198 | the head of a longest-first list with the same pairs is at least as long as every collected entry |
| ManacherPage.CorrectedLongest | dsa-visualizer/dsa-visualizer/src/app/visualizer/manacher/page.tsx:195-198 | with the corrected conversion the reported text is a palindromic substring at least as long as every palindromic substring |
| ManacherPage.ManacherAlgorithm.GetLongestPalindromeCorrected | dsa-visualizer/dsa-visualizer/src/app/visualizer/manacher/page.tsx:195-198 | the corrected method returns a longest palindromic substring of the text |
| ManacherPage.EvenCentreMisreported | dsa-visualizer/dsa-visualizer/src/app/visualizer/manacher/page.tsx:141-147 | for "abba" the page's conversion of the even centre reports "bba", which is not a palindrome |
| ManacherPage.AbbaRadii | dsa-visualizer/dsa-visualizer/src/app/visualizer/manacher/page.tsx:62-134 | the radius array of "#a#b#b#a#" is 0,1,0,1,4,1,0,1,0 |
| SuffixArrayPage.LessIrreflexive | dsa-visualizer/dsa-visualizer/src/app/visualizer/suffix-array/page.tsx:59 | JavaScript string comparison is irreflexive |
| SuffixArrayPage.LessAsymmetric | dsa-visualizer/dsa-visualizer/src/app/visualizer/suffix-array/page.tsx:59 | JavaScript string comparison is asymmetric |
| SuffixArrayPage.LessTransitive | dsa-visualizer/dsa-visualizer/src/app/visualizer/suffix-array/page.tsx:59 | JavaScript string comparison is transitive |
| SuffixArrayPage.LessTotal | dsa-visualizer/dsa-visualizer/src/app/visualizer/suffix-array/page.tsx:59 | any two different strings are ordered one way or the other |
| SuffixArrayPage.LeqTransitive | dsa-visualizer/dsa-visualizer/src/app/visualizer/suffix-array/page.tsx:59 | the non-strict order is transitive |
| SuffixArrayPage.PrefixNotAbove | dsa-visualizer/dsa-visualizer/src/app/visualizer/suffix-array/page.tsx:140-143 | a string is never below one of its prefixes |
| SuffixArrayPage.BelowPrefixed | dsa-visualizer/dsa-visualizer/src/app/visualizer/suffix-array/page.tsx:143-146 | a string below one that starts with p, and not itself starting with p, is below p |
| SuffixArrayPage.RankOrder | dsa-visualizer/dsa-visualizer/src/app/visualizer/suffix-array/page.tsx:39-74 | in a suffix array, rank order is suffix order: the suffix at p is below the one at q exactly when p < q |
| SuffixArrayPage.SuffixArrayDistinct | dsa-visualizer/dsa-visualizer/src/app/visualizer/suffix-array/page.tsx:73 | a suffix array lists every start index once |
| SuffixArrayPage.AllSuffixes | dsa-visualizer/dsa-visualizer/src/app/visualizer/suffix-array/page.tsx:43-49 | suffix i is t[i..] with index i, for every i |
| SuffixArrayPage.Indices | dsa-visualizer/dsa-visualizer/src/app/visualizer/suffix-array/page.tsx:73 | the suffix array is the list of indices in sorted order |
| SuffixArrayPage.ExchangedKeeps | dsa-visualizer/dsa-visualizer/src/app/visualizer/suffix-array/page.tsx:58-69 | one compare-and-swap keeps the multiset, carries the largest seen so far one place up, and leaves the sorted tail alone |
| SuffixArrayPage.PassDone | dsa-visualizer/dsa-visualizer/src/app/visualizer/suffix-array/page.tsx:57-71 | after a pass the sorted tail is one longer |
| SuffixArrayPage.CompareExchange | dsa-visualizer/dsa-visualizer/src/app/visualizer/suffix-array/page.tsx:59-60 | swaps two neighbours exactly when the left suffix is greater |
| SuffixArrayPage.SuffixPass | dsa-visualizer/dsa-visualizer/src/app/visualizer/suffix-array/page.tsx:58-70 | one inner pass keeps the multiset and grows the sorted tail by one |
| SuffixArrayPage.SortSuffixes | dsa-visualizer/dsa-visualizer/src/app/visualizer/suffix-array/page.tsx:54-71 | bubble sort leaves a sorted permutation of the suffixes |
| SuffixArrayPage.SortedSuffixesGiveSuffixArray | dsa-visualizer/dsa-visualizer/src/app/visualizer/suffix-array/page.tsx:73 | the indices of the sorted suffixes form a suffix array: a permutation of 0..n-1 ordering the suffixes ascending |
| SuffixArrayPage.BuildSuffixArray | dsa-visualizer/dsa-visualizer/src/app/visualizer/suffix-array/page.tsx:39-74 | the result is a permutation of 0..n-1 that orders the suffixes ascending |
| SuffixArrayPage.LcpIsLongest | dsa-visualizer/dsa-visualizer/src/app/visualizer/suffix-array/page.tsx:95-98 | the common-prefix length the loop stops at is the longest |
| SuffixArrayPage.BuildRank | dsa-visualizer/dsa-visualizer/src/app/visualizer/suffix-array/page.tsx:86-89 | rank is the inverse of the suffix array: rank[SA[i]] = i |
| SuffixArrayPage.AgreeTails | dsa-visualizer/dsa-visualizer/src/app/visualizer/suffix-array/page.tsx:99 | dropping the first character of two suffixes that agree on h ≥ 1 characters keeps their order and h - 1 of the agreement |
| SuffixArrayPage.SqueezedAgree | dsa-visualizer/dsa-visualizer/src/app/visualizer/suffix-array/page.tsx:92-100 | a suffix ordered between two that agree on h characters agrees with them on h characters |
| SuffixArrayPage.KasaiTails | dsa-visualizer/dsa-visualizer/src/app/visualizer/suffix-array/page.tsx:92-100 | the neighbour pair at i, shifted by one, is ordered and agrees on h - 1 characters |
| SuffixArrayPage.PredecessorAgrees | dsa-visualizer/dsa-visualizer/src/app/visualizer/suffix-array/page.tsx:93-97 | a suffix below t[x..] agreeing with it on h characters makes its rank predecessor agree on h too |
| SuffixArrayPage.KasaiNext | dsa-visualizer/dsa-visualizer/src/app/visualizer/suffix-array/page.tsx:99-100 | the height carried from i to i + 1 is max(h - 1, 0), a valid lower bound there |
| SuffixArrayPage.LcpDoneStep | dsa-visualizer/dsa-visualizer/src/app/visualizer/suffix-array/page.tsx:93-99 | writing lcp[rank[i]] extends the filled part by one start index |
| SuffixArrayPage.ExtendCommon | dsa-visualizer/dsa-visualizer/src/app/visualizer/suffix-array/page.tsx:95-97 | the extension loop stops at the longest common prefix and never shortens the carried height |
| SuffixArrayPage.KasaiStep | dsa-visualizer/dsa-visualizer/src/app/visualizer/suffix-array/page.tsx:92-100 | one Kasai iteration fills lcp at rank[i] and passes a valid height to the next index |
| SuffixArrayPage.BuildLcpArray | dsa-visualizer/dsa-visualizer/src/app/visualizer/suffix-array/page.tsx:81-104 | lcp[0] = 0 and lcp[r] is the common-prefix length of the suffixes at SA[r-1] and SA[r] |
| SuffixArrayPage.SideMonotone | dsa-visualizer/dsa-visualizer/src/app/visualizer/suffix-array/page.tsx:136-148 | the below / starts-with / above classification of a suffix against the pattern is monotone in suffix order |
| SuffixArrayPage.SidesSorted | dsa-visualizer/dsa-visualizer/src/app/visualizer/suffix-array/page.tsx:136-148 | along the suffix array the classification never decreases |
| SuffixArrayPage.SidesAround | dsa-visualizer/dsa-visualizer/src/app/visualizer/suffix-array/page.tsx:136-148 | classes before a rank are at most its class, those after at least |
| SuffixArrayPage.LeftmostMatch | dsa-visualizer/dsa-visualizer/src/app/visualizer/suffix-array/page.tsx:131-148 | the first binary search finds the first rank whose suffix starts with the pattern, or -1 when none does |
| SuffixArrayPage.RightmostMatch | dsa-visualizer/dsa-visualizer/src/app/visualizer/suffix-array/page.tsx:163-180 | the second binary search finds the last rank whose suffix starts with the pattern, every later suffix being above it |
| SuffixArrayPage.StartsWithOccurs | dsa-visualizer/dsa-visualizer/src/app/visualizer/suffix-array/page.tsx:140 | a suffix starts with the pattern exactly when the pattern occurs at its start |
| SuffixArrayPage.NoMatches | dsa-visualizer/dsa-visualizer/src/app/visualizer/suffix-array/page.tsx:150-161 | when no suffix starts with the pattern, it occurs nowhere |
| SuffixArrayPage.BoundsMeet | dsa-visualizer/dsa-visualizer/src/app/visualizer/suffix-array/page.tsx:163-180 | once a leftmost match exists, the rightmost search finds a bound at or after it |
| SuffixArrayPage.MatchBlock | dsa-visualizer/dsa-visualizer/src/app/visualizer/suffix-array/page.tsx:182-185 | the ranks between the two bounds hold exactly the occurrence starts |
| SuffixArrayPage.BlockOrdered | dsa-visualizer/dsa-visualizer/src/app/visualizer/suffix-array/page.tsx:182-185 | the collected positions are in bounds and in suffix order |
| SuffixArrayPage.SuffixArrayBuilder.constructor | dsa-visualizer/dsa-visualizer/src/app/visualizer/suffix-array/page.tsx:34-37 | the text gets '$' appended, the suffix array orders its suffixes and the lcp array is the Kasai array |
| SuffixArrayPage.SuffixArrayBuilder.Search | dsa-visualizer/dsa-visualizer/src/app/visualizer/suffix-array/page.tsx:124-203 | search('') is []; otherwise exactly the occurrence starts of the pattern in the text (with '$'), in suffix order |
| InfixToPostfix.Precedence | dsa-visualizer/dsa-visualizer/src/components/visualizers/infix-to-postfix-visualizer.tsx:44-57 | precedence lies in 0..3 and is positive exactly for the five operators |
| InfixToPostfix.OperandsAppend | dsa-visualizer/dsa-visualizer/src/components/visualizers/infix-to-postfix-visualizer.tsx:121-132 | appending a character extends the operand list and the token list exactly when it is an operand (or operator) |
| InfixToPostfix.DepthCounts | dsa-visualizer/dsa-visualizer/src/components/visualizers/infix-to-postfix-visualizer.tsx:78-85 | the running parenthesis count is the number of '(' minus the number of ')' |
| InfixToPostfix.NeverNegativePrefixes | dsa-visualizer/dsa-visualizer/src/components/visualizers/infix-to-postfix-visualizer.tsx:79-85 | the count never goes negative exactly when every prefix has a non-negative count |
| InfixToPostfix.NeverNegativePrefix | dsa-visualizer/dsa-visualizer/src/components/visualizers/infix-to-postfix-visualizer.tsx:79-85 | a prefix of a string whose count never goes negative has the same property |
| InfixToPostfix.DepthAppend | dsa-visualizer/dsa-visualizer/src/components/visualizers/infix-to-postfix-visualizer.tsx:80-82 | one character changes the count by its delta, and the never-negative property extends exactly when the new count is not negative |
| InfixToPostfix.Disallowed | dsa-visualizer/dsa-visualizer/src/components/visualizers/infix-to-postfix-visualizer.tsx:71-75 | the first disallowed character, None exactly when every character is an operand, an operator or a parenthesis |
| InfixToPostfix.ValidMeans | dsa-visualizer/dsa-visualizer/src/components/visualizers/infix-to-postfix-visualizer.tsx:63-108 | the expression is valid exactly when it is non-empty, uses only allowed characters, is balanced, has no two operators in a row, starts with no operator but '-' and does not end with one |
| InfixToPostfix.FindDisallowed | dsa-visualizer/dsa-visualizer/src/components/visualizers/infix-to-postfix-visualizer.tsx:71-75 | the character loop finds the first disallowed character |
| InfixToPostfix.CheckParentheses | dsa-visualizer/dsa-visualizer/src/components/visualizers/infix-to-postfix-visualizer.tsx:77-89 | a closing parenthesis with nothing open is reported first, then a non-zero final count; a balanced string passes |
| InfixToPostfix.HasAdjacentOperators | dsa-visualizer/dsa-visualizer/src/components/visualizers/infix-to-postfix-visualizer.tsx:92-96 | the loop finds two operators in a row exactly when there are some |
| InfixToPostfix.ValidateExpression | dsa-visualizer/dsa-visualizer/src/components/visualizers/infix-to-postfix-visualizer.tsx:63-108 | the checks run in the source's order, each rejection carrying its own error, on the text with whitespace removed |
| InfixToPostfix.PoppedKeeps | dsa-visualizer/dsa-visualizer/src/components/visualizers/infix-to-postfix-visualizer.tsx:157-235 | popping the top of the stack to the output keeps the multiset and the operand order |
| InfixToPostfix.PopNext | dsa-visualizer/dsa-visualizer/src/components/visualizers/infix-to-postfix-visualizer.tsx:157-159 | popping one more element appends it to the output |
| InfixToPostfix.KeepsOpenings | dsa-visualizer/dsa-visualizer/src/components/visualizers/infix-to-postfix-visualizer.tsx:157 | popping only non-'(' elements keeps every '(' on the stack |
| InfixToPostfix.PopToParenthesis | dsa-visualizer/dsa-visualizer/src/components/visualizers/infix-to-postfix-visualizer.tsx:157-169 | on ')' operators are popped to the output until a '(' is on top or the stack is empty; nothing is lost and no operand moves |
| InfixToPostfix.PopBindingOperators | dsa-visualizer/dsa-visualizer/src/components/visualizers/infix-to-postfix-visualizer.tsx:186-206 | before pushing an operator, the stack is popped while the top binds at least as tightly (strictly more for the right-associative '^') |
| InfixToPostfix.NoClosing | dsa-visualizer/dsa-visualizer/src/components/visualizers/infix-to-postfix-visualizer.tsx:145-183 | the stack never holds ')' |
| InfixToPostfix.OperandStep | dsa-visualizer/dsa-visualizer/src/components/visualizers/infix-to-postfix-visualizer.tsx:121-132 | an operand goes straight to the output |
| InfixToPostfix.OpenStep | dsa-visualizer/dsa-visualizer/src/components/visualizers/infix-to-postfix-visualizer.tsx:133-144 | '(' is pushed |
| InfixToPostfix.OtherStep | dsa-visualizer/dsa-visualizer/src/components/visualizers/infix-to-postfix-visualizer.tsx:118-220 | any other character is skipped |
| InfixToPostfix.DropOpening | dsa-visualizer/dsa-visualizer/src/components/visualizers/infix-to-postfix-visualizer.tsx:171-183 | dropping the matching '(' removes exactly one '(' from the account |
| InfixToPostfix.PushOperator | dsa-visualizer/dsa-visualizer/src/components/visualizers/infix-to-postfix-visualizer.tsx:208-218 | pushing an operator adds exactly it to the account |
| InfixToPostfix.PopsKeepShape | dsa-visualizer/dsa-visualizer/src/components/visualizers/infix-to-postfix-visualizer.tsx:157-169 | popping never puts ')' in the output |
| InfixToPostfix.CloseStep | dsa-visualizer/dsa-visualizer/src/components/visualizers/infix-to-postfix-visualizer.tsx:145-183 | after ')' with a matching '(' the conversion invariant still holds |
| InfixToPostfix.CloseUnmatched | dsa-visualizer/dsa-visualizer/src/components/visualizers/infix-to-postfix-visualizer.tsx:145-183 | after ')' with no '(' on the stack the conversion invariant still holds, with an empty stack |
| InfixToPostfix.OperatorStep | dsa-visualizer/dsa-visualizer/src/components/visualizers/infix-to-postfix-visualizer.tsx:184-219 | after an operator's pops and push the conversion invariant still holds |
| InfixToPostfix.ConvertChar | dsa-visualizer/dsa-visualizer/src/components/visualizers/infix-to-postfix-visualizer.tsx:118-220 | one character of the scan keeps the conversion invariant; an operand goes to the output and an operator is pushed after the pops |
| InfixToPostfix.FlushStack | dsa-visualizer/dsa-visualizer/src/components/visualizers/infix-to-postfix-visualizer.tsx:222-235 | the remaining stack is emptied onto the output top first |
| InfixToPostfix.Finished | dsa-visualizer/dsa-visualizer/src/components/visualizers/infix-to-postfix-visualizer.tsx:222-237 | once the stack is flushed the output has no ')', and for balanced input no '(' and exactly the operands and operators |
| InfixToPostfix.ConvertInfix | dsa-visualizer/dsa-visualizer/src/components/visualizers/infix-to-postfix-visualizer.tsx:111-238 | operands reach the output in input order, no ')' is output, and for balanced input the output is exactly the operands and operators without parentheses; for an expression without parentheses the output is the postfix listing of its reference tree |
| InfixToPostfix.ProcessExpression | dsa-visualizer/dsa-visualizer/src/components/visualizers/infix-to-postfix-visualizer.tsx:299-313 | an invalid expression is rejected with the first failed check; a valid one yields no parentheses, the operands in input order, and output length = operands + operators; an expression without parentheses is accepted and yields the postfix listing of its reference tree |
| InfixToPostfix.ReadOperator | dsa-visualizer/dsa-visualizer/src/components/visualizers/infix-to-postfix-visualizer.tsx:184-219 | an operator pops to the output exactly the operators on top of the stack that are applied before it, then is pushed |
| InfixToPostfix.FlatValid | dsa-visualizer/dsa-visualizer/src/components/visualizers/infix-to-postfix-visualizer.tsx:63-108 | every expression of single-character operands alternating with operators passes all the checks |
| InfixToPostfix.MainUnique | dsa-visualizer/dsa-visualizer/src/components/visualizers/infix-to-postfix-visualizer.tsx:44-61 | in the reference, at most one operator of an expression is applied last |
| InfixToPostfix.MainSnoc | dsa-visualizer/dsa-visualizer/src/components/visualizers/infix-to-postfix-visualizer.tsx:44-61 | appending an operator and an operand: the new operator is applied last unless the old last one binds less tightly, or as tightly with '^' grouping to the right |
| InfixToPostfix.MainExists | dsa-visualizer/dsa-visualizer/src/components/visualizers/infix-to-postfix-visualizer.tsx:44-61 | every expression with an operator has an operator applied last |
| InfixToPostfix.AssociativityExamples | dsa-visualizer/dsa-visualizer/src/components/visualizers/infix-to-postfix-visualizer.tsx:44-61 | the reference groups '-' to the left and '^' to the right |
| InfixToPostfix.PrecedenceExamples | dsa-visualizer/dsa-visualizer/src/components/visualizers/infix-to-postfix-visualizer.tsx:44-57 | the reference applies '*' before '+' on either side |
| InfixToPostfix.PostOrderSplit | dsa-visualizer/dsa-visualizer/src/components/visualizers/infix-to-postfix-visualizer.tsx:222-235 | a tree's postfix listing ends with the operators of its right edge, from the bottom up |
| InfixToPostfix.EdgeChain | dsa-visualizer/dsa-visualizer/src/components/visualizers/infix-to-postfix-visualizer.tsx:186-206 | going down the right edge of a reference tree each operator is applied before the one above it, so the stack is ordered by binding |
| InfixToPostfix.TighterBelow | dsa-visualizer/dsa-visualizer/src/components/visualizers/infix-to-postfix-visualizer.tsx:186-206 | if the operator at some stack position is applied before o, so is every operator beneath it |
| InfixToPostfix.BuildSnoc | dsa-visualizer/dsa-visualizer/src/components/visualizers/infix-to-postfix-visualizer.tsx:184-219 | the tree of an expression extended by an operator and an operand is the old tree with the operator grafted onto its right edge |
| InfixToPostfix.GraftEdge | dsa-visualizer/dsa-visualizer/src/components/visualizers/infix-to-postfix-visualizer.tsx:186-218 | the graft keeps the right edge up to the operators applied after the new one, and the operators below it reach the listing, top first |
| InfixToPostfix.KeptTighter | dsa-visualizer/dsa-visualizer/src/components/visualizers/infix-to-postfix-visualizer.tsx:186-206 | after the pops every operator left on the stack is applied after the new one and the first one popped is not |
| InfixToPostfix.OperatorRead | dsa-visualizer/dsa-visualizer/src/components/visualizers/infix-to-postfix-visualizer.tsx:184-219 | the pops and the push leave the stack and output of the tree extended by the operator |
| InfixToPostfix.ScanStep | dsa-visualizer/dsa-visualizer/src/components/visualizers/infix-to-postfix-visualizer.tsx:118-220 | on an expression without parentheses each character keeps stack and output in step with the reference tree of what has been read |
| Polynomial.ParseInt | dsa-visualizer/dsa-visualizer/src/components/visualizers/polynomial-visualizer.tsx:97 | parseInt gives NaN (None) exactly when the text does not start with a digit |
| Polynomial.DecimalWhole | dsa-visualizer/dsa-visualizer/src/components/visualizers/polynomial-visualizer.tsx:90-103 | a digit string without a fraction reads as its integer value |
| Polynomial.ParseNatText | dsa-visualizer/dsa-visualizer/src/components/visualizers/polynomial-visualizer.tsx:90-103 | the decimal text of a natural number, followed by a non-digit, reads back as that number with parseInt and parseFloat |
| Polynomial.ToLower | dsa-visualizer/dsa-visualizer/src/components/visualizers/polynomial-visualizer.tsx:50 | toLowerCase maps 'A'..'Z' to 'a'..'z' and keeps every other character, length unchanged |
| Polynomial.ConcatAppend | dsa-visualizer/dsa-visualizer/src/components/visualizers/polynomial-visualizer.tsx:53-65 | joining the pieces distributes over appending one |
| Polynomial.PiecesEmpty | dsa-visualizer/dsa-visualizer/src/components/visualizers/polynomial-visualizer.tsx:65 | the split is empty exactly for the empty text |
| Polynomial.PiecesConcat | dsa-visualizer/dsa-visualizer/src/components/visualizers/polynomial-visualizer.tsx:53-65 | joining the split terms gives back the text: nothing is lost or reordered |
| Polynomial.PiecesStep | dsa-visualizer/dsa-visualizer/src/components/visualizers/polynomial-visualizer.tsx:56-64 | one character: a sign after the first place starts a new term, any other character extends the current one |
| Polynomial.PiecesShape | dsa-visualizer/dsa-visualizer/src/components/visualizers/polynomial-visualizer.tsx:56-64 | every term is non-empty, holds a sign at most at its first place, and every term but the first starts with a sign |
| Polynomial.PiecesSplit | dsa-visualizer/dsa-visualizer/src/components/visualizers/polynomial-visualizer.tsx:53-65 | the split is a well-formed cut of the text into signed terms |
| Polynomial.SplitTerms | dsa-visualizer/dsa-visualizer/src/components/visualizers/polynomial-visualizer.tsx:53-65 | the character loop produces exactly the split |
| Polynomial.Before | dsa-visualizer/dsa-visualizer/src/components/visualizers/polynomial-visualizer.tsx:82 | split('x')[0]: the longest prefix without 'x', followed by 'x' when shorter than the text |
| Polynomial.ZeroCoefficientReadAsOne | dsa-visualizer/dsa-visualizer/src/components/visualizers/polynomial-visualizer.tsx:90 | as written, "0x" reads as the term x, because a zero product falls back to 1 |
| Polynomial.NegativeZeroReadAsOne | dsa-visualizer/dsa-visualizer/src/components/visualizers/polynomial-visualizer.tsx:90 | as written, "-0x^2" reads as +x^2 |
| Polynomial.ZeroCoefficientKept | dsa-visualizer/dsa-visualizer/src/components/visualizers/polynomial-visualizer.tsx:90 | with the fallback applied only to NaN, "0x" and "-0x^2" read with coefficient 0 |
| Polynomial.BeforeDigits | dsa-visualizer/dsa-visualizer/src/components/visualizers/polynomial-visualizer.tsx:82 | the part before 'x' of digits followed by 'x' is the digits |
| Polynomial.NonZero | dsa-visualizer/dsa-visualizer/src/components/visualizers/polynomial-visualizer.tsx:108 | the filter keeps exactly the terms with a non-zero coefficient |
| Polynomial.ParsePoly | dsa-visualizer/dsa-visualizer/src/components/visualizers/polynomial-visualizer.tsx:46-109 | blank input parses to [], no kept term has a zero coefficient, and the result is the split-then-read (each term read as written, with the fallback to 1 on a zero product) of the lower-cased text without whitespace |
| Polynomial.ParsePolyCorrected | dsa-visualizer/dsa-visualizer/src/components/visualizers/polynomial-visualizer.tsx:46-109 | as parsePoly, but a written zero coefficient stays zero, so blank input parses to [], no kept term is zero, and the result is the split-then-read with the corrected reader |
| Polynomial.CoefficientsAgree | dsa-visualizer/dsa-visualizer/src/components/visualizers/polynomial-visualizer.tsx:84-90 | the reader as written and the corrected reader give the same coefficient unless its text reads as zero or as no number |
| Polynomial.ParseAllAgree | dsa-visualizer/dsa-visualizer/src/components/visualizers/polynomial-visualizer.tsx:67-107 | when every term text reads the same both ways, so does the whole list |
| Polynomial.PieceReadsAsWritten | dsa-visualizer/dsa-visualizer/src/components/visualizers/polynomial-visualizer.tsx:67-107 | parsePoly as written reads the piece of a whole, non-zero term back as that term |
| Polynomial.PiecesAgree | dsa-visualizer/dsa-visualizer/src/components/visualizers/polynomial-visualizer.tsx:67-107 | on the pieces of whole, non-zero terms the two readers agree |
| Polynomial.ShownAgree | dsa-visualizer/dsa-visualizer/src/components/visualizers/polynomial-visualizer.tsx:46-147 | on formatted whole, non-zero terms the two readers give the same polynomial |
| Polynomial.ZeroAgrees | dsa-visualizer/dsa-visualizer/src/components/visualizers/polynomial-visualizer.tsx:46-112 | on the "0" shown for no terms the two readers agree |
| Polynomial.FormatThenReadAsWritten | dsa-visualizer/dsa-visualizer/src/components/visualizers/polynomial-visualizer.tsx:46-148 | formatting, then parsing with parsePoly as written, a polynomial with whole non-zero coefficients gives it back sorted by exponent, highest first |
| Polynomial.Row | dsa-visualizer/dsa-visualizer/src/components/visualizers/polynomial-visualizer.tsx:156-158 | the inner loop pairs one term of the first polynomial with each term of the second, in order |
| Polynomial.PairsLength | dsa-visualizer/dsa-visualizer/src/components/visualizers/polynomial-visualizer.tsx:155-188 | there are len(p1)·len(p2) term pairs |
| Polynomial.PairsAt | dsa-visualizer/dsa-visualizer/src/components/visualizers/polynomial-visualizer.tsx:155-158 | pair number i·len(p2) + j is (p1[i], p2[j]) |
| Polynomial.AccumulateSums | dsa-visualizer/dsa-visualizer/src/components/visualizers/polynomial-visualizer.tsx:164-169 | the running table has an exponent exactly when some pair's exponents add up to it, and holds the sum of those pairs' coefficient products |
| Polynomial.InsertSorted | dsa-visualizer/dsa-visualizer/src/components/visualizers/polynomial-visualizer.tsx:174 | inserting a term with a new exponent keeps the list strictly descending by exponent |
| Polynomial.SameTerms | dsa-visualizer/dsa-visualizer/src/components/visualizers/polynomial-visualizer.tsx:171-174 | two strictly descending lists with the same terms are equal |
| Polynomial.DescribesUnique | dsa-visualizer/dsa-visualizer/src/components/visualizers/polynomial-visualizer.tsx:171-174 | the shown result is determined by the table |
| Polynomial.ResultPolynomial | dsa-visualizer/dsa-visualizer/src/components/visualizers/polynomial-visualizer.tsx:171-174 | the result lists the table's non-zero entries, strictly descending by exponent |
| Polynomial.RecordedAt | dsa-visualizer/dsa-visualizer/src/components/visualizers/polynomial-visualizer.tsx:176-186 | step k records pair k, its product, and the result after the first k + 1 pairs |
| Polynomial.RecordedStep | dsa-visualizer/dsa-visualizer/src/components/visualizers/polynomial-visualizer.tsx:176-186 | appending a step that records the next pair keeps the record |
| Polynomial.RecordNext | dsa-visualizer/dsa-visualizer/src/components/visualizers/polynomial-visualizer.tsx:164-186 | adding the product to the table and recording the step keeps the record |
| Polynomial.PairsRow | dsa-visualizer/dsa-visualizer/src/components/visualizers/polynomial-visualizer.tsx:155-157 | the pairs of the first i + 1 terms are those of the first i, then one row |
| Polynomial.MultiplyPolynomials | dsa-visualizer/dsa-visualizer/src/components/visualizers/polynomial-visualizer.tsx:150-191 | there are len(p1)·len(p2) steps, one per term pair in loop order, each with coefficient c1·c2 and exponent e1 + e2 and the combined, zero-free, descending result so far |
| Polynomial.MultipliedPair | dsa-visualizer/dsa-visualizer/src/components/visualizers/polynomial-visualizer.tsx:157-162 | the step for (i, j) multiplies p1[i] by p2[j] |
| Polynomial.CoefficientAbsent | dsa-visualizer/dsa-visualizer/src/components/visualizers/polynomial-visualizer.tsx:171-174 | an exponent no term carries has coefficient 0 |
| Polynomial.CoefficientPresent | dsa-visualizer/dsa-visualizer/src/components/visualizers/polynomial-visualizer.tsx:171-174 | the coefficient of a term's exponent is its coefficient when exponents are distinct |
| Polynomial.DescribedCoefficient | dsa-visualizer/dsa-visualizer/src/components/visualizers/polynomial-visualizer.tsx:171-174 | the shown result has at exponent e the table's entry, or 0 |
| Polynomial.RecordedCoefficients | dsa-visualizer/dsa-visualizer/src/components/visualizers/polynomial-visualizer.tsx:164-186 | the k-th step's result has at each exponent the sum of the products of the first k + 1 pairs |
| Polynomial.ResultIsProduct | dsa-visualizer/dsa-visualizer/src/components/visualizers/polynomial-visualizer.tsx:150-191 | the last step's result has at each exponent the sum over all term pairs whose exponents add up to it: the product polynomial |
| Polynomial.InsertDescending | dsa-visualizer/dsa-visualizer/src/components/visualizers/polynomial-visualizer.tsx:115 | inserting keeps the list non-increasing by exponent and adds exactly the term |
| Polynomial.SortByExponentSorts | dsa-visualizer/dsa-visualizer/src/components/visualizers/polynomial-visualizer.tsx:115 | sorting gives a permutation with exponents non-increasing |
| Polynomial.ToLowerPlain | dsa-visualizer/dsa-visualizer/src/components/visualizers/polynomial-visualizer.tsx:50 | lower-casing keeps a formatted polynomial as it is |
| Polynomial.BodyShape | dsa-visualizer/dsa-visualizer/src/components/visualizers/polynomial-visualizer.tsx:126-143 | a term's text after its sign is non-empty and holds no sign |
| Polynomial.ShowTermParts | dsa-visualizer/dsa-visualizer/src/components/visualizers/polynomial-visualizer.tsx:116-145 | a formatted term is its sign text followed by its body |
| Polynomial.SignWithoutSpaces | dsa-visualizer/dsa-visualizer/src/components/visualizers/polynomial-visualizer.tsx:120-124 | the sign text without its blanks is the bare sign |
| Polynomial.ShowTermPiece | dsa-visualizer/dsa-visualizer/src/components/visualizers/polynomial-visualizer.tsx:116-145 | a formatted term with whitespace removed is the piece parsePoly reads |
| Polynomial.PiecePlain | dsa-visualizer/dsa-visualizer/src/components/visualizers/polynomial-visualizer.tsx:116-145 | a piece holds only lower-case letters, digits, signs and '^' |
| Polynomial.ShowTermsPieces | dsa-visualizer/dsa-visualizer/src/components/visualizers/polynomial-visualizer.tsx:114-147 | the formatted polynomial with whitespace removed is the concatenation of its pieces |
| Polynomial.PiecesExtend | dsa-visualizer/dsa-visualizer/src/components/visualizers/polynomial-visualizer.tsx:61-62 | a non-sign character extends the last term |
| Polynomial.PiecesGrow | dsa-visualizer/dsa-visualizer/src/components/visualizers/polynomial-visualizer.tsx:61-62 | non-sign characters extend the last term |
| Polynomial.PiecesSingle | dsa-visualizer/dsa-visualizer/src/components/visualizers/polynomial-visualizer.tsx:56-65 | a text with no sign after its first place is one term |
| Polynomial.PiecesAddTerm | dsa-visualizer/dsa-visualizer/src/components/visualizers/polynomial-visualizer.tsx:58-60 | a signed text after a non-empty one is split off as its own term |
| Polynomial.PieceShape | dsa-visualizer/dsa-visualizer/src/components/visualizers/polynomial-visualizer.tsx:120-124 | every piece after the first starts with its sign |
| Polynomial.SplitPieces | dsa-visualizer/dsa-visualizer/src/components/visualizers/polynomial-visualizer.tsx:53-147 | splitting the concatenated pieces gives the pieces back |
| Polynomial.ReadConstant | dsa-visualizer/dsa-visualizer/src/components/visualizers/polynomial-visualizer.tsx:101-130 | a constant term's text reads back as its absolute value |
| Polynomial.ReadExponent | dsa-visualizer/dsa-visualizer/src/components/visualizers/polynomial-visualizer.tsx:94-143 | the exponent text reads back as the exponent |
| Polynomial.ReadVariable | dsa-visualizer/dsa-visualizer/src/components/visualizers/polynomial-visualizer.tsx:81-143 | a variable term's text splits at 'x' into its coefficient text and its exponent text |
| Polynomial.PieceParts | dsa-visualizer/dsa-visualizer/src/components/visualizers/polynomial-visualizer.tsx:73-124 | the sign read from a piece and the absolute coefficient give back the coefficient |
| Polynomial.ReadWholeBody | dsa-visualizer/dsa-visualizer/src/components/visualizers/polynomial-visualizer.tsx:80-105 | the corrected reader reads a term's body back as the term |
| Polynomial.ReadCoefficient | dsa-visualizer/dsa-visualizer/src/components/visualizers/polynomial-visualizer.tsx:90 | a whole coefficient other than ±1 is read back by parseFloat |
| Polynomial.ParsePiece | dsa-visualizer/dsa-visualizer/src/components/visualizers/polynomial-visualizer.tsx:67-107 | the corrected reader reads every formatted piece back as its term |
| Polynomial.ParseAllPieces | dsa-visualizer/dsa-visualizer/src/components/visualizers/polynomial-visualizer.tsx:67-107 | reading all the pieces gives back the terms |
| Polynomial.ParseNextPiece | dsa-visualizer/dsa-visualizer/src/components/visualizers/polynomial-visualizer.tsx:67-107 | reading one more piece gives back one more term |
| Polynomial.NonZeroKeepsAll | dsa-visualizer/dsa-visualizer/src/components/visualizers/polynomial-visualizer.tsx:108 | the zero filter keeps a list without zero coefficients as it is |
| Polynomial.ZeroReadsEmpty | dsa-visualizer/dsa-visualizer/src/components/visualizers/polynomial-visualizer.tsx:102-108 | "0" parses to the empty polynomial |
| Polynomial.ReadShownTerms | dsa-visualizer/dsa-visualizer/src/components/visualizers/polynomial-visualizer.tsx:46-147 | reading back the formatted terms gives the terms |
| Polynomial.FormatThenRead | dsa-visualizer/dsa-visualizer/src/components/visualizers/polynomial-visualizer.tsx:46-148 | formatting, then parsing with the corrected reader, a polynomial with whole non-zero coefficients gives it back sorted by exponent, highest first |
| Polynomial.FormatTermPiece | dsa-visualizer/dsa-visualizer/src/components/visualizers/polynomial-visualizer.tsx:193-205 | formatTerm writes a term as formatPoly writes a leading term |
| Polynomial.FormatTermReads | dsa-visualizer/dsa-visualizer/src/components/visualizers/polynomial-visualizer.tsx:193-205 | the corrected reader reads formatTerm's text back as the term |
| Polynomial.FormatEmptyAndConstant | dsa-visualizer/dsa-visualizer/src/components/visualizers/polynomial-visualizer.tsx:112-194 | formatPoly([]) is "0", and formatTerm of an exponent-0 term is its coefficient's text |
| StringAlgorithmsPage.RollHash | dsa-visualizer/dsa-visualizer/src/app/visualizer/string-algorithms/page.tsx:537 | the rolling formula, reduced modulo 101, is the hash of the window one place further on |
| MessageQueue.DrainOne | dsa-visualizer/dsa-visualizer/src/components/visualizers/message-queue-visualizer.tsx:79-108 | one round removes one message and is the first two ops of the drain specification, the rest being the drain of what is left |
| LinkedListVisualizer.LinkedList.RemoveNode | dsa-visualizer/dsa-visualizer/src/components/visualizers/linked-list-visualizer.tsx:188-191 | the node at the index is removed, the others keep their order, and the deletion is logged with the list as it was |
| InfixToPostfix.ScanExpression | dsa-visualizer/dsa-visualizer/src/components/visualizers/infix-to-postfix-visualizer.tsx:118-220 | after the scan, stack and output satisfy the conversion invariant for the whole expression; for an expression without parentheses the stack is the right edge of its reference tree and the output the rest of its listing |
| InfixToPostfix.CloseParenthesis | dsa-visualizer/dsa-visualizer/src/components/visualizers/infix-to-postfix-visualizer.tsx:145-183 | a ')' keeps the conversion invariant: the operators above the nearest '(' go to the output and that '(' is dropped |
| Polynomial.AddProduct | dsa-visualizer/dsa-visualizer/src/components/visualizers/polynomial-visualizer.tsx:157-186 | one product added to resultTerms keeps it the sum of the products so far and records one more step |
| Huffman.AppearancesSpec | dsa-visualizer/dsa-visualizer/src/components/visualizers/huffman-visualizer.tsx:76-79 | the key order of the frequency Map holds every character of the text exactly once and no other character |
| Huffman.CountFrequencies | dsa-visualizer/dsa-visualizer/src/components/visualizers/huffman-visualizer.tsx:76-79 | the counting loop yields the first-appearance key order and, for each character of the text and only those, its number of occurrences |
| Huffman.WeightedTally | dsa-visualizer/dsa-visualizer/src/components/visualizers/huffman-visualizer.tsx:76-79 | summing count times w over the distinct characters equals summing w over the text, for every weight w |
| Huffman.MakeLeaves | dsa-visualizer/dsa-visualizer/src/components/visualizers/huffman-visualizer.tsx:85-93 | the loop over the Map makes one leaf per key, in key order, carrying that character's count |
| Huffman.TextLeavesWeight | dsa-visualizer/dsa-visualizer/src/components/visualizers/huffman-visualizer.tsx:85-93 | the frequencies of the leaves add up to the length of the text |
| Huffman.SortByFrequencySpec | dsa-visualizer/dsa-visualizer/src/components/visualizers/huffman-visualizer.tsx:96 | the comparator sort orders the leaves by ascending frequency and keeps every leaf (a permutation) |
| Huffman.SortWeight | dsa-visualizer/dsa-visualizer/src/components/visualizers/huffman-visualizer.tsx:96 | sorting keeps the total frequency |
| Huffman.SortedForest | dsa-visualizer/dsa-visualizer/src/components/visualizers/huffman-visualizer.tsx:82-96 | the sorted leaves are the first forest: ascending, as heavy as the text is long, all leaves, one per distinct character |
| Huffman.InitialNodes | dsa-visualizer/dsa-visualizer/src/components/visualizers/huffman-visualizer.tsx:75-96 | counting, making leaves and sorting yield the sorted leaves of the text, which form the first forest |
| Huffman.ReinsertShape | dsa-visualizer/dsa-visualizer/src/components/visualizers/huffman-visualizer.tsx:135-145 | reinsertion adds exactly the merged node to the working nodes and keeps the rest in place before or after it |
| Huffman.ReinsertSpec | dsa-visualizer/dsa-visualizer/src/components/visualizers/huffman-visualizer.tsx:135-145 | splicing the merged node before the first node at least as heavy, or pushing it, keeps the working nodes ascending |
| Huffman.ReinsertWeight | dsa-visualizer/dsa-visualizer/src/components/visualizers/huffman-visualizer.tsx:135-145 | reinsertion adds exactly the merged frequency to the total |
| Huffman.ReinsertLeaves | dsa-visualizer/dsa-visualizer/src/components/visualizers/huffman-visualizer.tsx:135-145 | the leaves under the working nodes gain exactly the leaves under the merged node |
| Huffman.InsertMerged | dsa-visualizer/dsa-visualizer/src/components/visualizers/huffman-visualizer.tsx:135-145 | the insertion loop with its early break computes the reinsertion |
| Huffman.MergeKeepsForest | dsa-visualizer/dsa-visualizer/src/components/visualizers/huffman-visualizer.tsx:111-145 | merging the two lightest nodes and putting the merge back keeps the forest invariant (ascending, total weight, well-formed nodes, same leaves) with one node fewer |
| Huffman.MergeLightest | dsa-visualizer/dsa-visualizer/src/components/visualizers/huffman-visualizer.tsx:113-145 | shifts the two lightest nodes, merges them with the summed frequency, reinserts the merge, and keeps the forest one node shorter |
| Huffman.MergeRound | dsa-visualizer/dsa-visualizer/src/components/visualizers/huffman-visualizer.tsx:111-155 | one round records a select step with the two nodes and the next lightest (null when none is left) and a merge step with the merged node, numbered consecutively |
| Huffman.CompleteShape | dsa-visualizer/dsa-visualizer/src/components/visualizers/huffman-visualizer.tsx:157-166 | the complete step closes the steps: numbered from 1, initial first, complete last, two per merge |
| Huffman.ForestOfOne | dsa-visualizer/dsa-visualizer/src/components/visualizers/huffman-visualizer.tsx:157 | the one node left is a well-formed tree as heavy as the text with exactly the text's leaves |
| Huffman.MergeAll | dsa-visualizer/dsa-visualizer/src/components/visualizers/huffman-visualizer.tsx:98-166 | the step-by-step build ends with a tree that is internal exactly when there are two distinct characters or more, and 2n steps for n leaves ending with the complete step |
| Huffman.HuffmanCoding.constructor | dsa-visualizer/dsa-visualizer/src/components/visualizers/huffman-visualizer.tsx:68-70 | a new object has no tree, no codes and no steps |
| Huffman.HuffmanCoding.BuildTree | dsa-visualizer/dsa-visualizer/src/components/visualizers/huffman-visualizer.tsx:72-172 | empty text gives no tree and no steps and changes nothing; otherwise the built tree and its steps are stored and returned and the tree's codes are added to the codes held |
| Huffman.HuffmanCoding.GenerateCodes | dsa-visualizer/dsa-visualizer/src/components/visualizers/huffman-visualizer.tsx:174-186 | the codes map gains the code table of the subtree: each leaf's character maps to its path, or "0" for a lone root |
| Huffman.KeyLeaf | dsa-visualizer/dsa-visualizer/src/components/visualizers/huffman-visualizer.tsx:174-186 | only characters on leaves receive a code |
| Huffman.LeafKey | dsa-visualizer/dsa-visualizer/src/components/visualizers/huffman-visualizer.tsx:174-186 | every leaf's character receives a code |
| Huffman.CodeLeads | dsa-visualizer/dsa-visualizer/src/components/visualizers/huffman-visualizer.tsx:174-186 | under an internal node the code of a character is the bit path from that node to the character's leaf |
| Huffman.CodesLead | dsa-visualizer/dsa-visualizer/src/components/visualizers/huffman-visualizer.tsx:174-186 | under an internal root every code leads to its character |
| Huffman.CodesPrefixFree | dsa-visualizer/dsa-visualizer/src/components/visualizers/huffman-visualizer.tsx:174-186 | with no character on two leaves, no code is a prefix of another and every code extends the path so far |
| Huffman.BuiltLeaves | dsa-visualizer/dsa-visualizer/src/components/visualizers/huffman-visualizer.tsx:72-186 | a built tree has distinct leaf characters and every character of the text gets a code |
| Huffman.BuiltPrefixFree | dsa-visualizer/dsa-visualizer/src/components/visualizers/huffman-visualizer.tsx:174-186 | the codes of a built tree are prefix-free, and a single-leaf tree codes its character as "0" |
| Huffman.Encode | dsa-visualizer/dsa-visualizer/src/components/visualizers/huffman-visualizer.tsx:188-192 | the encoded length is the sum of the code lengths of the text's characters, and nothing without codes |
| Huffman.CodewordsLength | dsa-visualizer/dsa-visualizer/src/components/visualizers/huffman-visualizer.tsx:188-192 | concatenated codes are as long as the sum of the code lengths over the text |
| Huffman.EncodedLength | dsa-visualizer/dsa-visualizer/src/components/visualizers/huffman-visualizer.tsx:188-192 | the encoded length is the sum over distinct characters of frequency times code length |
| Huffman.HuffmanCoding.EncodeText | dsa-visualizer/dsa-visualizer/src/components/visualizers/huffman-visualizer.tsx:188-192 | encoding with the held codes has the summed code length |
| Huffman.HuffmanCoding.Decode | dsa-visualizer/dsa-visualizer/src/components/visualizers/huffman-visualizer.tsx:194-214 | the decoding loop returns the tree walk's result: empty without a tree or bits, a failure where the page throws |
| Huffman.WalkPath | dsa-visualizer/dsa-visualizer/src/components/visualizers/huffman-visualizer.tsx:200-210 | following a character's code from an internal node consumes exactly that code, emits the character and restarts at the root |
| Huffman.RoundTrip | dsa-visualizer/dsa-visualizer/src/components/visualizers/huffman-visualizer.tsx:188-214 | decoding the concatenated codes gives the text back when every code leads to its character |
| Huffman.BuiltRoundTrip | dsa-visualizer/dsa-visualizer/src/components/visualizers/huffman-visualizer.tsx:188-214 | for a built tree with two distinct characters or more, decode(encode(text)) is the text |
| Huffman.SingleLeafDecodeFails | dsa-visualizer/dsa-visualizer/src/components/visualizers/huffman-visualizer.tsx:200-208 | with one distinct character, decode of the encoded text fails (the page's TypeError) |
| Huffman.CorrectedRoundTrip | dsa-visualizer/dsa-visualizer/src/components/visualizers/huffman-visualizer.tsx:194-214 | the corrected decode gives every non-empty text back, including single-character texts |
| Huffman.EncodeDecode | dsa-visualizer/dsa-visualizer/src/components/visualizers/huffman-visualizer.tsx:491-522 | a fresh object builds, encodes and decodes: the decoded text is the input with two distinct characters or more, and decode fails with one |
| DisjointSets.Singletons | dsa-visualizer/dsa-visualizer/src/components/visualizers/enhanced-mst-visualizer.tsx:44-47 | a parent array of self-loops with zero ranks is a forest in which every node is its own root |
| DisjointSets.RedirectedRoots | dsa-visualizer/dsa-visualizer/src/components/visualizers/enhanced-mst-visualizer.tsx:49-54 | pointing nodes straight at their roots keeps a forest and leaves the root of every node, hence every set, unchanged |
| DisjointSets.LinkRoots | dsa-visualizer/dsa-visualizer/src/components/visualizers/enhanced-mst-visualizer.tsx:62-69 | hanging one root under another keeps a forest and unites exactly the two sets under the surviving root; that root set loses the hung root |
| DisjointSets.UniteClasses | dsa-visualizer/dsa-visualizer/src/components/visualizers/enhanced-mst-visualizer.tsx:56-71 | uniting the same two members in two labellings with the same classes yields labellings with the same classes, whichever representative is kept |
| DisjointSets.UniteCount | dsa-visualizer/dsa-visualizer/src/components/visualizers/enhanced-mst-visualizer.tsx:56-71 | uniting two different sets reduces the number of sets by exactly one |
| EnhancedMST.UnionFind.constructor | dsa-visualizer/dsa-visualizer/src/components/visualizers/enhanced-mst-visualizer.tsx:44-47 | every node is its own parent with rank 0, so each node is alone in its set |
| EnhancedMST.UnionFind.Find | dsa-visualizer/dsa-visualizer/src/components/visualizers/enhanced-mst-visualizer.tsx:49-54 | returns the root of x, makes it x's parent, keeps the forest, the ranks and every node's set |
| EnhancedMST.UnionFind.Union | dsa-visualizer/dsa-visualizer/src/components/visualizers/enhanced-mst-visualizer.tsx:56-71 | returns true exactly when x and y were in different sets; then the two sets are united under the root of higher rank (x's root on a tie, whose rank goes up by one); otherwise nothing changes |
| EnhancedMST.SortByWeightSpec | dsa-visualizer/dsa-visualizer/src/components/visualizers/enhanced-mst-visualizer.tsx:191 | the sorted edge list is ordered by weight and is a permutation of the input (ensures of SortByWeight) |
| EnhancedMST.ChosenFrom | dsa-visualizer/dsa-visualizer/src/components/visualizers/enhanced-mst-visualizer.tsx:206-246 | every edge Kruskal keeps comes from the input |
| EnhancedMST.ChosenSorted | dsa-visualizer/dsa-visualizer/src/components/visualizers/enhanced-mst-visualizer.tsx:206-246 | over sorted input the kept edges come out in weight order |
| EnhancedMST.ChosenForest | dsa-visualizer/dsa-visualizer/src/components/visualizers/enhanced-mst-visualizer.tsx:206-246 | the kept edges are acyclic: the number of components plus the number of kept edges is n |
| EnhancedMST.ChosenSpans | dsa-visualizer/dsa-visualizer/src/components/visualizers/enhanced-mst-visualizer.tsx:206-246 | if fewer than n-1 edges were kept, every input edge joins two vertices that the kept edges already connect |
| EnhancedMST.UnionEdge | dsa-visualizer/dsa-visualizer/src/components/visualizers/enhanced-mst-visualizer.tsx:220-222 | union succeeds exactly when the edge joins two components of the edges kept so far, and the union-find then tracks the components of the kept edges plus this one |
| EnhancedMST.KruskalSteps | dsa-visualizer/dsa-visualizer/src/components/visualizers/enhanced-mst-visualizer.tsx:189-259 | the log starts with the sorted list, has one consider step and one add or reject step per edge examined, adds exactly the edges that join two components, stops after n-1 additions or the last edge, and the complete step holds the kept edges and their total weight |
| EnhancedMST.LightestSpec | dsa-visualizer/dsa-visualizer/src/components/visualizers/enhanced-mst-visualizer.tsx:281-293 | none is found exactly when no edge has one end visited and one not; otherwise the found edge crosses, is in the list and is no heavier than any crossing edge |
| EnhancedMST.FindLightest | dsa-visualizer/dsa-visualizer/src/components/visualizers/enhanced-mst-visualizer.tsx:281-293 | the scan returns the first crossing edge of least weight |
| EnhancedMST.PrimRoundShows | dsa-visualizer/dsa-visualizer/src/components/visualizers/enhanced-mst-visualizer.tsx:295-325 | a round that takes the lightest crossing edge and visits its new end keeps the step invariant: one more vertex than tree edges, the total equal to the tree's weight, tree edges inside the visited set; step numbers go up by two |
| EnhancedMST.PrimLogFacts | dsa-visualizer/dsa-visualizer/src/components/visualizers/enhanced-mst-visualizer.tsx:262-325 | every step is numbered by its position; in every step vertex 0 is visited, the visited set has one more vertex than the tree has edges, the total is the tree's weight and each tree edge has both ends visited |
| EnhancedMST.PrimLoop | dsa-visualizer/dsa-visualizer/src/components/visualizers/enhanced-mst-visualizer.tsx:280-326 | the loop either visits all n vertices or reaches a visited set with no crossing edge, at which point the source loop never ends |
| EnhancedMST.PrimSteps | dsa-visualizer/dsa-visualizer/src/components/visualizers/enhanced-mst-visualizer.tsx:262-338 | with no vertices the start step cannot be built; on a graph that is not connected from vertex 0 the loop never ends (Stuck); otherwise the log is a valid Prim log that visits every vertex and ends with a complete step copying the last state |
| UnionFindPage.DisjointSetUnion.constructor | dsa-visualizer/dsa-visualizer/src/app/visualizer/union-find/page.tsx:41-68 | count nodes, each its own parent with rank 0 and marked a root; the sets listed are the singletons [0], ..., [count-1] |
| UnionFindPage.IdentityPartition | dsa-visualizer/dsa-visualizer/src/app/visualizer/union-find/page.tsx:58-63 | when every element is its own root, the listing is exactly one singleton per element in order, which is what the initial step shows |
| UnionFindPage.DisjointSetUnion.FindRoot | dsa-visualizer/dsa-visualizer/src/app/visualizer/union-find/page.tsx:206-212 | walking parent pointers without changing anything ends at the root of x |
| UnionFindPage.WalkRoot | dsa-visualizer/dsa-visualizer/src/app/visualizer/union-find/page.tsx:76-94 | every element of the walk collected by find has the walk's last element as its root |
| UnionFindPage.PointAt | dsa-visualizer/dsa-visualizer/src/app/visualizer/union-find/page.tsx:96-104 | after the loop every path element but the last points at the root, its flag is cleared, the root is flagged, and every other parent and flag is as before |
| UnionFindPage.Pointed | dsa-visualizer/dsa-visualizer/src/app/visualizer/union-find/page.tsx:96-104 | pointing a walk at its root keeps a forest with correct root flags (the flags end as they were) and keeps every element's root |
| UnionFindPage.DisjointSetUnion.Compress | dsa-visualizer/dsa-visualizer/src/app/visualizer/union-find/page.tsx:96-104 | every path element points at the root, other parents, ranks and flags are unchanged, and every element keeps its set |
| UnionFindPage.DisjointSetUnion.Find | dsa-visualizer/dsa-visualizer/src/app/visualizer/union-find/page.tsx:71-121 | returns the root of x and the walk from x to it (each step a non-root followed by its parent); afterwards the walk's elements point at the root and every other parent, the ranks, the flags and every element's set are unchanged |
| UnionFindPage.DisjointSetUnion.FindRoots | dsa-visualizer/dsa-visualizer/src/app/visualizer/union-find/page.tsx:128-135 | finds the roots of x and y one after the other; each parent either stays or becomes its element's root, and every set is unchanged |
| UnionFindPage.DisjointSetUnion.Link | dsa-visualizer/dsa-visualizer/src/app/visualizer/union-find/page.tsx:174-177 | the loser root gets the winner as parent, loses its flag, the winner is flagged, and the two sets become one under the winner |
| UnionFindPage.DisjointSetUnion.LinkByRank | dsa-visualizer/dsa-visualizer/src/app/visualizer/union-find/page.tsx:153-177 | the root of higher rank becomes the parent (x's root on a tie, whose rank goes up by one) and the two sets are united under it |
| UnionFindPage.DisjointSetUnion.Union | dsa-visualizer/dsa-visualizer/src/app/visualizer/union-find/page.tsx:124-190 | same set exactly when x and y already had one root: then every set and rank stays and parents only move to their roots; otherwise the reported parent is the rank winner, the child the other root, and the sets of x and y are united under the parent |
| UnionFindPage.MembersInUse | dsa-visualizer/dsa-visualizer/src/app/visualizer/union-find/page.tsx:193-203 | a root gets a listed set exactly when some element has that root |
| UnionFindPage.BucketsMembers | dsa-visualizer/dsa-visualizer/src/app/visualizer/union-find/page.tsx:196-200 | the buckets filled from the first k elements hold exactly the labels in use, each with its elements in ascending order |
| UnionFindPage.DisjointSetUnion.FillBuckets | dsa-visualizer/dsa-visualizer/src/app/visualizer/union-find/page.tsx:196-200 | the loop leaves every root mapped to its elements in order of id |
| UnionFindPage.Values | dsa-visualizer/dsa-visualizer/src/app/visualizer/union-find/page.tsx:202 | the bucket contents listed by ascending root, as JavaScript lists integer keys, are the partition |
| UnionFindPage.DisjointSetUnion.GetSets | dsa-visualizer/dsa-visualizer/src/app/visualizer/union-find/page.tsx:193-203 | the listed sets are the partition of the elements by root, ordered by root, each ascending |
| UnionFindPage.PartitionExact | dsa-visualizer/dsa-visualizer/src/app/visualizer/union-find/page.tsx:193-203 | every element lies in exactly one listed set, the one of its root |
| UnionFindPage.PartitionCount | dsa-visualizer/dsa-visualizer/src/app/visualizer/union-find/page.tsx:193-203 | every listed set is non-empty and there are exactly as many sets as roots |
| UnionFindPage.Stats.constructor | dsa-visualizer/dsa-visualizer/src/app/visualizer/union-find/page.tsx:67 | after initialization the count of sets is the node count and no operation has been made |
| UnionFindPage.PerformUnion | dsa-visualizer/dsa-visualizer/src/app/visualizer/union-find/page.tsx:215-236 | rejected exactly when a text, read by parseInt without a radix (so "0x2" is 2 and "0x" is NaN), is not a number naming a node, changing nothing; otherwise one more operation, the count of sets refreshed, unchanged sets when the pair already shared a set, and one set fewer when two were joined |
| UnionFindPage.PerformFind | dsa-visualizer/dsa-visualizer/src/app/visualizer/union-find/page.tsx:239-263 | rejected exactly when the text, read by parseInt without a radix, is not a number naming a node, changing nothing; otherwise the reported root is the node's root, every set is unchanged and one more operation is counted |
| Common.ParseIntAuto | dsa-visualizer/dsa-visualizer/src/app/visualizer/union-find/page.tsx:216-217 | parseInt without a radix: NaN exactly when no digit stands where the digits start (after a 0x prefix, a hexadecimal digit; otherwise a decimal one); a leading '-' gives a value at most 0, otherwise at least 0 |
| Common.ParseIntAutoDecimal | dsa-visualizer/dsa-visualizer/src/app/visualizer/union-find/page.tsx:240 | without a 0x prefix, parseInt(s) reads the same number as parseInt(s, 10) |
| Common.ParseIntAutoExamples | dsa-visualizer/dsa-visualizer/src/app/visualizer/union-find/page.tsx:216-217 | "0x2" reads as 2 without a radix but 0 in base 10; "0x" is NaN without a radix but 0 in base 10; " -0X1f" reads as -31 |
| Common.ParseIntAutoIntText | dsa-visualizer/dsa-visualizer/src/app/visualizer/union-find/page.tsx:240 | the decimal text of every integer reads back as that integer, so every node can be named |
| GraphAlgorithms.AdjacencyEdges | dsa-visualizer/dsa-visualizer/src/components/visualizers/graph-algorithms-visualizer.tsx:60-66 | an edge is in the adjacency list of u exactly when it leaves u and is an input edge or, for the undirected traversals, the reverse of one |
| GraphAlgorithms.BuildAdjacency | dsa-visualizer/dsa-visualizer/src/components/visualizers/graph-algorithms-visualizer.tsx:283-287 | the loop over the edges builds the adjacency lists of the graph read as undirected (DFS, BFS, Dijkstra) or directed (topological sort) |
| GraphAlgorithms.AdjacencyWithin | dsa-visualizer/dsa-visualizer/src/components/visualizers/graph-algorithms-visualizer.tsx:199-205 | every listed edge leads to an end of some input edge, so the traversals range over a finite set of nodes |
| GraphAlgorithms.ReachableExactly | dsa-visualizer/dsa-visualizer/src/components/visualizers/graph-algorithms-visualizer.tsx:78-114 | a node sequence that starts at start, adds only successors of earlier nodes and holds every successor of its nodes is exactly the set of nodes reachable from start |
| GraphAlgorithms.GrownReachable | dsa-visualizer/dsa-visualizer/src/components/visualizers/graph-algorithms-visualizer.tsx:98-101 | every node added as a successor of earlier ones is reachable from the first |
| GraphAlgorithms.ClosedHoldsReachable | dsa-visualizer/dsa-visualizer/src/components/visualizers/graph-algorithms-visualizer.tsx:147-178 | a sequence holding every successor of its elements holds every node reachable from its first element |
| GraphAlgorithms.Dfs | dsa-visualizer/dsa-visualizer/src/components/visualizers/graph-algorithms-visualizer.tsx:52-117 | depth-first search records a start step, then visits start first, visits no node twice, and visits exactly the nodes reachable from start |
| GraphAlgorithms.PushedTargets | dsa-visualizer/dsa-visualizer/src/components/visualizers/graph-algorithms-visualizer.tsx:95-100 | the pushed neighbours are the unvisited far ends of the current node's edges, all of them |
| GraphAlgorithms.DfsVisited | dsa-visualizer/dsa-visualizer/src/components/visualizers/graph-algorithms-visualizer.tsx:78-113 | visiting a popped unvisited node and pushing its unvisited neighbours keeps the loop state: visits distinct, pending nodes successors of visited ones, every successor of a visited node visited or pending |
| GraphAlgorithms.PushUnvisited | dsa-visualizer/dsa-visualizer/src/components/visualizers/graph-algorithms-visualizer.tsx:98-112 | the stack grows by the far ends of the edges in order, with one explore step per edge |
| GraphAlgorithms.Bfs | dsa-visualizer/dsa-visualizer/src/components/visualizers/graph-algorithms-visualizer.tsx:120-182 | breadth-first search records a start step, visits start and then exactly the nodes its explore steps reached, in that order, none twice, and visits exactly the nodes reachable from start |
| GraphAlgorithms.EnqueuesHold | dsa-visualizer/dsa-visualizer/src/components/visualizers/graph-algorithms-visualizer.tsx:162-166 | the nodes enqueued from a list of edges are unvisited far ends, each once, and every unvisited far end is enqueued |
| GraphAlgorithms.EnqueueNew | dsa-visualizer/dsa-visualizer/src/components/visualizers/graph-algorithms-visualizer.tsx:160-178 | the loop over the neighbours appends the enqueued far ends to the queue, records one explore step each and marks them visited |
| GraphAlgorithms.BfsVisited | dsa-visualizer/dsa-visualizer/src/components/visualizers/graph-algorithms-visualizer.tsx:147-179 | dequeuing a node and enqueuing its unvisited neighbours keeps the loop state: order plus queue distinct, grown from start, and every successor of a dequeued node visited |
| GraphAlgorithms.FirstOccurrencesHold | dsa-visualizer/dsa-visualizer/src/components/visualizers/graph-algorithms-visualizer.tsx:194-196 | the keys of the distance map are the node ids in first-insertion order, without repeats |
| GraphAlgorithms.InitDistances | dsa-visualizer/dsa-visualizer/src/components/visualizers/graph-algorithms-visualizer.tsx:193-196 | every node id gets distance 0 if it is start and infinity otherwise |
| GraphAlgorithms.SelectMin | dsa-visualizer/dsa-visualizer/src/components/visualizers/graph-algorithms-visualizer.tsx:219-230 | the scan returns -1 exactly when every unvisited node is at infinity, otherwise an unvisited node of least distance, the first such in map order |
| GraphAlgorithms.RelaxationKeys | dsa-visualizer/dsa-visualizer/src/components/visualizers/graph-algorithms-visualizer.tsx:245-268 | relaxing keeps the keys of the distance map and only gives parents to nodes of the map |
| GraphAlgorithms.RelaxationAt | dsa-visualizer/dsa-visualizer/src/components/visualizers/graph-algorithms-visualizer.tsx:246-253 | relaxing never raises a distance, leaves visited nodes alone, and a node either keeps its distance and parent or takes the current node as parent at the current distance plus an edge weight |
| GraphAlgorithms.RelaxationTight | dsa-visualizer/dsa-visualizer/src/components/visualizers/graph-algorithms-visualizer.tsx:246-253 | after relaxing, every unvisited neighbour is at most the current distance plus the edge's weight |
| GraphAlgorithms.RelaxationRecords | dsa-visualizer/dsa-visualizer/src/components/visualizers/graph-algorithms-visualizer.tsx:254-265 | relaxing appends only relax steps to the recorded steps |
| GraphAlgorithms.RelaxEdges | dsa-visualizer/dsa-visualizer/src/components/visualizers/graph-algorithms-visualizer.tsx:245-268 | the loop over the neighbours computes the relaxation of the current node's edges |
| GraphAlgorithms.DijkstraStep | dsa-visualizer/dsa-visualizer/src/components/visualizers/graph-algorithms-visualizer.tsx:232-268 | selecting a node and relaxing its edges keeps every parent a visited node whose distance plus an edge weight is the child's distance, and every reached node with a parent |
| GraphAlgorithms.Dijkstra | dsa-visualizer/dsa-visualizer/src/components/visualizers/graph-algorithms-visualizer.tsx:185-272 | Dijkstra's algorithm starts with an initialize step, keeps a distance for each node id, leaves visited nodes finite and each with a fitting parent edge, and stops only when every unvisited node is at infinity |
| GraphAlgorithms.TopoVisit | dsa-visualizer/dsa-visualizer/src/components/visualizers/graph-algorithms-visualizer.tsx:289-328 | the recursive visit puts node in front of the result after all nodes reachable through its unvisited edges, keeps the earlier result as the tail, lists nothing twice, and leaves every arc out of a listed node pointing later in the list or back into a cycle |
| GraphAlgorithms.TopoFinish | dsa-visualizer/dsa-visualizer/src/components/visualizers/graph-algorithms-visualizer.tsx:318 | prepending a node whose edges are all explored keeps the result ordered and every arc out of it pointing to a visited node |
| GraphAlgorithms.TopologicalSort | dsa-visualizer/dsa-visualizer/src/components/visualizers/graph-algorithms-visualizer.tsx:275-338 | the sort lists every node id once, is closed under arcs, and every arc out of a listed node points later in the list or closes a cycle |
| GraphAlgorithms.TopoOrderAcyclic | dsa-visualizer/dsa-visualizer/src/components/visualizers/graph-algorithms-visualizer.tsx:289-328 | on a graph without cycles every arc between listed nodes goes forward in the result, which is then a topological order |
| StringHash.ToInt32 | dsa-visualizer/dsa-visualizer/src/app/visualizer/bloom-filter/page.tsx:80 | `hash & hash` yields a signed 32-bit value congruent to the hash modulo 2^32 |
| StringHash.Int32Unique | dsa-visualizer/dsa-visualizer/src/app/visualizer/bloom-filter/page.tsx:80 | that value is the only one of the 32-bit range congruent to the hash |
| StringHash.ShiftLeftCongruent | dsa-visualizer/dsa-visualizer/src/app/visualizer/bloom-filter/page.tsx:79 | `hash << n` is the hash times 2^n modulo 2^32 |
| StringHash.HashLoop | dsa-visualizer/dsa-visualizer/src/app/visualizer/consistent-hashing/page.tsx:55-63 | the character loop of the string hash leaves the 32-bit hash value of the whole string |
| StringHash.HashValueIsPolynomial | dsa-visualizer/dsa-visualizer/src/app/visualizer/bloom-filter/page.tsx:75-83 | the string hash is Java's String.hashCode: the character codes as base-31 digits, as a signed 32-bit value |
| StringHash.HashMod | dsa-visualizer/dsa-visualizer/src/app/visualizer/consistent-hashing/page.tsx:62 | `Math.abs(hash) % m` lies in [0, m), so ring angles lie in [0, 360) |
| BloomFilterPage.JsRemainder | dsa-visualizer/dsa-visualizer/src/app/visualizer/bloom-filter/page.tsx:105 | JavaScript's remainder lies strictly between -m and m and is the ordinary remainder for a non-negative dividend |
| BloomFilterPage.HashAt | dsa-visualizer/dsa-visualizer/src/app/visualizer/bloom-filter/page.tsx:75-108 | each of the four hashes of an element lies in [0, size) |
| BloomFilterPage.Hash2IsDjb2 | dsa-visualizer/dsa-visualizer/src/app/visualizer/bloom-filter/page.tsx:85-91 | hash2's accumulator agrees with the djb2 hash (5381, times 33 plus the code) modulo 2^32 |
| BloomFilterPage.Hash3IsSdbm | dsa-visualizer/dsa-visualizer/src/app/visualizer/bloom-filter/page.tsx:93-99 | hash3's accumulator agrees with the sdbm hash (times 65599 plus the code) modulo 2^32 |
| BloomFilterPage.Hash4IsPolynomial | dsa-visualizer/dsa-visualizer/src/app/visualizer/bloom-filter/page.tsx:101-108 | for sizes below 2^28, hash4 is the character codes as base-9 digits modulo the size |
| BloomFilterPage.HashIndices | dsa-visualizer/dsa-visualizer/src/app/visualizer/bloom-filter/page.tsx:110-119 | an element picks min(k, 4) positions, each in [0, size) |
| BloomFilterPage.BitsNeverCleared | dsa-visualizer/dsa-visualizer/src/app/visualizer/bloom-filter/page.tsx:127-129 | adding only sets bits: a bit set after some adds stays set after any further adds |
| BloomFilterPage.NoFalseNegatives | dsa-visualizer/dsa-visualizer/src/app/visualizer/bloom-filter/page.tsx:121-151 | every element added is afterwards reported as possibly present, whatever is added later |
| BloomFilterPage.SetBitsPicked | dsa-visualizer/dsa-visualizer/src/app/visualizer/bloom-filter/page.tsx:136-151 | every set bit was picked by some added element, so a query is true only when each of its bits was |
| BloomFilterPage.BloomFilter.constructor | dsa-visualizer/dsa-visualizer/src/app/visualizer/bloom-filter/page.tsx:40-46 | a new filter has size clear bits, no elements and one init step |
| BloomFilterPage.BloomFilter.Hash1 | dsa-visualizer/dsa-visualizer/src/app/visualizer/bloom-filter/page.tsx:75-83 | hash1 is the 32-bit string hash reduced modulo the size |
| BloomFilterPage.BloomFilter.Hash2 | dsa-visualizer/dsa-visualizer/src/app/visualizer/bloom-filter/page.tsx:85-91 | the hash2 loop computes its accumulator, reduced modulo the size |
| BloomFilterPage.BloomFilter.Hash3 | dsa-visualizer/dsa-visualizer/src/app/visualizer/bloom-filter/page.tsx:93-99 | the hash3 loop computes its accumulator, reduced modulo the size |
| BloomFilterPage.BloomFilter.Hash4 | dsa-visualizer/dsa-visualizer/src/app/visualizer/bloom-filter/page.tsx:101-108 | the hash4 loop computes its accumulator, reduced modulo the size at every character |
| BloomFilterPage.BloomFilter.GetHashIndices | dsa-visualizer/dsa-visualizer/src/app/visualizer/bloom-filter/page.tsx:110-119 | the loop collects the first min(k, 4) hashes in order |
| BloomFilterPage.BloomFilter.Add | dsa-visualizer/dsa-visualizer/src/app/visualizer/bloom-filter/page.tsx:121-134 | add sets exactly the element's bits, keeps every other bit, counts the element and records the filter before and after |
| BloomFilterPage.BloomFilter.Query | dsa-visualizer/dsa-visualizer/src/app/visualizer/bloom-filter/page.tsx:136-151 | query answers whether every bit of the element is set, is true for every element added, changes no bit and records two steps, the second with the answer |
| ConsistentHashingPage.Hash | dsa-visualizer/dsa-visualizer/src/app/visualizer/consistent-hashing/page.tsx:55-63 | the angle of a string is the 32-bit string hash's absolute value reduced into [0, 360) |
| ConsistentHashingPage.HashAngle | dsa-visualizer/dsa-visualizer/src/app/visualizer/consistent-hashing/page.tsx:55-63 | the character loop computes exactly Hash |
| ConsistentHashingPage.ServerNodes | dsa-visualizer/dsa-visualizer/src/app/visualizer/consistent-hashing/page.tsx:69-74 | a server's k virtual nodes are node 0 to k-1, each named after the server id and placed at the hash of the server name and its index |
| ConsistentHashingPage.UnsortedLength | dsa-visualizer/dsa-visualizer/src/app/visualizer/consistent-hashing/page.tsx:67-77 | the nodes pushed number k per server |
| ConsistentHashingPage.UnsortedNodes | dsa-visualizer/dsa-visualizer/src/app/visualizer/consistent-hashing/page.tsx:67-77 | every node pushed is node i < k of one of the servers |
| ConsistentHashingPage.InsertByAngleAdds | dsa-visualizer/dsa-visualizer/src/app/visualizer/consistent-hashing/page.tsx:79 | placing a node adds exactly that node |
| ConsistentHashingPage.InsertByAngleSorted | dsa-visualizer/dsa-visualizer/src/app/visualizer/consistent-hashing/page.tsx:79 | placing a node into a ring sorted by angle keeps it sorted |
| ConsistentHashingPage.SortByAngleSorts | dsa-visualizer/dsa-visualizer/src/app/visualizer/consistent-hashing/page.tsx:79 | sorting by angle gives a permutation of the nodes in ascending angle |
| ConsistentHashingPage.GenerateVirtualNodes | dsa-visualizer/dsa-visualizer/src/app/visualizer/consistent-hashing/page.tsx:66-82 | the nested loops followed by the sort yield the sorted ring of all servers' virtual nodes |
| ConsistentHashingPage.GeneratedNodes | dsa-visualizer/dsa-visualizer/src/app/visualizer/consistent-hashing/page.tsx:66-82 | the generated ring has k nodes per server, is ascending by angle, and holds only the servers' own virtual nodes |
| ConsistentHashingPage.FirstAtLeast | dsa-visualizer/dsa-visualizer/src/app/visualizer/consistent-hashing/page.tsx:89-93 | the index found is the first node whose angle is at least the key's, or -1 when every node lies before it |
| ConsistentHashingPage.FindNextIsSuccessor | dsa-visualizer/dsa-visualizer/src/app/visualizer/consistent-hashing/page.tsx:85-97 | on a sorted ring the server found owns the nearest node clockwise: the least angle at or after the key's, or the least angle of all on wrap-around |
| ConsistentHashingPage.AssignKeys | dsa-visualizer/dsa-visualizer/src/app/visualizer/consistent-hashing/page.tsx:100-105 | every key keeps its id, value and angle and is assigned the server found for its angle |
| ConsistentHashingPage.FindAfterInsert | dsa-visualizer/dsa-visualizer/src/app/visualizer/consistent-hashing/page.tsx:79-96 | adding one node to a ring changes the server found for an angle at most to that node's server |
| ConsistentHashingPage.FindAfterAppend | dsa-visualizer/dsa-visualizer/src/app/visualizer/consistent-hashing/page.tsx:66-96 | sorting a ring with more nodes appended moves an angle only to the server of one of the new nodes |
| ConsistentHashingPage.AddServerMovesOnlyToIt | dsa-visualizer/dsa-visualizer/src/app/visualizer/consistent-hashing/page.tsx:119-121 | after a server joins, every key stays with its old server or moves to the new one |
| ConsistentHashingPage.WithoutServer | dsa-visualizer/dsa-visualizer/src/app/visualizer/consistent-hashing/page.tsx:143 | the remaining servers are exactly those whose id differs |
| ConsistentHashingPage.WithoutNodesMember | dsa-visualizer/dsa-visualizer/src/app/visualizer/consistent-hashing/page.tsx:143-144 | a node survives a removal exactly when it was there and belongs to another server |
| ConsistentHashingPage.UnsortedWithout | dsa-visualizer/dsa-visualizer/src/app/visualizer/consistent-hashing/page.tsx:143-144 | the nodes generated for the remaining servers are the old nodes minus the removed server's, in order |
| ConsistentHashingPage.WithoutInsert | dsa-visualizer/dsa-visualizer/src/app/visualizer/consistent-hashing/page.tsx:79 | on a sorted ring, dropping a server's nodes commutes with placing a node |
| ConsistentHashingPage.SortWithout | dsa-visualizer/dsa-visualizer/src/app/visualizer/consistent-hashing/page.tsx:79 | sorting and dropping a server's nodes commute |
| ConsistentHashingPage.FirstWithout | dsa-visualizer/dsa-visualizer/src/app/visualizer/consistent-hashing/page.tsx:89-93 | dropping other servers' nodes keeps the node found for an angle |
| ConsistentHashingPage.NoneAtLeastWithout | dsa-visualizer/dsa-visualizer/src/app/visualizer/consistent-hashing/page.tsx:89-95 | dropping nodes keeps an angle past every node on the wrap-around path |
| ConsistentHashingPage.RemoveServerMovesOnlyItsKeys | dsa-visualizer/dsa-visualizer/src/app/visualizer/consistent-hashing/page.tsx:142-145 | after a server leaves, every key it did not hold stays with its server |
| ConsistentHashingPage.Ring.constructor | dsa-visualizer/dsa-visualizer/src/app/visualizer/consistent-hashing/page.tsx:40-50 | the three initial servers at 90, 210 and 330 degrees, no keys, three virtual nodes per server, no steps |
| ConsistentHashingPage.Ring.AddServer | dsa-visualizer/dsa-visualizer/src/app/visualizer/consistent-hashing/page.tsx:108-139 | a blank name changes nothing; otherwise the server is appended, every key reassigned on the new ring (staying put or moving to the new server), one add-server step recorded and the step counter advanced |
| ConsistentHashingPage.Ring.RemoveServer | dsa-visualizer/dsa-visualizer/src/app/visualizer/consistent-hashing/page.tsx:142-162 | the servers with that id are dropped, every key reassigned, keys not on the removed server keep their server, one remove-server step recorded |
| ConsistentHashingPage.Ring.AddKey | dsa-visualizer/dsa-visualizer/src/app/visualizer/consistent-hashing/page.tsx:165-193 | a blank value changes nothing; otherwise the key joins at its hash, all keys are reassigned, one add-key step recorded |
| ConsistentHashingPage.Ring.RemoveKey | dsa-visualizer/dsa-visualizer/src/app/visualizer/consistent-hashing/page.tsx:196-214 | the keys with that id are dropped without reassigning the others, one remove-key step recorded |
| ConsistentHashingPage.WithoutKey | dsa-visualizer/dsa-visualizer/src/app/visualizer/consistent-hashing/page.tsx:197 | the remaining keys are exactly those whose id differs |
| ConsistentHashingPage.WithoutKeyKeepsOthers | dsa-visualizer/dsa-visualizer/src/app/visualizer/consistent-hashing/page.tsx:197 | removing a key never adds keys, removes all of them only when all carry that id, and none when none does |
| ConsistentHashingPage.Ring.SetVirtualNodesPerServer | dsa-visualizer/dsa-visualizer/src/app/visualizer/consistent-hashing/page.tsx:494-499 | the slider sets the count between 1 and 5 and changes nothing else |
| ConsistentHashingPage.DemoKeys | dsa-visualizer/dsa-visualizer/src/app/visualizer/consistent-hashing/page.tsx:218-223 | four unassigned demo keys, each at the hash of its value |
| ConsistentHashingPage.Ring.InitializeDemo | dsa-visualizer/dsa-visualizer/src/app/visualizer/consistent-hashing/page.tsx:217-241 | the demo keys assigned on the current ring and a single setup step at position 0 |
| ConsistentHashingPage.Ring.ResetDemo | dsa-visualizer/dsa-visualizer/src/app/visualizer/consistent-hashing/page.tsx:244-248 | keys and steps cleared, step counter 0, servers kept |
| HashTableVisualizer.DivisionHash | dsa-visualizer/dsa-visualizer/src/components/visualizers/hash-table-visualizer.tsx:48-54 | the hash is the sum of the key's character codes modulo the table size, always a valid chain index |
| HashTableVisualizer.HashKey | dsa-visualizer/dsa-visualizer/src/components/visualizers/hash-table-visualizer.tsx:48-54 | the accumulator loop computes exactly DivisionHash |
| HashTableVisualizer.AnagramsCollide | dsa-visualizer/dsa-visualizer/src/components/visualizers/hash-table-visualizer.tsx:48-54 | keys with the same characters in any order land in the same chain |
| HashTableVisualizer.FindIndex | dsa-visualizer/dsa-visualizer/src/components/visualizers/hash-table-visualizer.tsx:93 | the index found holds the key and no earlier entry does; -1 exactly when no entry holds it |
| HashTableVisualizer.FirstValueAt | dsa-visualizer/dsa-visualizer/src/components/visualizers/hash-table-visualizer.tsx:175 | the value search reports is that of the entry findIndex finds |
| HashTableVisualizer.EmptyTable | dsa-visualizer/dsa-visualizer/src/components/visualizers/hash-table-visualizer.tsx:69-75 | a fresh table is well formed, holds no entries and maps no key |
| HashTableVisualizer.InsertWellFormed | dsa-visualizer/dsa-visualizer/src/components/visualizers/hash-table-visualizer.tsx:91-115 | insert keeps every entry in the chain of its hash and each key at most once per chain |
| HashTableVisualizer.InsertLookup | dsa-visualizer/dsa-visualizer/src/components/visualizers/hash-table-visualizer.tsx:91-115 | after insert the key maps to the new value and every other key keeps its value |
| HashTableVisualizer.InsertCount | dsa-visualizer/dsa-visualizer/src/components/visualizers/hash-table-visualizer.tsx:91-115 | insert adds one entry for a new key and none when it updates an existing one |
| HashTableVisualizer.RemoveWellFormed | dsa-visualizer/dsa-visualizer/src/components/visualizers/hash-table-visualizer.tsx:250-259 | remove keeps the table well formed |
| HashTableVisualizer.RemoveLookup | dsa-visualizer/dsa-visualizer/src/components/visualizers/hash-table-visualizer.tsx:250-259 | after remove the key is absent and every other key keeps its value |
| HashTableVisualizer.RemoveCount | dsa-visualizer/dsa-visualizer/src/components/visualizers/hash-table-visualizer.tsx:250-259 | remove deletes one entry exactly when the key was present |
| HashTableVisualizer.TotalCountsEntries | dsa-visualizer/dsa-visualizer/src/components/visualizers/hash-table-visualizer.tsx:144 | the reduce over chain lengths counts the entries collected chain by chain |
| HashTableVisualizer.CountEntries | dsa-visualizer/dsa-visualizer/src/components/visualizers/hash-table-visualizer.tsx:144 | the reduce loop computes the entry count |
| HashTableVisualizer.CollectEntries | dsa-visualizer/dsa-visualizer/src/components/visualizers/hash-table-visualizer.tsx:299-304 | the nested forEach collects the entries chain by chain, in order |
| HashTableVisualizer.RehashAll | dsa-visualizer/dsa-visualizer/src/components/visualizers/hash-table-visualizer.tsx:313-316 | the rehash loop pushes each entry onto the chain of its new hash, recording that hash |
| HashTableVisualizer.RehashChains | dsa-visualizer/dsa-visualizer/src/components/visualizers/hash-table-visualizer.tsx:313-316 | chain h after rehashing holds, in their old order, exactly the entries whose key hashes to h |
| HashTableVisualizer.FlattenFirstValue | dsa-visualizer/dsa-visualizer/src/components/visualizers/hash-table-visualizer.tsx:299-304 | in a well-formed table the first collected entry with a key is the one lookup finds |
| HashTableVisualizer.FlattenDistinct | dsa-visualizer/dsa-visualizer/src/components/visualizers/hash-table-visualizer.tsx:299-304 | a well-formed table holds each key at most once in total |
| HashTableVisualizer.RehashCount | dsa-visualizer/dsa-visualizer/src/components/visualizers/hash-table-visualizer.tsx:313-318 | rehashing keeps every entry, so the count is the number collected |
| HashTableVisualizer.RehashPreserves | dsa-visualizer/dsa-visualizer/src/components/visualizers/hash-table-visualizer.tsx:296-321 | resizing gives a well-formed table of the new size with the same entry count and the same value for every key |
| HashTableVisualizer.HashTable.constructor | dsa-visualizer/dsa-visualizer/src/components/visualizers/hash-table-visualizer.tsx:31-35 | seven empty chains and load factor 0 |
| HashTableVisualizer.HashTable.Reset | dsa-visualizer/dsa-visualizer/src/components/visualizers/hash-table-visualizer.tsx:69-75 | empty chains of the same size and load factor 0 |
| HashTableVisualizer.HashTable.Insert | dsa-visualizer/dsa-visualizer/src/components/visualizers/hash-table-visualizer.tsx:78-158 | a blank key or value changes nothing; otherwise the table is the chaining insert of the old one, the key maps to the value, other keys are unchanged, the count grows only for a new key, and the load factor is count over size |
| HashTableVisualizer.HashTable.Search | dsa-visualizer/dsa-visualizer/src/components/visualizers/hash-table-visualizer.tsx:160-187 | a blank key finds nothing; otherwise the value stored under the key, or none |
| HashTableVisualizer.HashTable.Remove | dsa-visualizer/dsa-visualizer/src/components/visualizers/hash-table-visualizer.tsx:239-294 | a blank key changes nothing; otherwise the key is gone, other keys are unchanged, the count drops only when it was present, and the load factor is recomputed |
| HashTableVisualizer.HashTable.Resize | dsa-visualizer/dsa-visualizer/src/components/visualizers/hash-table-visualizer.tsx:296-321 | the table becomes the rehash of all entries at the new size, keeps its count and every key's value, and the load factor is count over the new size |
| DynamicProgramming.FibonacciSteps | dsa-visualizer/dsa-visualizer/src/components/visualizers/enhanced-dynamic-programming-visualizer.tsx:160-216 | the table holds F(0)..F(n) (two cells when n = 0, as writing dp[1] extends the array), steps 0..n are compute steps at (0, k) showing F(k), and step n+1 is the solution at (0, n) showing F(n) |
| DynamicProgramming.FibSumIdentity | dsa-visualizer/dsa-visualizer/src/components/visualizers/enhanced-dynamic-programming-visualizer.tsx:192-193 | the values the recurrence fills in satisfy F(1) + ... + F(n) = F(n+2) - 1 |
| DynamicProgramming.LcsStepsOf | dsa-visualizer/dsa-visualizer/src/components/visualizers/enhanced-dynamic-programming-visualizer.tsx:219-311 | every cell (i, j) of the table holds the LCS length of the prefixes of length i and j, every step is numbered by its position and shows its cell's value, the returned string is the backtracked one, and the last step is the solution at (m, n) showing the LCS length |
| DynamicProgramming.LcsFillRow | dsa-visualizer/dsa-visualizer/src/components/visualizers/enhanced-dynamic-programming-visualizer.tsx:251-277 | filling row i by the recurrence (diagonal plus one on a match, else the larger of up and left) extends the correct region of the table by that row |
| DynamicProgramming.LcsCell | dsa-visualizer/dsa-visualizer/src/components/visualizers/enhanced-dynamic-programming-visualizer.tsx:253-265 | the recurrence the fill loop applies agrees with the LCS length of the prefixes |
| DynamicProgramming.LcsTrace | dsa-visualizer/dsa-visualizer/src/components/visualizers/enhanced-dynamic-programming-visualizer.tsx:279-298 | the backtrack loop returns LcsBacktrack of the two strings, and every step it records shows the LCS length of its cell's prefixes |
| DynamicProgramming.LcsTraceStep | dsa-visualizer/dsa-visualizer/src/components/visualizers/enhanced-dynamic-programming-visualizer.tsx:282-297 | one move takes a matching character diagonally, else goes up when the cell above is strictly larger, else left, and keeps the unread part followed by the read part equal to the whole result |
| DynamicProgramming.BacktrackCell | dsa-visualizer/dsa-visualizer/src/components/visualizers/enhanced-dynamic-programming-visualizer.tsx:283-297 | the backtrack's choice at a cell, decided by the table's neighbouring cells, is the choice of LcsBacktrack on the prefixes |
| DynamicProgramming.LcsBacktrackIsLongest | dsa-visualizer/dsa-visualizer/src/components/visualizers/enhanced-dynamic-programming-visualizer.tsx:279-298 | the backtracked string has the table's length and is a subsequence of both strings |
| DynamicProgramming.LcsIsUpperBound | dsa-visualizer/dsa-visualizer/src/components/visualizers/enhanced-dynamic-programming-visualizer.tsx:251-277 | no common subsequence of the two strings is longer than the table's value, so the table computes the longest |
| DynamicProgramming.LcsDropLeft | dsa-visualizer/dsa-visualizer/src/components/visualizers/enhanced-dynamic-programming-visualizer.tsx:265 | dropping the last character of the first string never lengthens the LCS |
| DynamicProgramming.LcsDropRightByOne | dsa-visualizer/dsa-visualizer/src/components/visualizers/enhanced-dynamic-programming-visualizer.tsx:254 | dropping the last character of the second string shortens the LCS by at most one |
| DynamicProgramming.LcsSymmetric | dsa-visualizer/dsa-visualizer/src/components/visualizers/enhanced-dynamic-programming-visualizer.tsx:251-277 | the LCS length does not depend on the order of the strings |
| DynamicProgramming.LcsAtMostShorter | dsa-visualizer/dsa-visualizer/src/components/visualizers/enhanced-dynamic-programming-visualizer.tsx:251-277 | the LCS length is at most the shorter string's length |
| DynamicProgramming.EditDistanceSteps | dsa-visualizer/dsa-visualizer/src/components/visualizers/enhanced-dynamic-programming-visualizer.tsx:317-394 | the first column holds i and the first row j, every cell holds the edit distance of its prefixes, every step shows its cell's value, and the last step is the solution at (m, n) showing the distance |
| DynamicProgramming.EdFillRow | dsa-visualizer/dsa-visualizer/src/components/visualizers/enhanced-dynamic-programming-visualizer.tsx:351-381 | filling row i (copy the diagonal on a match, else the least of insert, delete and replace plus one) extends the correct region of the table by that row |
| DynamicProgramming.EdCell | dsa-visualizer/dsa-visualizer/src/components/visualizers/enhanced-dynamic-programming-visualizer.tsx:353-368 | the recurrence the fill loop applies agrees with the edit distance of the prefixes |
| DynamicProgramming.EdAtMostLonger | dsa-visualizer/dsa-visualizer/src/components/visualizers/enhanced-dynamic-programming-visualizer.tsx:351-381 | the distance is at most the longer string's length |
| DynamicProgramming.EdAtLeastLengthGap | dsa-visualizer/dsa-visualizer/src/components/visualizers/enhanced-dynamic-programming-visualizer.tsx:351-381 | the distance is at least the difference of the lengths |
| DynamicProgramming.EdZeroIffEqual | dsa-visualizer/dsa-visualizer/src/components/visualizers/enhanced-dynamic-programming-visualizer.tsx:351-381 | the distance is zero if and only if the strings are equal |
| DynamicProgramming.EdSymmetric | dsa-visualizer/dsa-visualizer/src/components/visualizers/enhanced-dynamic-programming-visualizer.tsx:351-381 | the distance does not depend on the order of the strings |
| DynamicProgramming.KnapsackSteps | dsa-visualizer/dsa-visualizer/src/components/visualizers/enhanced-dynamic-programming-visualizer.tsx:397-459 | row 0 holds zeros, every cell (i, w) holds the best value of the first i items within capacity w, every step shows its cell's value, and the last step is the solution at (n, W) |
| DynamicProgramming.KnapFillRow | dsa-visualizer/dsa-visualizer/src/components/visualizers/enhanced-dynamic-programming-visualizer.tsx:416-446 | filling row i (the larger of taking the item and leaving it when it fits, else leaving it) extends the correct region of the table by that row |
| DynamicProgramming.KnapIsUpperBound | dsa-visualizer/dsa-visualizer/src/components/visualizers/enhanced-dynamic-programming-visualizer.tsx:416-446 | no selection of items whose weights fit the capacity is worth more than the table's value |
| DynamicProgramming.KnapIsAchieved | dsa-visualizer/dsa-visualizer/src/components/visualizers/enhanced-dynamic-programming-visualizer.tsx:416-446 | the table's value is the value of a selection whose weight fits the capacity, so it is the optimum |
| DynamicProgramming.GenerateSteps | dsa-visualizer/dsa-visualizer/src/components/visualizers/enhanced-dynamic-programming-visualizer.tsx:462-486 | the last step is a solution step showing F(n), the LCS length, the edit distance or the best knapsack value for the selected algorithm, and F(n) for coin change, matrix chain and LIS, which fall to the default case |
| DynamicProgramming.KnapMonotone | dsa-visualizer/dsa-visualizer/src/components/visualizers/enhanced-dynamic-programming-visualizer.tsx:416-446 | every row of the table is non-decreasing in the capacity |
| Pathfinding.NeighboursExactly | dsa-visualizer/dsa-visualizer/src/components/visualizers/pathfinding-visualizer.tsx:542-550 | the neighbours of a cell are exactly the unvisited in-grid cells above, below, left and right of it, each once |
| Pathfinding.ChainFromStart | dsa-visualizer/dsa-visualizer/src/components/visualizers/pathfinding-visualizer.tsx:562-570 | following the previous links back from a visited or linked cell ends at the start cell, and from a visited cell the chain is a walk of adjacent non-wall grid cells |
| Pathfinding.ShortestPathOrder | dsa-visualizer/dsa-visualizer/src/components/visualizers/pathfinding-visualizer.tsx:562-570 | the loop that puts each cell in front while following previous links from finish yields exactly the chain of links read back, start first |
| Pathfinding.OutcomeFindsReachable | dsa-visualizer/dsa-visualizer/src/components/visualizers/pathfinding-visualizer.tsx:573-597 | for any finished search (BFS, DFS, Dijkstra or A*), finish is among the visited cells exactly when some wall-free walk leads from start to finish |
| Pathfinding.PathFromOutcome | dsa-visualizer/dsa-visualizer/src/components/visualizers/pathfinding-visualizer.tsx:562-570 | the path read back from a non-wall finish other than start has more than one cell exactly when finish is reachable, is then a walk from start to finish, and is otherwise finish alone |
| Pathfinding.EnqueueAll | dsa-visualizer/dsa-visualizer/src/components/visualizers/pathfinding-visualizer.tsx:587-594 | the BFS inner loop appends the unvisited neighbours to the queue in order, marks them visited and links each to the current cell, leaving other links unchanged |
| Pathfinding.Bfs | dsa-visualizer/dsa-visualizer/src/components/visualizers/pathfinding-visualizer.tsx:573-597 | BFS visits distinct non-wall cells start first, stops right after visiting finish, and otherwise has visited every cell reachable from start; each cell is enqueued at most once and the links form a tree of walks from start |
| Pathfinding.Reversed | dsa-visualizer/dsa-visualizer/src/components/visualizers/pathfinding-visualizer.tsx:616 | reversing the neighbours keeps their number and their members |
| Pathfinding.PushAll | dsa-visualizer/dsa-visualizer/src/components/visualizers/pathfinding-visualizer.tsx:615-619 | the DFS inner loop pushes the neighbours in the given order and links each to the current cell, leaving other links unchanged |
| Pathfinding.Dfs | dsa-visualizer/dsa-visualizer/src/components/visualizers/pathfinding-visualizer.tsx:600-624 | DFS skips visited cells and walls, visits distinct non-wall cells start first, stops right after visiting finish, and otherwise has visited every cell reachable from start; the links form a tree of walks from start |
| Pathfinding.SortByScoreSorted | dsa-visualizer/dsa-visualizer/src/components/visualizers/pathfinding-visualizer.tsx:530-532 | sorting by distance (or f score) returns a permutation of the cells in non-decreasing score order, cells without a score (Infinity) last |
| Pathfinding.SortByScoreStable | dsa-visualizer/dsa-visualizer/src/components/visualizers/pathfinding-visualizer.tsx:530-532 | the sort is stable: cells with equal scores keep their relative order |
| Pathfinding.InsertSorted | dsa-visualizer/dsa-visualizer/src/components/visualizers/pathfinding-visualizer.tsx:530-532 | inserting one cell into a score-sorted list keeps it sorted and adds exactly that cell |
| Pathfinding.SortedCells | dsa-visualizer/dsa-visualizer/src/components/visualizers/pathfinding-visualizer.tsx:514-516 | the cell taken from the front of the sorted list has the least score of all the cells, and if it has no score then no cell has one |
| Pathfinding.RowMajorHolds | dsa-visualizer/dsa-visualizer/src/components/visualizers/pathfinding-visualizer.tsx:552-560 | the list of all nodes holds every grid cell exactly once |
| Pathfinding.AllNodes | dsa-visualizer/dsa-visualizer/src/components/visualizers/pathfinding-visualizer.tsx:552-560 | the nested loop lists the cells row by row, left to right |
| Pathfinding.UpdateNeighbours | dsa-visualizer/dsa-visualizer/src/components/visualizers/pathfinding-visualizer.tsx:534-540 | every unvisited neighbour gets the current distance plus one and is linked to the current cell, overwriting any earlier value; other cells keep theirs |
| Pathfinding.ChainLength | dsa-visualizer/dsa-visualizer/src/components/visualizers/pathfinding-visualizer.tsx:562-570 | when distances and links agree, the path read back from a cell has exactly its distance plus one cells |
| Pathfinding.Dijkstra | dsa-visualizer/dsa-visualizer/src/components/visualizers/pathfinding-visualizer.tsx:509-528 | Dijkstra visits distinct non-wall cells start first, stops at finish or at the first closest cell with infinite distance, and otherwise has visited every reachable cell; each cell's distance is its link's distance plus one, start at 0 |
| Pathfinding.HeuristicZero | dsa-visualizer/dsa-visualizer/src/components/visualizers/pathfinding-visualizer.tsx:664-667 | the Manhattan heuristic is zero exactly at the target |
| Pathfinding.HeuristicConsistent | dsa-visualizer/dsa-visualizer/src/components/visualizers/pathfinding-visualizer.tsx:664-667 | the heuristic of two adjacent cells differs by exactly one |
| Pathfinding.HeuristicAdmissible | dsa-visualizer/dsa-visualizer/src/components/visualizers/pathfinding-visualizer.tsx:664-667 | the heuristic never exceeds the number of steps of a walk between the two cells |
| Pathfinding.FreshDistinct | dsa-visualizer/dsa-visualizer/src/components/visualizers/pathfinding-visualizer.tsx:655-657 | the neighbours A* adds to the open set are distinct and were not open before |
| Pathfinding.RelaxAllG | dsa-visualizer/dsa-visualizer/src/components/visualizers/pathfinding-visualizer.tsx:648-654 | relaxing the neighbours sets the g score of each improved neighbour to the current g plus one and leaves every other score unchanged |
| Pathfinding.RelaxAllOpen | dsa-visualizer/dsa-visualizer/src/components/visualizers/pathfinding-visualizer.tsx:655-657 | a neighbour joins the open set, at the end, only when its score improved and it was not already open |
| Pathfinding.Relax | dsa-visualizer/dsa-visualizer/src/components/visualizers/pathfinding-visualizer.tsx:647-659 | the A* relaxation loop gives each neighbour with a better tentative g score the new g, the f score g + h and a link to the current cell, and appends it to the open set if not already there; nothing else changes |
| Pathfinding.AStar | dsa-visualizer/dsa-visualizer/src/components/visualizers/pathfinding-visualizer.tsx:628-662 | A* visits distinct non-wall cells start first, stops right after visiting finish, and otherwise has visited every reachable cell; f = g + h for every scored cell and g agrees with the links, start at 0 |
| Pathfinding.Board.ToggleWall | dsa-visualizer/dsa-visualizer/src/components/visualizers/pathfinding-visualizer.tsx:491-506 | toggling a cell flips it between wall and free unless it is the start or finish cell, which never become walls |
| Pathfinding.Board.GenerateMaze | dsa-visualizer/dsa-visualizer/src/components/visualizers/pathfinding-visualizer.tsx:124-140 | the maze walls are the randomly drawn grid cells other than start and finish |
| Pathfinding.Board.ClearGrid | dsa-visualizer/dsa-visualizer/src/components/visualizers/pathfinding-visualizer.tsx:143-157 | clearing the grid removes every wall |
| Pathfinding.Board.Visualize | dsa-visualizer/dsa-visualizer/src/components/visualizers/pathfinding-visualizer.tsx:159-196 | the visited list holds distinct non-wall grid cells, start first, and is empty only for an unknown algorithm; the path has more than one cell exactly when a search ran and finish is reachable, and is then a walk from start to finish |
| LruCache.KeyIndex | dsa-visualizer/dsa-visualizer/src/app/visualizer/lru-cache/page.tsx:207-208 | the index of the first entry with the key, or -1 exactly when no entry has it |
| LruCache.GetKeeps | dsa-visualizer/dsa-visualizer/src/app/visualizer/lru-cache/page.tsx:205-223 | on distinct keys, `get` keeps the keys distinct and every key's value; a hit puts the key's entry first and keeps the same entries, a miss changes nothing |
| LruCache.PutLookup | dsa-visualizer/dsa-visualizer/src/app/visualizer/lru-cache/page.tsx:225-263 | after `put`, the key holds the new value, the key of the evicted least recently used entry (if one was evicted) holds nothing, every other key keeps its value, and keys stay distinct |
| LruCache.PutSize | dsa-visualizer/dsa-visualizer/src/app/visualizer/lru-cache/page.tsx:249-259 | `put` keeps the number of entries when the key was cached or one is evicted and adds one otherwise, so a cache within max(capacity, 1) entries stays within it |
| LruCache.PutCached | dsa-visualizer/dsa-visualizer/src/app/visualizer/lru-cache/page.tsx:228-235 | for a cached key, `put` is its entry with the new value moved to the front |
| LruCache.NodeMapInsert | dsa-visualizer/dsa-visualizer/src/app/visualizer/lru-cache/page.tsx:258-259 | entering a new key for a new node listed first keeps the node map one to one with the listed nodes |
| LruCache.NodeMapEvict | dsa-visualizer/dsa-visualizer/src/app/visualizer/lru-cache/page.tsx:251-253 | dropping the last node and deleting its key keeps the node map one to one with the listed nodes |
| LruCache.MapSize | dsa-visualizer/dsa-visualizer/src/app/visualizer/lru-cache/page.tsx:249 | with the node map one to one with the listed nodes, `Object.keys(hashMap).length` is the number of cached entries |
| LruCache.LinkedRemove | dsa-visualizer/dsa-visualizer/src/app/visualizer/lru-cache/page.tsx:180-188 | unlinking a node joins its two neighbours and leaves every other link of the chain |
| LruCache.LinkedPush | dsa-visualizer/dsa-visualizer/src/app/visualizer/lru-cache/page.tsx:167-178 | linking a node in after HEAD links HEAD, the node and the old first node both ways and leaves the rest of the chain |
| LruCache.LRUCache.constructor | dsa-visualizer/dsa-visualizer/src/app/visualizer/lru-cache/page.tsx:55-83 | HEAD and TAIL linked to each other, no entries, the given capacity, no operations counted |
| LruCache.LRUCache.EntriesDistinct | dsa-visualizer/dsa-visualizer/src/app/visualizer/lru-cache/page.tsx:50 | no key is cached twice |
| LruCache.LRUCache.KeyCached | dsa-visualizer/dsa-visualizer/src/app/visualizer/lru-cache/page.tsx:207 | a key is in the node map exactly when an entry has it, and its node is listed where that entry is |
| LruCache.LRUCache.AddToHead | dsa-visualizer/dsa-visualizer/src/app/visualizer/lru-cache/page.tsx:167-178 | the node becomes the first of the chain, which stays a doubly linked list from HEAD to TAIL; nothing else changes |
| LruCache.LRUCache.RemoveNode | dsa-visualizer/dsa-visualizer/src/app/visualizer/lru-cache/page.tsx:180-188 | the node at index j leaves the chain, which stays doubly linked; nothing else changes |
| LruCache.LRUCache.MoveToHead | dsa-visualizer/dsa-visualizer/src/app/visualizer/lru-cache/page.tsx:190-193 | the node at index j moves to the front, and so does its entry; the same nodes stay listed |
| LruCache.LRUCache.RemoveTail | dsa-visualizer/dsa-visualizer/src/app/visualizer/lru-cache/page.tsx:195-203 | on an empty cache nothing, else the last listed node is unlinked and returned |
| LruCache.LRUCache.Get | dsa-visualizer/dsa-visualizer/src/app/visualizer/lru-cache/page.tsx:205-223 | the result is the value cached under the key, the entries become those of `get`, the invariant holds, one operation is counted and one hit exactly when the key was cached |
| LruCache.LRUCache.Put | dsa-visualizer/dsa-visualizer/src/app/visualizer/lru-cache/page.tsx:225-263 | the entries become those of `put`, the invariant (chain, node map, at most max(capacity, 1) entries) holds, one operation is counted |
| LruCache.LRUCache.Update | dsa-visualizer/dsa-visualizer/src/app/visualizer/lru-cache/page.tsx:228-236 | for a cached key the entries become those of `put` and the invariant holds |
| LruCache.LRUCache.PutNew | dsa-visualizer/dsa-visualizer/src/app/visualizer/lru-cache/page.tsx:237-262 | for a new key the entries become those of `put`: evicting the last entry when the node map holds capacity keys or more, then entering the new one first |
| LruCache.LRUCache.Evict | dsa-visualizer/dsa-visualizer/src/app/visualizer/lru-cache/page.tsx:249-256 | the last entry, if any, is removed and its key leaves the node map; the invariant holds |
| LruCache.LRUCache.Insert | dsa-visualizer/dsa-visualizer/src/app/visualizer/lru-cache/page.tsx:239-259 | with room left, the new entry is first, ahead of the old entries, and the invariant holds |
| LruCache.ApplyValid | dsa-visualizer/dsa-visualizer/src/app/visualizer/lru-cache/page.tsx:302-309 | one replayed step keeps the keys distinct and within max(capacity, 1) entries |
| LruCache.ReplayedValid | dsa-visualizer/dsa-visualizer/src/app/visualizer/lru-cache/page.tsx:298-312 | whatever steps are replayed, the cache caches no key twice and holds at most max(capacity, 1) entries |
| LruCache.Reconstruct | dsa-visualizer/dsa-visualizer/src/app/visualizer/lru-cache/page.tsx:298-312 | the rebuilt cache satisfies the invariant, has the given capacity, and holds the entries of replaying the steps up to the current one |
| Trie.WalkDepth | dsa-visualizer/dsa-visualizer/src/app/visualizer/trie/page.tsx:91 | the whole of a word can be followed from a node exactly when the number of its leading characters that have edges is its length |
| Trie.SpellingUnique | dsa-visualizer/dsa-visualizer/src/app/visualizer/trie/page.tsx:91-111 | two nodes spelt by the same path are the same node, so a prefix never gets a second node |
| Trie.Grow | dsa-visualizer/dsa-visualizer/src/app/visualizer/trie/page.tsx:91-111 | creating a missing child keeps the trie well formed: every edge leads to a later node spelt by its parent's spelling and the character, every node is reached by following its spelling, and every earlier edge stays |
| Trie.SubSplit | dsa-visualizer/dsa-visualizer/src/app/visualizer/trie/page.tsx:245-251 | the nodes below a node are the node itself and the nodes below its children |
| Trie.SpeltCount | dsa-visualizer/dsa-visualizer/src/app/visualizer/trie/page.tsx:246 | distinct end-of-word nodes spell distinct words, so counting end-of-word nodes counts the stored words |
| Trie.Trie.constructor | dsa-visualizer/dsa-visualizer/src/app/visualizer/trie/page.tsx:41-51 | the root alone, with no children, not ending a word and no flags: no words stored |
| Trie.Trie.ResetNodeStates | dsa-visualizer/dsa-visualizer/src/app/visualizer/trie/page.tsx:232-236 | every node loses its active and highlighted flags |
| Trie.Trie.WordsWalk | dsa-visualizer/dsa-visualizer/src/app/visualizer/trie/page.tsx:212 | a word is stored exactly when following it from the root ends at an end-of-word node |
| Trie.Trie.PrefixPath | dsa-visualizer/dsa-visualizer/src/app/visualizer/trie/page.tsx:212-215 | every prefix of a stored word has a path from the root, so a search for it reaches its last node |
| Trie.Trie.InsertWord | dsa-visualizer/dsa-visualizer/src/app/visualizer/trie/page.tsx:59-150 | the trie stays well formed, the words become the old words plus the new one, every edge stays, exactly the characters past the longest existing path get new nodes (none exactly when the whole path exists), and all flags are cleared |
| Trie.Trie.FollowWord | dsa-visualizer/dsa-visualizer/src/app/visualizer/trie/page.tsx:76-125 | the walk ends at the node spelt by the word, keeping every edge and spelling and creating one node per character past the longest existing path |
| Trie.Trie.Descend | dsa-visualizer/dsa-visualizer/src/app/visualizer/trie/page.tsx:77-124 | one character: an existing child is reused and nothing changes, a missing one becomes a new childless node; the node reached is spelt by the current node's spelling and the character, and it is highlighted |
| Trie.Trie.AddNode | dsa-visualizer/dsa-visualizer/src/app/visualizer/trie/page.tsx:92-103 | the new node is the next number, the child of the current node on the character, with no children; the trie stays well formed |
| Trie.Trie.SearchInTrie | dsa-visualizer/dsa-visualizer/src/app/visualizer/trie/page.tsx:153-229 | found exactly when the word is stored: a missing child means not found, and a path that ends at a node not ending a word is not found; all flags end cleared |
| Trie.Trie.CalculateStats | dsa-visualizer/dsa-visualizer/src/app/visualizer/trie/page.tsx:239-256 | the node count is the number of nodes, the word count is the number of distinct stored words, and the depth is the length of the longest spelling |
| Trie.Dfs | dsa-visualizer/dsa-visualizer/src/app/visualizer/trie/page.tsx:244-252 | from a node at its own level, adds the number of nodes below it (not counting itself), the number of end-of-word nodes below it (counting itself), and raises the depth to the deepest of them |
| Trie.BuildTrie | dsa-visualizer/dsa-visualizer/src/app/visualizer/trie/page.tsx:291-321 | after inserting every word the stored words are exactly the distinct words given, the word count is their number and the node count the number of nodes |
| BinarySearchTree.DepthCount | dsa-visualizer/dsa-visualizer/src/components/visualizers/binary-search-tree-visualizer.tsx:115-123 | the depth of a tree is at most its node count, and the node count is below 2 to the power of the depth |
| BinarySearchTree.TraversalsAgree | dsa-visualizer/dsa-visualizer/src/components/visualizers/binary-search-tree-visualizer.tsx:408-439 | in-order, pre-order and post-order each list every value of the tree once: the same multiset, as many entries as nodes, and exactly the tree's values |
| BinarySearchTree.InOrderSorted | dsa-visualizer/dsa-visualizer/src/components/visualizers/binary-search-tree-visualizer.tsx:408-417 | the in-order listing of a search tree is strictly increasing |
| BinarySearchTree.BstCount | dsa-visualizer/dsa-visualizer/src/components/visualizers/binary-search-tree-visualizer.tsx:269-283 | a search tree has as many nodes as distinct values |
| BinarySearchTree.InsertNodeCorrect | dsa-visualizer/dsa-visualizer/src/components/visualizers/binary-search-tree-visualizer.tsx:269-283 | inserting reports a duplicate exactly when the value is present and then changes nothing; otherwise the value is added, one node more, and the tree stays a search tree |
| BinarySearchTree.SearchTreeCorrect | dsa-visualizer/dsa-visualizer/src/components/visualizers/binary-search-tree-visualizer.tsx:298-308 | in a search tree the search finds a value exactly when it is present |
| BinarySearchTree.FindMin | dsa-visualizer/dsa-visualizer/src/components/visualizers/binary-search-tree-visualizer.tsx:327-329 | the value found by following left children is in the tree |
| BinarySearchTree.FindMinLeast | dsa-visualizer/dsa-visualizer/src/components/visualizers/binary-search-tree-visualizer.tsx:327-329 | in a search tree that value is the smallest |
| BinarySearchTree.DeleteNodeCorrect | dsa-visualizer/dsa-visualizer/src/components/visualizers/binary-search-tree-visualizer.tsx:332-351 | deleting reports not found exactly when the value is absent and then changes nothing; otherwise exactly that value goes, one node fewer, and the tree stays a search tree |
| BinarySearchTree.Statistics | dsa-visualizer/dsa-visualizer/src/components/visualizers/binary-search-tree-visualizer.tsx:126-141 | the statistics count each kind of history entry, the depth is at most the node count, and the three counted kinds never exceed the number of entries |
| BinarySearchTree.KindsPartition | dsa-visualizer/dsa-visualizer/src/components/visualizers/binary-search-tree-visualizer.tsx:127-130 | insertions, deletions and searches together number at most the history's length |
| BinarySearchTree.CountKindSnoc | dsa-visualizer/dsa-visualizer/src/components/visualizers/binary-search-tree-visualizer.tsx:144-152 | logging one entry adds one to the count of its kind and leaves the others |
| BinarySearchTree.BstVisualizer.constructor | dsa-visualizer/dsa-visualizer/src/components/visualizers/binary-search-tree-visualizer.tsx:82-90 | the visualizer starts with an empty tree, no error, no found node and an empty history |
| BinarySearchTree.BstVisualizer.HandleInsert | dsa-visualizer/dsa-visualizer/src/components/visualizers/binary-search-tree-visualizer.tsx:260-287 | text that is not a number sets the error; a duplicate sets the error and keeps tree and history; otherwise the value joins the tree, one node more, and one insert entry holding the old tree is logged; the tree stays a search tree |
| BinarySearchTree.BstVisualizer.HandleSearch | dsa-visualizer/dsa-visualizer/src/components/visualizers/binary-search-tree-visualizer.tsx:289-316 | text that is not a number sets the error; otherwise the found node is the value exactly when it is in the tree, the not-found error is set otherwise, one search entry is logged either way and the tree is untouched |
| BinarySearchTree.BstVisualizer.HandleDelete | dsa-visualizer/dsa-visualizer/src/components/visualizers/binary-search-tree-visualizer.tsx:318-360 | text that is not a number sets the error; a missing value sets the not-found error and keeps tree and history; otherwise the value leaves the tree, one node fewer, and one delete entry holding the old tree is logged; the tree stays a search tree |
| BinarySearchTree.BstVisualizer.HandleClear | dsa-visualizer/dsa-visualizer/src/components/visualizers/binary-search-tree-visualizer.tsx:362-372 | the tree is emptied, error and found node cleared, and one clear entry holding the old tree is logged |
| BinarySearchTree.LevelOrder | dsa-visualizer/dsa-visualizer/src/components/visualizers/binary-search-tree-visualizer.tsx:441-456 | the queue-driven level order lists every value of the tree once: the same multiset as the in-order listing and as many entries as nodes |
| AvlTree.HeightsAgree | dsa-visualizer/dsa-visualizer/src/components/visualizers/avl-tree-visualizer.tsx:53-57 | while every stored height is what updateHeight sets (one more than the taller child, 0 for an empty tree), getHeight gives the real height |
| AvlTree.BalancedIsShallow | dsa-visualizer/dsa-visualizer/src/components/visualizers/avl-tree-visualizer.tsx:91-113 | a tree whose balance factors are all -1, 0 or 1 and whose heights are kept has at least Fibonacci(h + 2) - 1 nodes at height h |
| AvlTree.RightRotate | dsa-visualizer/dsa-visualizer/src/components/visualizers/avl-tree-visualizer.tsx:59-67 | the rotation keeps the in-order sequence and the values, keeps search order, and leaves correct stored heights |
| AvlTree.LeftRotate | dsa-visualizer/dsa-visualizer/src/components/visualizers/avl-tree-visualizer.tsx:69-77 | the same for the mirror rotation |
| AvlTree.InsertRebalance | dsa-visualizer/dsa-visualizer/src/components/visualizers/avl-tree-visualizer.tsx:91-113 | rebalancing after insertion keeps the in-order sequence of left subtree, node and right subtree, keeps search order and leaves correct heights |
| AvlTree.InsertRebalanceAvl | dsa-visualizer/dsa-visualizer/src/components/visualizers/avl-tree-visualizer.tsx:91-113 | when one side is two taller and leans the way the value went, the rotations make every balance factor -1, 0 or 1 and restore the side's height; otherwise the node is only re-measured |
| AvlTree.Insert | dsa-visualizer/dsa-visualizer/src/components/visualizers/avl-tree-visualizer.tsx:79-113 | inserting into an AVL tree gives an AVL tree holding the value as well; the duplicate flag is raised exactly when the value was present, and then the tree is unchanged; the height grows by at most one |
| AvlTree.InsertedLeft | dsa-visualizer/dsa-visualizer/src/components/visualizers/avl-tree-visualizer.tsx:82-113 | inserting to the left and rebalancing keeps an AVL tree, adds the value, and grows the height by at most one with the root leaning left when it grows |
| AvlTree.InsertedRight | dsa-visualizer/dsa-visualizer/src/components/visualizers/avl-tree-visualizer.tsx:84-113 | the same for inserting to the right |
| AvlTree.DeleteRebalance | dsa-visualizer/dsa-visualizer/src/components/visualizers/avl-tree-visualizer.tsx:138-158 | rebalancing after deletion keeps the in-order sequence, search order and correct heights |
| AvlTree.DeleteRebalanceAvl | dsa-visualizer/dsa-visualizer/src/components/visualizers/avl-tree-visualizer.tsx:138-158 | when one side is two taller the rotations chosen by the taller child's balance factor make every balance factor -1, 0 or 1, at the taller side's height or one more |
| AvlTree.FindMin | dsa-visualizer/dsa-visualizer/src/components/visualizers/avl-tree-visualizer.tsx:116 | the value found by following left children is in the tree |
| AvlTree.FindMinLeast | dsa-visualizer/dsa-visualizer/src/components/visualizers/avl-tree-visualizer.tsx:116 | in a search tree that value is the smallest |
| AvlTree.DeleteCorrect | dsa-visualizer/dsa-visualizer/src/components/visualizers/avl-tree-visualizer.tsx:118-159 | deleting from an AVL tree gives an AVL tree without the value and otherwise the same values, at most one lower; the not-found flag is raised exactly when the value was absent, and then the tree is unchanged |
| AvlTree.DeletedLeft | dsa-visualizer/dsa-visualizer/src/components/visualizers/avl-tree-visualizer.tsx:124-158 | deleting to the left and rebalancing keeps an AVL tree without the value, at most one lower |
| AvlTree.DeletedRight | dsa-visualizer/dsa-visualizer/src/components/visualizers/avl-tree-visualizer.tsx:126-158 | the same for deleting to the right |
| AvlTree.DeletedOnlyChild | dsa-visualizer/dsa-visualizer/src/components/visualizers/avl-tree-visualizer.tsx:128-130 | a node with a missing child is replaced by its other child, which rebalancing leaves as it is |
| AvlTree.DeletedSuccessor | dsa-visualizer/dsa-visualizer/src/components/visualizers/avl-tree-visualizer.tsx:131-135 | a node with two children takes the smallest value of its right subtree, deleted from there, and the result is an AVL tree without the node's old value |
| AvlTree.AvlVisualizer.constructor | dsa-visualizer/dsa-visualizer/src/components/visualizers/avl-tree-visualizer.tsx:41-47 | the visualizer starts with an empty tree and no error |
| AvlTree.AvlVisualizer.HandleInsert | dsa-visualizer/dsa-visualizer/src/components/visualizers/avl-tree-visualizer.tsx:210-219 | text that is not a number sets the error; a duplicate sets the error and keeps the tree; otherwise the value joins the tree, which stays an AVL tree at most one level higher |
| AvlTree.AvlVisualizer.HandleDelete | dsa-visualizer/dsa-visualizer/src/components/visualizers/avl-tree-visualizer.tsx:221-230 | text that is not a number sets the error; a missing value sets the not-found error and keeps the tree; otherwise the value leaves the tree, which stays an AVL tree at most one level lower |
| AvlTree.AvlVisualizer.HandleReset | dsa-visualizer/dsa-visualizer/src/components/visualizers/avl-tree-visualizer.tsx:232-237 | the tree is emptied and the error cleared |
| RedBlack.RedViolationsExact | dsa-visualizer/dsa-visualizer/src/app/visualizer/red-black-tree/page.tsx:107-121 | checkRedViolation reports nothing exactly when no red node has a red child |
| RedBlack.CheckBlackHeightExact | dsa-visualizer/dsa-visualizer/src/app/visualizer/red-black-tree/page.tsx:133-140 | checkBlackHeight(t, h) holds exactly when every path meets the same number of black nodes and that number is h |
| RedBlack.GetBlackHeightBalanced | dsa-visualizer/dsa-visualizer/src/app/visualizer/red-black-tree/page.tsx:123-131 | on a tree with equal black heights, getBlackHeight (the larger of the two children's counts) is that common black height |
| RedBlack.CheckViolationsExact | dsa-visualizer/dsa-visualizer/src/app/visualizer/red-black-tree/page.tsx:85-105 | checkViolations reports nothing exactly when the tree is empty or has a black root, no red node with a red child and equal black heights on every path |
| RedBlack.RotateLeft | dsa-visualizer/dsa-visualizer/src/app/visualizer/red-black-tree/page.tsx:142-166 | the left rotation lifts the right child into the node's place and keeps the in-order listing of the subtree |
| RedBlack.RotateRight | dsa-visualizer/dsa-visualizer/src/app/visualizer/red-black-tree/page.tsx:168-192 | the right rotation lifts the left child into the node's place and keeps the in-order listing of the subtree |
| RedBlack.RotationsInverse | dsa-visualizer/dsa-visualizer/src/app/visualizer/red-black-tree/page.tsx:142-192 | a right rotation undoes a left rotation and the other way round |
| RedBlack.PlugInOrder | dsa-visualizer/dsa-visualizer/src/app/visualizer/red-black-tree/page.tsx:142-192 | the whole tree lists the values before the node, then the node's subtree, then the values after it, so replacing a subtree by one with the same listing keeps the tree's listing |
| RedBlack.Hung | dsa-visualizer/dsa-visualizer/src/app/visualizer/red-black-tree/page.tsx:214-237 | a red leaf hung where the walk left the tree keeps a search tree, adds exactly the value, and can break only the rule that a red node has no red parent |
| RedBlack.RecolorFixes | dsa-visualizer/dsa-visualizer/src/app/visualizer/red-black-tree/page.tsx:246-252 | recolouring parent and uncle black and the grandparent red keeps the listing and leaves the grandparent as the only node that may have a red parent |
| RedBlack.InnerLeft | dsa-visualizer/dsa-visualizer/src/app/visualizer/red-black-tree/page.tsx:255-258 | for a right child of a left child, the left rotation at the parent keeps the listing and makes the old parent a left child of a left child with the same fixup state |
| RedBlack.InnerRight | dsa-visualizer/dsa-visualizer/src/app/visualizer/red-black-tree/page.tsx:276-279 | the mirror image: a right rotation at the parent of a left child of a right child |
| RedBlack.OuterLeft | dsa-visualizer/dsa-visualizer/src/app/visualizer/red-black-tree/page.tsx:260-263 | parent black, grandparent red and a right rotation at the grandparent keep the listing and give the node a black parent with every rule restored below the root |
| RedBlack.OuterRight | dsa-visualizer/dsa-visualizer/src/app/visualizer/red-black-tree/page.tsx:281-284 | the mirror image, with a left rotation at the grandparent |
| RedBlack.FixingDone | dsa-visualizer/dsa-visualizer/src/app/visualizer/red-black-tree/page.tsx:242-290 | once the node's parent is black or absent, colouring the root black gives a red-black tree with the same listing |
| RedBlack.SearchDescend | dsa-visualizer/dsa-visualizer/src/app/visualizer/red-black-tree/page.tsx:300-309 | in a search tree a value other than the node's lies in the tree exactly when it lies in the subtree on its side |
| RedBlack.RedBlackTree.constructor | dsa-visualizer/dsa-visualizer/src/app/visualizer/red-black-tree/page.tsx:41-46 | the tree starts empty with one recorded insert step showing the empty tree and no violations |
| RedBlack.RedBlackTree.AddStep | dsa-visualizer/dsa-visualizer/src/app/visualizer/red-black-tree/page.tsx:48-59 | a step is appended holding the operation, the target, the found flag, a snapshot of the tree and its violations; the tree is unchanged |
| RedBlack.RedBlackTree.Locate | dsa-visualizer/dsa-visualizer/src/app/visualizer/red-black-tree/page.tsx:214-228 | the walk from the root stops at v exactly when v is in the tree; otherwise it ends at the empty place whose ancestors list only smaller values before it and larger ones after it |
| RedBlack.RedBlackTree.Insert | dsa-visualizer/dsa-visualizer/src/app/visualizer/red-black-tree/page.tsx:194-239 | a red-black search tree stays one and afterwards holds exactly its old values and v; a value already present changes nothing; the empty tree gets a single black root; the steps are extended, the first new one an insert step for v and the last showing the final tree without violations |
| RedBlack.RedBlackTree.InsertFirst | dsa-visualizer/dsa-visualizer/src/app/visualizer/red-black-tree/page.tsx:207-211 | inserting into the empty tree makes v a black root and records one insert step without violations |
| RedBlack.RedBlackTree.InsertAt | dsa-visualizer/dsa-visualizer/src/app/visualizer/red-black-tree/page.tsx:230-238 | the new node is hung red at the place the walk found, one insert step shows it, and the fixup leaves a red-black search tree holding the old values and v |
| RedBlack.RedBlackTree.InsertFixup | dsa-visualizer/dsa-visualizer/src/app/visualizer/red-black-tree/page.tsx:241-291 | the fixup loop keeps the listing and ends with a red-black tree, the last step being the root recolouring without violations |
| RedBlack.RedBlackTree.RedUncle | dsa-visualizer/dsa-visualizer/src/app/visualizer/red-black-tree/page.tsx:246-252 | case 1: the recolouring keeps the listing and the fixup state, moving the node two levels up |
| RedBlack.RedBlackTree.BlackUncleLeft | dsa-visualizer/dsa-visualizer/src/app/visualizer/red-black-tree/page.tsx:253-264 | cases 2 and 3 on the left keep the listing and end with a black parent above the node, so the loop stops |
| RedBlack.RedBlackTree.BlackUncleRight | dsa-visualizer/dsa-visualizer/src/app/visualizer/red-black-tree/page.tsx:275-285 | cases 2 and 3 on the right keep the listing and end with a black parent above the node |
| RedBlack.RedBlackTree.Search | dsa-visualizer/dsa-visualizer/src/app/visualizer/red-black-tree/page.tsx:293-314 | search leaves the tree alone, returns true only for a value in the tree and, in a search tree, for every such value; it records exactly one search step per node passed before the match or the empty subtree (Passed), then one step with the answer |
| Backtracking.QueensSolver.IsSafe | dsa-visualizer/dsa-visualizer/src/app/visualizer/backtracking/page.tsx:38-63 | the conflicts are exactly the queens in earlier rows that share the column or an upward diagonal of (row, col), and the cell is safe exactly when there are none |
| Backtracking.QueensSolver.SafeMeans | dsa-visualizer/dsa-visualizer/src/app/visualizer/backtracking/page.tsx:38-63 | on the board of a placement, the scan finds no attacking queen exactly when no placed queen attacks the cell |
| Backtracking.QueensSolver.ConflictsMean | dsa-visualizer/dsa-visualizer/src/app/visualizer/backtracking/page.tsx:38-63 | on the board of a placement, the conflicts are exactly the placed queens that attack the cell |
| Backtracking.QueensSolver.GetQueens | dsa-visualizer/dsa-visualizer/src/app/visualizer/backtracking/page.tsx:66-76 | returns the queens read from the board in row-major order |
| Backtracking.RowQueensMembers | dsa-visualizer/dsa-visualizer/src/app/visualizer/backtracking/page.tsx:68-73 | the scan of one row lists exactly the cells of that row holding 1 |
| Backtracking.QueensMembers | dsa-visualizer/dsa-visualizer/src/app/visualizer/backtracking/page.tsx:66-76 | getQueens lists exactly the cells holding 1 |
| Backtracking.QueensOfBoard | dsa-visualizer/dsa-visualizer/src/app/visualizer/backtracking/page.tsx:66-76 | on the board of a placement, getQueens lists the placed queens row by row |
| Backtracking.QueensSolver.RowsAre | dsa-visualizer/dsa-visualizer/src/app/visualizer/backtracking/page.tsx:89 | the copy of a board holding a placement is that placement's board |
| Backtracking.QueensSolver.ShownBoard | dsa-visualizer/dsa-visualizer/src/app/visualizer/backtracking/page.tsx:148-149 | the copied board and the queens recorded in a step are the placement's board and its cells |
| Backtracking.InitStep | dsa-visualizer/dsa-visualizer/src/app/visualizer/backtracking/page.tsx:87-99 | the opening step has an all-zero size × size board, no queens, kind 'init' and count 0 |
| Backtracking.Count | dsa-visualizer/dsa-visualizer/src/app/visualizer/backtracking/page.tsx:227-228 | the number of steps of one kind never exceeds the number of steps |
| Backtracking.QueensSolver.constructor | dsa-visualizer/dsa-visualizer/src/app/visualizer/backtracking/page.tsx:80-99 | the board starts all zero and the steps hold only the opening step |
| Backtracking.QueensSolver.AddStep | dsa-visualizer/dsa-visualizer/src/app/visualizer/backtracking/page.tsx:128-140 | appends one step with a copy of the board and the current solution count, and raises the count of its kind by one |
| Backtracking.QueensSolver.BacktrackRow | dsa-visualizer/dsa-visualizer/src/app/visualizer/backtracking/page.tsx:101-186 | on success the placement found extends the queens above, is a solution, was the first one tried, stays on the board and its step is the last; on failure the board is restored and no solution extends the queens above; the solution counter and solution steps grow together |
| Backtracking.QueensSolver.RecordSolution | dsa-visualizer/dsa-visualizer/src/app/visualizer/backtracking/page.tsx:105-120 | raises the solution counter and records a solution step with the placement's board and queens |
| Backtracking.QueensSolver.TryColumn | dsa-visualizer/dsa-visualizer/src/app/visualizer/backtracking/page.tsx:124-182 | one column of the loop: success yields a solution through (row, col); failure leaves the board as before and rules out every solution through (row, col) |
| Backtracking.QueensSolver.CheckCell | dsa-visualizer/dsa-visualizer/src/app/visualizer/backtracking/page.tsx:125-140 | records a check step holding the board, the placed queens and the attacking queens; the cell is safe exactly when no placed queen attacks it |
| Backtracking.QueensSolver.Descend | dsa-visualizer/dsa-visualizer/src/app/visualizer/backtracking/page.tsx:142-182 | places the queen, searches the rows below and, unless that succeeds, takes the queen off again |
| Backtracking.QueensSolver.PlaceStep | dsa-visualizer/dsa-visualizer/src/app/visualizer/backtracking/page.tsx:144-158 | the board gains the queen at (row, col) and a place step records it |
| Backtracking.QueensSolver.UndoStep | dsa-visualizer/dsa-visualizer/src/app/visualizer/backtracking/page.tsx:165-181 | the cell is reset to 0, the backtrack counter goes up by one and a backtrack step shows the board without the queen |
| Backtracking.QueensSolver.PlaceQueen | dsa-visualizer/dsa-visualizer/src/app/visualizer/backtracking/page.tsx:144 | the board then holds the placement with the new queen |
| Backtracking.QueensSolver.RemoveQueen | dsa-visualizer/dsa-visualizer/src/app/visualizer/backtracking/page.tsx:166 | the board then holds the placement without the last queen |
| Backtracking.ExtendPartial | dsa-visualizer/dsa-visualizer/src/app/visualizer/backtracking/page.tsx:142-144 | a queen put on a safe cell of the next row keeps the queens pairwise non-attacking |
| Backtracking.UnsafeDead | dsa-visualizer/dsa-visualizer/src/app/visualizer/backtracking/page.tsx:142 | a cell attacked from above starts no solution, so skipping it loses nothing |
| Backtracking.NoneLeft | dsa-visualizer/dsa-visualizer/src/app/visualizer/backtracking/page.tsx:183-185 | when no column of the row leads to a solution, neither do the queens above |
| Backtracking.FirstExtend | dsa-visualizer/dsa-visualizer/src/app/visualizer/backtracking/page.tsx:160-162 | the columns rejected in this row join the rejections made further down |
| Backtracking.FirstSolution | dsa-visualizer/dsa-visualizer/src/app/visualizer/backtracking/page.tsx:160-162 | the solution returned comes before every other solution in the order the search tries them |
| Backtracking.SolutionBoard | dsa-visualizer/dsa-visualizer/src/app/visualizer/backtracking/page.tsx:104-120 | a solution's board has n rows of n cells, exactly one queen per row and no two queens attacking |
| Backtracking.NoSolutionAtAll | dsa-visualizer/dsa-visualizer/src/app/visualizer/backtracking/page.tsx:192-206 | when no solution starts from the empty board, the board has no solution at all |
| Backtracking.SolveNQueens | dsa-visualizer/dsa-visualizer/src/app/visualizer/backtracking/page.tsx:79-209 | the steps start with the opening step; at most one solution step is recorded, and one exactly when a solution exists; it shows a solved board of the first solution; otherwise the last step is the 'no solution' step on the empty board |
| Backtracking.StartSolving | dsa-visualizer/dsa-visualizer/src/app/visualizer/backtracking/page.tsx:212-235 | the statistics count the solution steps, the backtrack steps and all steps, and the solution count is 1 exactly when the board has a solution |

## Left out

- Rendering, layout, themes, timers and animation speeds are not modelled.
- Timestamps and free-text descriptions in the history entries are not modelled.
- LinkedListVisualizer.LinkedList.CreateNode: `Date.now()` is a parameter, and distinct ids rely on the clock not going back.
- LinkedListVisualizer.LinkedList.HandleSearch: the animated walk is modelled by its outcome only.
- QueueVisualizer.Statistics: the average size is a floating-point mean and is not modelled.
- MessageQueue.ProcessMessageQueue: message ids and timestamps come from the clock and `Math.random()`; here they are whatever the caller supplies.
- FenwickTreePage: the step records and highlighted cells are not modelled. The page's reconstructTree replays recorded updates, but each replay writes the value into the array before calling update, so its delta is 0; the tree is therefore the tree of the current array, which is what PerformQuery and PerformUpdate build.
- SegmentTreePage: the step records, the visited-node lists, getNodeCount and buildTreeStructure only feed the drawing and are not modelled.
- SegmentTreePage.SegmentTree.constructor: requires a non-empty array. On an empty array build would recurse without end; the page's arrays have 4 to 8 elements, and both perform handlers reject every input on an empty array before building.
- SegmentTreePage.ReconstructTree: the recorded updates are a parameter (the (index, value) pairs of the update steps up to the current step). When the current step is not the last, the replay writes older values over the current array, and the tree sums that array, not the current one; the model states exactly that.
- ZAlgorithmPage.ZAlgorithm.FindMatches: completeness is stated only for a text without '$' and a non-empty pattern. A '$' in the text lengthens Z values past the pattern length (SeparatorInTextHidesMatch), and an empty pattern is reported at every text position that does not hold '$'.
- SortingVisualizer: radixSort and the random array generator are not modelled; radixSort collects buckets through indexOf, which is ill-defined for repeated values. The step records keep their arrays and step numbers; descriptions and colours are dropped.
- MergeSortVisualizer.GetMergeSortAnimations: requires a non-empty array. On an empty array mergeSortHelper(0, -1) computes mid = floor(-1 / 2) = -1 and calls itself on the same range without end.
- MergeSortVisualizer: getMergeSortDetailedSteps is not modelled. It passes the working array as the source array, so its merge reads values it has already overwritten.
- HeapSortVisualizer.GenerateHeapTree: node positions are layout only; the model keeps the node values and the parent-to-child edges.
- HeapDataStructure.HeapVisualizer.SetHeapType: switching between min-heap and max-heap keeps the array as it is, so the operations promise "heap-ordered before implies heap-ordered after" and not heap order outright. heapifySteps and the step counter it receives by value are not modelled.
- StringAlgorithmsPage.KmpSearch, StringAlgorithmsPage.NaiveSearch, StringAlgorithmsPage.BoyerMooreSearch and StringAlgorithmsPage.RabinKarpSearch: require a non-empty text and pattern, which the page's run handler checks before calling them (string-algorithms/page.tsx line 576).
- StringMatchingVisualizer.KmpSearch and StringMatchingVisualizer.BoyerMooreSearch: require a non-empty text and pattern, which the start handler checks with trim() before calling them (string-matching-visualizer.tsx line 284).
- ManacherPage: the step records, which call extractPalindromes after every change, are not modelled; only the final extraction is.
- SuffixArrayPage: the step records are not modelled; search reads the suffix array from the last step, which is the one the constructor built.
- Polynomial: the coefficients are exact rationals (`real`), not IEEE doubles, and number-to-text conversion is a parameter of FormatPoly and FormatTerm; the round trip is proved for whole coefficients written by IntegerText. parseFloat is modelled for sign, digits and one decimal point, without exponents or Infinity.
- InfixToPostfix: the step records and animations are not modelled; the conversion is stated by its final output.
- InfixToPostfix.ConvertInfix: equality with the postfix listing of the reference tree (`Build`, split at the operator applied last, then `PostOrder`) is proved only for expressions without parentheses; with parentheses the contract states the operands in order, no parentheses and the multiset of tokens, not the order of the operators.
- InfixToPostfix.ProcessExpression: the same limit; the checks also accept texts that have no tree at all, such as two operands in a row (`ab`), an empty `()` or a leading minus, and for those only the operand order and the multiset of tokens are stated.
- Huffman: node ids, step descriptions, the `node.code` annotation, the tree layout and the animation are display-only and left out.
- Huffman: characters are single `char` values; `for...of` (code points) and `split('')` (UTF-16 units) agree only for characters outside the astral planes, and that difference is not modelled.
- Huffman.EncodeDecode: the page first rejects text that is only whitespace; the model accepts any non-empty text, on which the build behaves the same.
- Huffman: the page's frequency table (lines 498-514 of the Huffman component) is a display recount, left out.
- EnhancedMST.KruskalSteps: edge endpoints must be below the number of nodes; after a node is deleted in edit mode the page can index past its arrays, which is not modelled.
- EnhancedMST.KruskalSteps: the union-find snapshot in add and reject steps is only stated to have n entries, not its exact content.
- EnhancedMST.PrimSteps: the model proves that Prim's log is a spanning tree walk but not that its weight is minimal; the infinite loop on a disconnected graph is modelled as the result Stuck, and the exception on an empty graph as NoStart.
- EnhancedMST.SortByWeightSpec: the stability of the sort (equal weights keep their input order) is not stated.
- EnhancedMST: step descriptions, vertex labels, node positions and the edge editor are not modelled.
- UnionFindPage: the step records (node snapshots, highlight flags, descriptions, the sets shown per step), node positions, auto-play and the slider are not modelled; only the structure and the statistics are.
- UnionFindPage.PerformUnion: operations act on the current structure; replaying from an earlier displayed step (the page copies the nodes of the step on screen) is not modelled.
- UnionFindPage.DisjointSetUnion.Union: the page finds both roots on shallow copies that share the node objects, so path compression from those finds persists; the model keeps it, so a union of a pair already in one set keeps every set and rank but may shorten paths.
- UnionFindPage.PerformUnion: the page checks indices against the slider's count, which can differ from the number of nodes until the structure is re-initialized; the model checks against the number of nodes.
- GraphAlgorithms: the step records keep only the action and its node or edge; the visited-node and visited-edge sets, the stack, queue and map snapshots and the step counter each step carries, and the Vietnamese descriptions, are not modelled.
- GraphAlgorithms: the four copies of the adjacency-list loop are one BuildAdjacency with a flag for the reverse edge; node ids are taken as natural numbers.
- GraphAlgorithms.TopologicalSort: the visit, explore and finish steps it records are not modelled; the model returns the result list the finish steps show.
- GraphAlgorithms.Dijkstra: the relaxation compares only with nodes that have a distance entry, as `distances.get` of a missing node gives undefined and the comparison is false; distances are unbounded integers, not floating point.
- BloomFilterPage: the false-positive rate (floating point) and the step descriptions are not modelled; the page handlers that rebuild a filter by replaying recorded add steps (performAdd, performQuery, reconstructFilter, runDemo and the initial LocalBloomFilter) are not modelled.
- BloomFilterPage.Hash2Value, BloomFilterPage.Hash3Value: the accumulators are exact integers; the source holds them in doubles, which agree for strings short enough to keep them below 2^53 (a few million characters).
- StringHash: a character is one code point, where `charCodeAt` reads UTF-16 code units; the two differ only outside the Basic Multilingual Plane.
- ConsistentHashingPage: server colours, step descriptions, the playback timer and rendering are left out; `Date.now()` in the generated ids is a parameter `now`.
- ConsistentHashingPage.Ring.constructor: the mount effect that assigns the demo keys repeats initializeDemo; the model's constructor is the state before it, and InitializeDemo models the effect.
- ConsistentHashingPage.Ring.RemoveServer: the page disables the remove button when one server is left; the handler itself has no such guard, and neither has the model.
- HashTableVisualizer: the multiplication hash (floating point), the linear and quadratic probing branches of insert, search and remove, and the hash-function and collision-mode selectors are left out; the model covers the default division hash with chaining.
- HashTableVisualizer: the animation delays, the step messages and the highlight flags are left out; search therefore changes nothing.
- HashTableVisualizer.HashTable.Resize: the guard that ignores a resize while an animation runs is left out, and the size must be positive (the page offers 7, 11 and 17).
- HashTableVisualizer.HashTable: the handlers copy the table object shallowly and push onto or splice the shared chain arrays; the model replaces the chains as values, so the aliasing with the previous state is not modelled.
- DynamicProgramming: the step descriptions and the table snapshot each step carries are not modelled; the methods return the final table instead. The animation, the explanations and the input editors are left out.
- DynamicProgramming.GenerateSteps: coin change, matrix chain multiplication and the longest increasing subsequence have no step generator in the page, so they fall to the default case and run Fibonacci; the model keeps that.
- DynamicProgramming.KnapsackSteps: weights and the capacity are natural numbers, as the inputs enforce; values may be any integer.
- Pathfinding: the animation (timeouts, DOM class names, speed), the step messages, the visited and path counters and the `isVisualizing` guards are left out; they do not change the search.
- Pathfinding: `Math.random()` in `generateMaze` is a parameter: the set of cells where it came out below 0.3.
- Pathfinding: node objects become maps from cells to distance, score and link. Each search starts from fresh maps, which is what `clearPath` plus the initial grid give the source, so `clearPath` itself is not modelled.
- Pathfinding.Dijkstra: does not prove that the distances are shortest-path lengths (the neighbour update overwrites a distance without comparing). Only the agreement between each distance and the length of the path read back is proved.
- Pathfinding.AStar: does not prove that the path found is shortest. Only reachability, f = g + h and the agreement of g with the links are proved.
- Pathfinding.Bfs: does not prove that the BFS path is shortest, only that it is a wall-free walk from start to finish.
- Pathfinding: the sort comparators subtract scores, and Infinity minus Infinity is NaN. The model orders unscored cells after scored ones and keeps ties (including two unscored cells) in their earlier order, as a stable sort treating NaN as equal does.
- LruCache: the step records (descriptions, highlights, cloned node snapshots), the hit rate (a float), the playback and the rendering are left out; nodes are numbered and their links are maps, so cloning has nothing to model.
- LruCache: keys are compared as strings in a map; `key in this.hashMap` on a plain object also finds inherited names such as `constructor` or `toString`, which the model does not.
- LruCache: the null checks in `addToHead`, `removeNode` and `removeTail` never fail with both sentinels present, which the chain invariant guarantees; the model has no null branches.
- LruCache: a capacity of zero still admits one entry (eviction finds nothing to evict), which the size bound max(capacity, 1) states; the page's slider offers 2 to 6.
- LruCache: `performGet` and `performPut` (replay, then append the last two or three replayed step records) and `runDemo` (a fixed call sequence whose records become the step list) are not modelled beyond Reconstruct; their step records are not part of the model.
- LruCache: the second, step-only cache class in the mount effect just records the initial step and is left out.
- Trie: the words are taken as given; the `toUpperCase` applied in `buildTrie`, `addWord` and `handleSearch` (a Unicode case mapping) is not modelled.
- Trie: node ids (`generateId`), the x, y and level fields and `positionNodes` (layout only), the step records with their JSON snapshots, and the playback are left out; nodes are numbered in creation order.
- Trie: `addWord` and `handleSearch` are input-box handlers (trimming the text, React state); they are not modelled beyond the `BuildTrie` and `SearchInTrie` they lead to. `handleSearch` searches a JSON copy of the last snapshot, so its flags never touch the built trie.
- Trie.Trie.ResetNodeStates: the source recurses over the nodes reachable from the root; every node is reachable (the well-formedness invariant), so the model clears both flag sets at once.
- Trie.Dfs: `Object.values` visits the children in insertion order; the model visits them in any order, which the counts do not depend on.
- BinarySearchTree: autoDemo (random values from `Math.random()`), the traversal animation and highlights, the traversal result display, the input boxes being cleared, and the flow-chart layout are not modelled.
- BinarySearchTree.BstVisualizer: the handlers work on a JSON copy of the tree, so the in-place updates of insertNode and deleteNode never touch the displayed tree; the model therefore treats the tree as a value. insertNode runs inside a React state updater, which React may call twice in development; that is not modelled.
- BinarySearchTree.LevelOrder: the order of the level-order listing (level by level) is not stated; only that every value appears once.
- BinarySearchTree: values are unbounded integers; `parseInt` yields doubles, which lose precision above 2^53.
- AvlTree: the flow-chart layout, the balance-factor labels and the input boxes being cleared are not modelled.
- AvlTree.Insert: requires an AVL tree (a search tree with correct stored heights and balance factors -1, 0 or 1), which every state of the visualizer is. On other trees insertNode's left-right and right-left cases can read a missing grandchild and throw.
- AvlTree.AvlVisualizer: insertNode and deleteNode run inside React state updaters, which React may call twice in development; that is not modelled. Values are unbounded integers, where `parseInt` yields doubles.
- RedBlack: the nodes' parent pointers are replaced by a zipper (the path of ancestors above the node being fixed), so aliasing, the in-place pointer writes of `rotateLeft` and `rotateRight`, and the consistency of parent links after a rotation are not stated; the root is updated once per step rather than per pointer write.
- RedBlack: highlights, `isNewlyAdded`, the x/y layout, the step descriptions and `cloneTree` (a deep copy; snapshots are values here) are not modelled.
- RedBlack: `performInsert`, `performSearch`, `reconstructTree`, `runDemo` and the React state around the tree object are not modelled; the 'delete' operation kind is declared but never produced, so it has no member.
- RedBlack.RedBlackTree.Insert: requires a red-black search tree, which every tree the page builds is; on other shapes the fixup's `node.parent.parent!` can be null and the page throws.
- Backtracking: the board is a two-dimensional array (`array2`) instead of an array of row arrays, so the rows cannot alias one another; the search always keeps one queen in each of the rows above, so a ghost list of chosen columns describes the board.
- Backtracking: `stepCount` is raised but never read, and the step descriptions, the problem selector (every choice runs N-Queens), playback, speed and the React state are not modelled.
- Backtracking.QueensSolver.IsSafe: states which cells are in the conflict list, not their order (the column first, then each diagonal from the nearest row up).
- Strings (all modules): a Dafny `char` is a Unicode scalar value, while JavaScript indexes strings, reads `charCodeAt` and takes `length` in UTF-16 code units. BloomFilterPage's hashes, Trie's `word[i]`, StringHash, HashTableVisualizer, ConsistentHashingPage, StringMatching, StringAlgorithmsPage, StringMatchingVisualizer, ZAlgorithmPage, ManacherPage and SuffixArrayPage therefore agree with the source only on text without characters outside the Basic Multilingual Plane, where one character is one code unit; a surrogate pair is two positions there and one here.

## Findings

| source | as written | input that shows it | evidently intended | confidence | as-written member | corrected member |
|---|---|---|---|---|---|---|
| dsa-visualizer/dsa-visualizer/src/app/visualizer/string-algorithms/page.tsx:288-289 | the mismatch shift is max(1, j - badChar[c]), where badChar holds the Horspool distance m - 1 - i rather than the last index i | text AAAAAB, pattern AAAAB: the first mismatch shifts by 3 and the occurrence at 1 is never reported | shift by max(1, j - last index of c in the pattern, -1 when absent), which never passes an occurrence | high, not executed | StringAlgorithmsPage.HorspoolTableRuleSkips | StringMatching.BoyerMooreSearch |
| dsa-visualizer/dsa-visualizer/src/components/visualizers/string-matching-visualizer.tsx:257-258 | `badCharShift \|\| -1` treats a last index of 0 as absent | text AAB, pattern AB: the mismatch on 'A' shifts by 2 and the occurrence at 1 is never reported | use -1 only when the character is absent from the table | high, not executed | StringMatchingVisualizer.FalsyZeroRuleSkips | StringMatching.BoyerMooreSearch |
| dsa-visualizer/dsa-visualizer/src/app/visualizer/manacher/page.tsx:141-147 | a padded centre i and radius P[i] become centre floor(i/2) and half-width floor((P[i]+1)/2), which is wrong for even-length palindromes | "abba": the centre between the two b's (P = 4) is reported as "bba", and getLongestPalindrome returns it | start = (i - P[i]) / 2 and length P[i] | high, not executed | ManacherPage.EvenCentreMisreported | ManacherPage.ManacherAlgorithm.GetLongestPalindromeCorrected |
| dsa-visualizer/dsa-visualizer/src/components/visualizers/polynomial-visualizer.tsx:90 | `coeff * parseFloat(p) \|\| 1` falls back to 1 when the product is 0, not only when it is NaN | "0x" parses as x, and "-0x^2" as +x^2 | fall back to 1 only when the coefficient text is not a number | high, not executed | Polynomial.ZeroCoefficientReadAsOne | Polynomial.ZeroCoefficientKept |
| dsa-visualizer/dsa-visualizer/src/components/visualizers/stack-visualizer.tsx:49 | maxSize is the largest stack size recorded in the history, and each entry records the stack from before its operation | one push of 5 onto an empty stack: maxSize 0 while the current size is 1 | include the current stack in the maximum | medium, not executed | StackVisualizer.MaxSizeBelowCurrentSize | StackVisualizer.Stats |
| dsa-visualizer/dsa-visualizer/src/components/visualizers/huffman-visualizer.tsx:200-208 | decode steps to a child before checking for a leaf, so when the root is itself a leaf it reads `character` of null | text "aaa": the code table is a -> 0, the encoding is 000, and decode throws a TypeError | a tree that is a single leaf decodes every bit as its character | high, not executed | Huffman.SingleLeafDecodeFails | Huffman.CorrectedRoundTrip |
