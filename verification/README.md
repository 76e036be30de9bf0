# HackerRank solutions, modelled in Dafny

This project models the algorithmic core of a collection of programming-puzzle
solutions, written in C, C++, C#, Java and Python, and proves what each one
computes.

**The sliding-window median.** The largest piece is the indexed binary heap and
the sliding-window median built on it. It exists in four versions:
cpp/MovingMedian.cpp, java/fraudulent_activity/Result.java,
fraudulent_activity_notifications/median_heap.c and python/median_heap.py.

- A `BinaryHeap` stores node handles in slots. Every node records its slot, its
  value and the heap that owns it.
  - `add` appends a node and sifts it up.
  - `update` changes a node's value and sifts it up or down.
  - `swapRoot` exchanges the roots of a max-heap and a min-heap and sifts both
    down.
- A `MovingMedian` keeps the lower half of the last `W` samples in a max-heap
  and the upper half in a min-heap.
  - A circular table of node handles lets it overwrite the oldest sample in
    place.
  - Twice the median is read off the two roots.
- The `activityNotifications` drivers count the days whose spending reaches
  twice the median of the preceding `d` days.

In the model, nodes are indices into an arena (a `seq<Node>`), and the owner
back-pointer is a `Kind` tag. Every operation returns the new heaps and arena.
The invariants are heap order, index consistency, balance of the halves and
order of the roots. The whole computation is proved equal to a reference
definition: twice the sum of the two middle elements of the sorted window.

**The smaller solutions.**

- The LRU cache (cpp/lru_cache.cpp): a key map into a doubly-linked recency
  list. It is related to a plain sequence of keys in recency order.
- The variable-length-key message decoder (c/decode_message.c). It is proved to
  invert an encoder.
- The two document tokenisers (c/structuring_document.c,
  c/querying_document.c). They are proved to build the same word, sentence and
  paragraph tables.
- Matrix ring rotation (python/matrix_rotation.py).
- The next lexicographic permutation (bigger_is_greater/Solution.cs).
- The longest increasing subsequence (python/longest_increasing_subsequence.py).
  Both of its algorithms are proved to return the true maximum.
- The non-divisible subset (nondivisible_subset/Solution.cs). Its answer is
  proved to be the size of the largest valid subset.
- The maximum forward difference (python/max_difference.py).
- The container/colour sum comparison (python/container_of_balls.py).
- Pair counting (almost_pairs/Solution.cs).
- Connected-component pair counting (python/journey_to_moon.py).
- The distinct count of a linear-congruential sequence (cpp/bit_array.cpp).
- The reversed-binary value of a bit list (cpp/variadics.cpp).

**Error outcomes.** Exceptions, null returns and silent no-ops are modelled as
`Result`/`Option` values, and each comes with the exact condition that
triggers it.

Files: `wrappers.dfy` (Option/Result), `seq_sets.dfy` (repeat-free lists as
sets), `powers.dfy` (powers of two), `min_max.dfy` (the larger and smaller of two integers), `sorting.dfy` (the sorted-order oracle),
`binary_heap.dfy`, `moving_median.dfy` (module `SlidingMedian`),
`activity_notifications.dfy`, `lru_cache.dfy`, `decode_message.dfy`,
`documents.dfy`, `query_documents.dfy`, `matrix_rotation.dfy`,
`bigger_is_greater.dfy`, `lis.dfy` (module `LongestIncreasing`),
`nondivisible_subset.dfy` (module `NonDivisible`), `max_difference.dfy`,
`container_of_balls.dfy`, `almost_pairs.dfy`, `moon_graph.dfy`,
`journey_to_moon.dfy`, `bit_array.dfy`, `variadics.dfy`.

## Model

| member | source | states |
|---|---|---|
| BinaryHeap.ParentInvertsChildren | cpp/MovingMedian.cpp:269-330 | The parent of slot `c > 0` is `(c-1)/2` and lies below `c`. It is `i` exactly when `c` is `i`'s left or right child, so the parent formula inverts both child formulas. |
| BinaryHeap.MaxOrMinChild | java/fraudulent_activity/Result.java:320-342 | There is no child exactly when the left child slot is past the end. Otherwise the result is a child of `p` that comes first in the heap's order among all of `p`'s children: the larger for a max-heap, the smaller for a min-heap. On a tie it is the right child. |
| BinaryHeap.RootIsFirst | cpp/MovingMedian.cpp:139-149 | In a valid heap the root lookup finds nothing exactly when the heap is empty. Otherwise it finds the node at position 0, whose value comes first in heap order: the maximum of a max-heap, the minimum of a min-heap. |
| BinaryHeap.AllocStorage | fraudulent_activity_notifications/median_heap.c:58-66 | The allocated storage has one entry per unit of capacity, and every entry is empty, as `calloc` and `[None] * capacity` leave it. |
| BinaryHeap.AllocStores | python/median_heap.py:26-33 | The empty storage holds the newly constructed empty heap, for the C initialiser and the checked constructor alike. |
| BinaryHeap.StoreAppend | fraudulent_activity_notifications/median_heap.c:90-94 | The write of `add` puts the node at the old count. If the storage was empty from the old count on, it is empty from the new count on. |
| BinaryHeap.AppendStores | python/median_heap.py:51-54 | After that write, the storage holds the heap with the node appended, which is where the sift-up starts. |
| BinaryHeap.StoreSwap | fraudulent_activity_notifications/median_heap.c:239-248 | The writes of `_swap_nodes` exchange two entries. Entries past the count stay empty when both positions are below it. |
| BinaryHeap.SwapStores | python/median_heap.py:151-159 | After those writes, the storage holds exactly the heap that `SwapNodes` returns. |
| BinaryHeap.StoreRoot | fraudulent_activity_notifications/median_heap.c:141-144 | The root write of `swap_root` sets entry 0 and keeps the entries past a positive count empty. |
| BinaryHeap.ExchangeStores | python/median_heap.py:80-85 | After the root writes to both storages, each holds the heap that `ExchangeRoots` returns. |
| BinaryHeap.CapacityBoundedChild | fraudulent_activity_notifications/median_heap.c:268-296 | A child lookup bounded by the capacity reads the storage, and finds a node exactly when the position is below the count. That node is the one the count-bounded lookup finds. |
| BinaryHeap.StorageRoot | python/median_heap.py:39-44 | Reading entry 0 of the storage without a count check gives the same answer as the count-based root lookup. |
| BinaryHeap.RootIsExtreme | cpp/MovingMedian.cpp:139-149 | In an ordered heap the root comes before every stored value: it is the maximum of a max-heap and the minimum of a min-heap. |
| BinaryHeap.GetParent | cpp/MovingMedian.cpp:269-284 | No parent exactly for the node at position 0. Otherwise, in a linked heap, the result is a stored node, and the node is its left or right child. |
| BinaryHeap.GetSwapUp | cpp/MovingMedian.cpp:204-219 | A partner exists exactly when the node has a parent and should move above it. The partner is that parent. |
| BinaryHeap.GetSwapDown | cpp/MovingMedian.cpp:225-241 | A partner exists exactly when the node has a first-ranked child it should move below. The partner is that child. |
| BinaryHeap.SwapNodes | java/fraudulent_activity/Result.java:248-256 | The two nodes trade slots and stored indices, and every index still names its slot. The value sequence is the old one with the two positions exchanged. |
| BinaryHeap.FixHeap | cpp/MovingMedian.cpp:170-198 | Start from a heap that is in order except around one node, ready to move up or down. The repair ends with the whole heap in order and every index matching its slot. The node set and the value multiset stay the same, and nodes outside the heap are untouched. |
| BinaryHeap.New | cpp/MovingMedian.cpp:51-61 | A capacity below 1 is rejected. Otherwise the result is an empty heap of the requested kind and capacity, valid over any arena. The Java and Python constructors behave the same way. |
| BinaryHeap.InitHeapC | fraudulent_activity_notifications/median_heap.c:58-66 | The C initialiser does no check: any capacity of at least 0 gives an empty, valid heap. |
| BinaryHeap.Add | cpp/MovingMedian.cpp:80-96 | A full heap is an error and nothing changes. Otherwise the heap stays valid and its count grows by one. Its value multiset gains exactly the new value. The new node holds that value, is tagged with this heap and sits in it. Every other node keeps its value and tag. |
| BinaryHeap.Update | cpp/MovingMedian.cpp:102-113 | An unchanged value changes nothing. Otherwise the heap stays valid with the same count and nodes. Its value multiset loses the old value and gains the new one. No other node's value or tag changes. |
| BinaryHeap.ExchangeRoots | cpp/MovingMedian.cpp:127-130 | The two roots trade slot 0 of their heaps, and each root node is retagged with its new heap. Every value and index stays. |
| BinaryHeap.SwapRoot | cpp/MovingMedian.cpp:118-135 | Either heap being empty is an error. Otherwise both heaps stay valid and keep their sizes. The two root values trade heaps in the value multisets, and each moved node is tagged with its new heap. Where C silently does nothing on an empty heap, the error leaves the caller's heaps as they were. |
| SlidingMedian.NewCpp | cpp/MovingMedian.cpp:459-470 | Fewer than one sample is rejected. Otherwise the result is an empty, valid calculator. The max-heap capacity is `ceil(W/2)` and the min-heap capacity is `max(1, floor(W/2))`. |
| SlidingMedian.NewChecked | java/fraudulent_activity/Result.java:352-372 | Fewer than one sample is rejected. One sample is rejected by the min-heap constructor, whose capacity would be 0. Otherwise the capacities are `ceil(W/2)` and `floor(W/2)`. |
| SlidingMedian.InitC | fraudulent_activity_notifications/median_heap.c:325-344 | With no validation, the capacities are `W/2 + W%2` and `W/2`, and the calculator starts empty and valid. |
| SlidingMedian.RoomWhileFilling | cpp/MovingMedian.cpp:417-426 | While the window fills, an even count means the halves are equal and the max-heap has room. An odd count means the max-heap is one larger and the min-heap has room. |
| SlidingMedian.Replace | cpp/MovingMedian.cpp:411-416 | Once the window is full, the oldest sample's node is overwritten in the heap that currently owns it. That heap keeps the same nodes, and the other heap is returned unchanged. Both heaps stay valid. The node values are the old ones with that sample replaced by the new value. |
| SlidingMedian.Insert | cpp/MovingMedian.cpp:417-426 | While filling, the new value is appended as a node. On an even count the max-heap gains exactly that node and the min-heap is returned unchanged. On an odd count it is the other way round. The halves stay shaped and balanced. |
| SlidingMedian.Enter | cpp/MovingMedian.cpp:411-426 | The first half of `add`. Once the window is full, the value overwrites the oldest sample. Before that, it is appended as a new node. Either way, the halves stay shaped and the only value that can be out of order is the new one. |
| SlidingMedian.SwapRestoresOrder | cpp/MovingMedian.cpp:434-443 | Start with a split where everything except one value is in order. If the max root exceeds the min root, exchanging them puts every lower value at or below every upper value. |
| SlidingMedian.Rebalance | cpp/MovingMedian.cpp:434-443 | After the conditional root swap, the max-heap root is at most the min-heap root, and every node value is unchanged. |
| SlidingMedian.HalvesBelow | cpp/MovingMedian.cpp:428-443 | With ordered roots, every value of the lower half is at most every value of the upper half. |
| SlidingMedian.Add | cpp/MovingMedian.cpp:407-447 | The calculator invariant is kept: balance, capacity, root order, and a sample table in creation order. The node values gain the sample: it is appended while the window fills and replaces the oldest once full. The rolling index advances modulo `W`. |
| SlidingMedian.NextIndex | cpp/MovingMedian.cpp:445-446 | Advancing the rolling index modulo `W` wraps to 0 exactly after the last slot. |
| SlidingMedian.MiddlesAtRoots | cpp/MovingMedian.cpp:393-400 | The lower middle of the sorted samples is the max-heap root. The upper middle is the min-heap root when the halves are equal, and the max-heap root otherwise. |
| SlidingMedian.GetTwiceMedian | cpp/MovingMedian.cpp:386-403 | No samples is an error. Otherwise the result is twice the median of the held samples: the sum of the two middle elements once sorted. |
| SlidingMedian.TwiceMedianC | fraudulent_activity_notifications/median_heap.c:405-435 | 0 when there are no samples; otherwise twice the median of the held samples. |
| SlidingMedian.GetFirstMedian | java/fraudulent_activity/Result.java:412-419 | An error exactly when empty; otherwise the lower middle of the sorted samples. |
| SlidingMedian.GetSecondMedian | java/fraudulent_activity/Result.java:421-437 | An error exactly when empty; otherwise the upper middle of the sorted samples. |
| ActivityNotifications.WindowStep | cpp/MovingMedian.cpp:407-447 | Feeding day `i` keeps the circular-table invariant. The table holds the last `min(i+1, d)` days, with the oldest at the rolling index. |
| ActivityNotifications.WindowMedian | cpp/MovingMedian.cpp:480-482 | Once `d` samples are held, they are a permutation of the previous `d` days. So the calculator's twice-median equals the reference value for that window. |
| ActivityNotifications.TwiceMedianJava | java/fraudulent_activity/Result.java:457-458 | Once `d` samples are held, first plus second median is twice the median of the previous `d` days. |
| ActivityNotifications.NoticeCpp | cpp/MovingMedian.cpp:480-486 | The per-day test is true exactly when at least `d` days precede day `i` and its spending reaches twice their median. |
| ActivityNotifications.ActivityNotificationsCpp | cpp/MovingMedian.cpp:473-491 | A window below one day is an error. Otherwise the result is the number of days with `d` preceding days whose spending reaches twice the sorted median of those days. |
| ActivityNotifications.ActivityNotificationsJava | java/fraudulent_activity/Result.java:450-469 | A window below two days is an error, because the calculator's constructor rejects it. Otherwise the result is the same count of notices. |
| LruCache.New | cpp/lru_cache.cpp:37-42 | An empty recency list with the given capacity. |
| LruCache.Get | cpp/lru_cache.cpp:84-99 | An absent key gives -1 and the same cache. A present key gives its value. |
| LruCache.GetRecency | cpp/lru_cache.cpp:84-99 | A hit moves the key to the most recent end of the recency sequence and changes no value. A miss changes nothing. The linked-list and capacity invariant is kept. |
| LruCache.Set | cpp/lru_cache.cpp:55-82 | Afterwards the key is cached with the new value and the capacity is unchanged. |
| LruCache.SetRecency | cpp/lru_cache.cpp:55-82 | An existing key is overwritten and moved to the most recent end. A new key first evicts the least recent one when `cp` keys are held, then is appended as most recent. The value map changes accordingly, and the key count stays within `cp`. |
| LruCache.EvictLinked | cpp/lru_cache.cpp:63-67 | At capacity, eviction removes the head: the least recent key and its value. |
| LruCache.RemoveNode | cpp/lru_cache.cpp:102-125 | The key leaves the map. Head and tail move past it. Its neighbours' `next` and `prev` links bridge over it, and all values stay. |
| LruCache.RemoveLinked | cpp/lru_cache.cpp:102-125 | Unlinking the node at any position of a well-linked list gives the well-linked list of the remaining keys. This covers a head, tail, middle or sole node. |
| LruCache.RemovedEnds | cpp/lru_cache.cpp:104-111 | After unlinking, head and tail are the first and last of the remaining keys. |
| LruCache.AddNode | cpp/lru_cache.cpp:127-142 | The new key joins the map after the old tail with no successor. Only the old tail's `next` changes. |
| LruCache.AddLinked | cpp/lru_cache.cpp:127-142 | Appending to a well-linked list gives the well-linked list of the keys followed by the new key. |
| LruCache.TouchLinked | cpp/lru_cache.cpp:144-149 | Touching moves the key to the end of the recency sequence and sets its value; every other key keeps its order. |
| DecodeMessage.KeyOffsetClosed | c/decode_message.c:22-31 | The offset of keys of length `k` plus `k + 1` is `2^k`: the closed form of the sum of `2^i - 1` below `k`. |
| DecodeMessage.KeyRangesDisjoint | c/decode_message.c:22-31 | All keys of a shorter length index the header before the first key of a longer length. |
| DecodeMessage.ComputeKeyOffset | c/decode_message.c:22-31 | The summing loop computes that closed form. |
| DecodeMessage.MessageStart | c/decode_message.c:33-39 | The result is the position just after the first newline, or nothing when there is no newline. |
| DecodeMessage.ReadBits | c/decode_message.c:41-56 | It reads exactly `len` bits, each 0 or 1, consuming at least `len` characters. |
| DecodeMessage.ParseBinary | c/decode_message.c:41-56 | The value read is below `2^len`. |
| DecodeMessage.ParseEncode | c/decode_message.c:41-56 | Parsing the `len`-bit encoding of any `v < 2^len` gives back `v` and the rest of the text. |
| DecodeMessage.ParseSkipsReturn | c/decode_message.c:50 | A carriage return before the bits does not change what is read. |
| DecodeMessage.EndsAtZeroLength | c/decode_message.c:63-66 | A key length of 000 ends the message with nothing more emitted. |
| DecodeMessage.EndsAtAllOnes | c/decode_message.c:71-73 | The all-ones key ends a segment with nothing emitted. |
| DecodeMessage.KeyStep | c/decode_message.c:73-78 | Every other key emits the header character at its key's offset plus the key, then decoding continues. |
| DecodeMessage.DecodeEncode | c/decode_message.c:58-80 | Decoding the encoding of any list of well-formed segments emits exactly the header characters their keys name. |
| DecodeMessage.DecodeLine | c/decode_message.c:58-80 | For a header line followed by encoded segments, the whole-line decoder emits exactly the characters the keys name in the NUL-terminated line. |
| DecodeMessage.Decode | c/decode_message.c:33-39 | A line without a newline cannot be decoded. |
| DecodeMessage.TerminatorLookup | c/decode_message.c:76-77 | A key naming the position just past the line emits the NUL terminator. |
| DecodeMessage.TerminatorIsZeroBit | c/decode_message.c:48-53 | The terminator is read as a 0 bit: the line `A` newline `00` decodes to the empty message. |
| DecodeMessage.BeyondTerminatorTruncated | c/decode_message.c:48-53 | A read beyond the terminator is an error: the line `A` newline `0` is truncated. |
| Documents.TokenStartSpec | c/structuring_document.c:91 | The current token starts just after the last delimiter (or at 0), and contains no delimiter. |
| Documents.SpaceScanned | c/structuring_document.c:65-69 | A space emits the token as one word of the open sentence and increments its word count. |
| Documents.PeriodScanned | c/structuring_document.c:70-77 | A period emits one word and closes the sentence. It also increments the paragraph's sentence count and opens the next sentence at the next word slot. |
| Documents.NewlineScanned | c/structuring_document.c:78-83 | A newline emits no word and opens a paragraph at the current sentence index. |
| Documents.OtherScanned | c/structuring_document.c:56-57 | Any other character changes no table. |
| Documents.StepScanned | c/structuring_document.c:54-95 | Each character read keeps the tables equal to the word, sentence and paragraph structure of the text read so far. |
| Documents.GetDocument | c/structuring_document.c:39-98 | The tables are the structure of the whole text. There is one word per space or period, and sentences are closed by periods. There is one paragraph per newline plus one, and the paragraph count is the number of newlines plus 1. |
| Documents.KthWordIsToken | c/structuring_document.c:100-115 | The 1-indexed lookup finds a maximal delimiter-free token ending at a space or period. It ends at a period exactly when it is its sentence's last word. |
| QueryDocuments.ProjectSpace | c/querying_document.c:55-58 | A space records the token's start as the next word. |
| QueryDocuments.ProjectPeriod | c/querying_document.c:59-64 | A period records the next word and opens the next sentence at the next word slot. |
| QueryDocuments.ProjectNewline | c/querying_document.c:65-69 | A newline opens the next paragraph at the current sentence slot and records no word. |
| QueryDocuments.ProjectStep | c/querying_document.c:44-80 | One step of the pointer-form tokeniser is the projection of one step of the counting tokeniser. |
| QueryDocuments.GetDocument | c/querying_document.c:32-83 | Returns the structured document of the text (its words, sentences and paragraphs, as `Documents.GetDocument` builds them) together with pointer tables that are exactly that document's projection. |
| QueryDocuments.SameWord | c/querying_document.c:15-30 | The 1-indexed lookups of both tokenisers find the same word, a token ending at a space or period. |
| MatrixRotation.NumElements | python/matrix_rotation.py:17-21 | A ring has `2(rows-1) + 2(cols-1)` cells, at least 4. |
| MatrixRotation.Next | python/matrix_rotation.py:24-38 | The next coordinate is on the ring, one position further along the counter-clockwise numbering, wrapping after the last. |
| MatrixRotation.Orbit | python/matrix_rotation.py:48-60 | From the top-left, `num_elements` steps return to the start, no two earlier steps meet, and every ring cell is reached. |
| MatrixRotation.Walk | python/matrix_rotation.py:52-53 | `r` steps from the top-left reach the cell numbered `r`. |
| MatrixRotation.CopyRing | python/matrix_rotation.py:55-60 | After the copying loop, every ring cell holds the original value from `r` positions behind it, and every other cell is unchanged. |
| MatrixRotation.RotateRing | python/matrix_rotation.py:41-60 | `r` is reduced modulo the ring size. A multiple of the ring size leaves the matrix unchanged; otherwise the ring is rotated as above. |
| MatrixRotation.RingCell | python/matrix_rotation.py:55-60 | After a ring's rotation, each of its cells holds the original value from `r` positions behind it. |
| MatrixRotation.OnLayer | python/matrix_rotation.py:71-79 | A cell lies on the `l`-th ring exactly when `l` is its distance to the nearest border. |
| MatrixRotation.Finished | python/matrix_rotation.py:71-79 | When the ring loop stops, every cell holds its expected value. A remaining centre row, column or cell is unchanged. |
| MatrixRotation.Rotate | python/matrix_rotation.py:63-79 | An empty matrix is an error exactly as `matrix[0]` raises `IndexError`. Otherwise the result has the input's shape, and every cell holds its expected value. |
| MatrixRotation.RotateRings | python/matrix_rotation.py:68-79 | Every cell holds its expected value, read from the untouched copy: a ring cell the value `r` steps behind it on its ring, and a centre cell its own value. |
| MatrixRotation.Forward | python/matrix_rotation.py:52-60 | The value that started at any ring cell `p` ends at `next^r(p)`. |
| BiggerIsGreater.GetNextGreatestCharToRight | bigger_is_greater/Solution.cs:21-40 | Nothing exactly when no greater character lies to the right. Otherwise the position of the smallest greater character to the right, the leftmost on ties. |
| BiggerIsGreater.FindPivot | bigger_is_greater/Solution.cs:56-66 | No pivot exactly when no position has a greater character to its right. Otherwise the pivot is the last such position, and the partner is its smallest greater character to the right. |
| BiggerIsGreater.SortChars | bigger_is_greater/Solution.cs:77 | The sorted characters are ascending and a permutation of the input. |
| BiggerIsGreater.ComposePermutes | bigger_is_greater/Solution.cs:75-79 | The prefix, the chosen character and the sorted rest together are a permutation of `w`. |
| BiggerIsGreater.ComposeIsNext | bigger_is_greater/Solution.cs:75-79 | That composition is a permutation lexicographically greater than `w`, and no smaller such permutation exists. |
| BiggerIsGreater.NoneGreater | bigger_is_greater/Solution.cs:68-71 | Without a pivot no permutation of `w` is lexicographically greater. |
| BiggerIsGreater.GreaterHasPivot | bigger_is_greater/Solution.cs:56-66 | Any greater permutation first differs from `w` at a position that has a greater character to its right. |
| BiggerIsGreater.BiggerIsGreater | bigger_is_greater/Solution.cs:49-80 | "no answer" when no permutation of `w` is greater. Otherwise the next permutation: the smallest permutation greater than `w`. |
| LongestIncreasing.ReplaceElement | python/longest_increasing_subsequence.py:4-17 | An empty list is an error (the source reads index 0). Otherwise exactly one position is overwritten. Every earlier value is below the element. The overwritten value was at least the element, or it is the last position. |
| LongestIncreasing.Place | python/longest_increasing_subsequence.py:27-34 | The list stays strictly increasing. It grows by one exactly when the value exceeds the last element; otherwise its length is unchanged. |
| LongestIncreasing.TailsStep | python/longest_increasing_subsequence.py:26-34 | After each element, entry `l` of the list is the smallest possible last value of an increasing subsequence of length `l + 1`, and no longer one exists. |
| LongestIncreasing.PlacedIncreasing | python/longest_increasing_subsequence.py:28-34 | Appending or replacing at the binary-search position keeps the list strictly increasing. |
| LongestIncreasing.TailsLongest | python/longest_increasing_subsequence.py:36 | The list's length is the length of a longest increasing subsequence. |
| LongestIncreasing.LongestIncreasingSubsequence | python/longest_increasing_subsequence.py:20-36 | An empty input is an error. Otherwise the result is the length of a longest strictly increasing subsequence, between 1 and the input length. |
| LongestIncreasing.BestRecurrence | python/longest_increasing_subsequence.py:43-59 | The best length from `i` is at least 1 plus the best from any later larger element. It is 1 when there is none, and otherwise equals 1 plus the best from some later larger element. |
| LongestIncreasing.Table | python/longest_increasing_subsequence.py:43-59 | The quadratic table holds, for each position, the length of the longest increasing subsequence starting there. |
| LongestIncreasing.MaxOf | python/longest_increasing_subsequence.py:61 | The maximum of the table, attained at some position. |
| LongestIncreasing.BestLongest | python/longest_increasing_subsequence.py:61 | The table's maximum is the longest increasing subsequence length. |
| LongestIncreasing.LongestIncreasingSubsequenceNSquared | python/longest_increasing_subsequence.py:39-61 | An empty input is an error (`max` of an empty list). Otherwise the result is the longest increasing subsequence length, between 1 and the input length. |
| LongestIncreasing.BothAgree | python/longest_increasing_subsequence.py:20-61 | Both functions fail on the same inputs and otherwise return the same value. |
| LongestIncreasing.LongestUnique | python/longest_increasing_subsequence.py:20-61 | The longest length is unique, so both characterisations pin down one number. |
| NonDivisible.CsRemAgrees | nondivisible_subset/Solution.cs:43 | C#'s `%` is negative exactly for a negative dividend that is not a multiple of `k`, and otherwise agrees with the mathematical remainder. |
| NonDivisible.DivisibleSum | nondivisible_subset/Solution.cs:47-53 | `a + b` is divisible by `k` exactly when their remainders sum to 0 or to `k`. |
| NonDivisible.FineIsNonDivisible | nondivisible_subset/Solution.cs:47-53 | A set of positions has no two values summing to a multiple of `k` exactly when no two of its remainders are complementary. |
| NonDivisible.CountRemainders | nondivisible_subset/Solution.cs:40-45 | The count for each remainder `r` is the number of values with remainder `r`. A negative remainder, which would be an out-of-range index, is reported. |
| NonDivisible.UpperBound | nondivisible_subset/Solution.cs:50-63 | No valid subset is larger than the source's sum: the larger class of each complementary pair, plus at most one of remainder `k/2` and at most one of remainder 0. |
| NonDivisible.Witness | nondivisible_subset/Solution.cs:50-63 | Some valid subset has exactly that size. |
| NonDivisible.OneIsLargest | nondivisible_subset/Solution.cs:31-34 | With one value, or with `k == 1`, the largest valid subset has size 1. |
| NonDivisible.NonDivisibleSubset | nondivisible_subset/Solution.cs:29-66 | Fewer than two values or `k == 1` gives 1. A non-positive `k`, or a negative value leaving a negative remainder, is an error. Otherwise the result is the size of the largest subset with no two values summing to a multiple of `k`. |
| MaxDifference.Stretch | python/max_difference.py:17-26 | One loop step keeps the result at least 0. The result is at least every forward difference in the prefix, and is attained by one of them or is 0. |
| MaxDifference.GetMaxDifference | python/max_difference.py:7-28 | An empty list is an error. Otherwise the result is `max(0, max over i < j of numbers[j] - numbers[i])`. |
| ContainerOfBalls.TotalsAgree | python/container_of_balls.py:15-18 | The container sizes and the colour counts have the same total. |
| ContainerOfBalls.AddContainer | python/container_of_balls.py:15-18 | One outer step sets that container's size to its sum and extends the colour counts by its row. It fails exactly when the row has more colours than containers, where the source would index out of range. |
| ContainerOfBalls.OrganizingContainers | python/container_of_balls.py:4-24 | With no row longer than `n`, the answer is "Possible" exactly when the multiset of container sizes equals the multiset of colour counts, and "Impossible" otherwise. |
| AlmostPairs.ToDictionary | almost_pairs/Solution.cs:33 | A duplicate value is an error; otherwise the key set is the set of values. |
| AlmostPairs.CountPaired | almost_pairs/Solution.cs:34-41 | The loop counts the values `x` for which `x - k` is a key. |
| AlmostPairs.PairedBounds | almost_pairs/Solution.cs:31-43 | For distinct values the count is at most the number of values. With `k == 0` it equals the number of values. |
| AlmostPairs.Pairs | almost_pairs/Solution.cs:29-44 | Duplicates are an error exactly. Otherwise the result is the number of values `x` with `x - k` also present: at most `|arr|`, and `|arr|` when `k == 0`. |
| BitArray.NextValue | cpp/bit_array.cpp:29-30 | The next value is below `2^31`. |
| BitArray.Generated | cpp/bit_array.cpp:22-33 | The sequence starts at `s`. Every later value is `(prev * p + q) mod 2^31` and below `2^31`. |
| BitArray.DistinctBounds | cpp/bit_array.cpp:35 | A non-empty sequence has between 1 and its length distinct values. |
| BitArray.CountDistinct | cpp/bit_array.cpp:13-35 | The output is the number of distinct values among the generated ones (one value when `n < 1`). It is between 1 and `n`. |
| Variadics.ReverseBits | cpp/variadics.cpp:6-21 | For any non-empty bit list the value is below `2^len`. |
| Variadics.ReversedBinary | cpp/variadics.cpp:6-21 | The value is the ordinary most-significant-first reading of the reversed list, so the first bit is the least significant. |
| Variadics.FirstBitParity | cpp/variadics.cpp:10 | The first bit decides the value's parity. |
| Variadics.SingleBit | cpp/variadics.cpp:15-21 | A single bit evaluates to itself. |
| Variadics.Thirteen | cpp/variadics.cpp:23-29 | The bits 1, 0, 1, 1 give 13. |
| MoonGraph.Add | python/journey_to_moon.py:18 | Set insertion: the members are the old ones plus `x`, without repeats. The size grows exactly when `x` is new. |
| MoonGraph.SizeCountsNodes | python/journey_to_moon.py:14-15 | In a graph built by `add_node` and `add_edge`, `size` is the number of distinct nodes, as the length of a Python set is. |
| MoonGraph.AddNode | python/journey_to_moon.py:17-18 | The node set gains the node, and the edges are unchanged. |
| MoonGraph.AddNodeValid | python/journey_to_moon.py:17-18 | Adding a node keeps the graph repeat-free and symmetric. |
| MoonGraph.AddEdgeAdjacent | python/journey_to_moon.py:20-26 | After `add_edge(a, b)` the adjacency is the old one plus `a`–`b` in both directions. The nodes are unchanged. |
| MoonGraph.AddEdgeValid | python/journey_to_moon.py:20-26 | `add_edge` keeps the graph symmetric and its neighbour lists repeat-free. |
| MoonGraph.ComponentOf | python/journey_to_moon.py:44-60 | The nodes connected to a node form one whole connected component. |
| JourneyToMoon.PushUnvisited | python/journey_to_moon.py:58-60 | Every neighbour of the popped node is either visited or pushed, and only unvisited neighbours are pushed. |
| JourneyToMoon.Round | python/journey_to_moon.py:52-60 | One pop, mark and push round keeps the walk invariant, or fails exactly when the popped node has no edge entry (a `KeyError`). |
| JourneyToMoon.Visit | python/journey_to_moon.py:44-60 | The yielded nodes, collected into a graph, are exactly the component of the start node. They start with it and none was visited before. The visited set grows by exactly them and stays closed under edges. |
| JourneyToMoon.NextSubgraph | python/journey_to_moon.py:32-42 | A node already visited is skipped. Otherwise its component is added as the next subgraph, keeping the subgraphs disjoint and covering the visited set. |
| JourneyToMoon.GetSubgraphs | python/journey_to_moon.py:28-42 | A failure happens exactly when some node has no edges. Otherwise the subgraphs are whole components, pairwise disjoint, and every node lies in one of them. Their sizes add up to the node count. |
| JourneyToMoon.BuildFacts | python/journey_to_moon.py:67-72 | The built graph is valid. Its nodes are exactly the named astronauts, and each has an edge entry. Two astronauts are adjacent exactly when they were given as a pair. |
| JourneyToMoon.BuildGraph | python/journey_to_moon.py:67-72 | The loop builds that graph. |
| JourneyToMoon.Formula | python/journey_to_moon.py:79 | `m(m-1)/2` is exact and counts the pairs among `m`. |
| JourneyToMoon.PairsAmong | python/journey_to_moon.py:79 | Computes the number of pairs among `m`. |
| JourneyToMoon.SameCountryPairs | python/journey_to_moon.py:83-86 | The sum over countries of the pairs inside each. |
| JourneyToMoon.PairsSplit | python/journey_to_moon.py:78-88 | The pairs of a population are the same-country pairs plus the cross-country pairs. |
| JourneyToMoon.JourneyToMoon | python/journey_to_moon.py:63-88 | The countries are the connected components of the pair graph: disjoint, covering every named astronaut, with sizes totalling the node count. The result is all pairs minus same-country pairs. |
| JourneyToMoon.CountsCrossPairs | python/journey_to_moon.py:63-88 | For astronauts numbered below `n`, that result is exactly the number of pairs from different countries. Unpaired astronauts count as one-person countries. |

## Left out

- Console I/O and drivers are not modelled: `main`, `printf`, `print`, `input()`, `cin`/`cout`. Decoding returns the emitted characters, and matrix rotation returns the matrix.
- Memory management is not modelled: allocation, freeing, destructors and copy/move restrictions. Nodes are arena indices and the node→heap pointer is a tag.
- Generics and comparators are not modelled. The element type is fixed to mathematical `int`, so machine-integer overflow, the "crude" overflow checks and `vector::capacity` slack are left out. Capacity is exactly the requested value.
- The abstract `Cache` base class (virtual `set`/`get`) is not modelled. Only `LRUCache`'s behaviour is.
- LruCache.Set: requires `cp != 0`. With capacity 0 the source evicts from an empty list, a null dereference with no defined outcome.
- BinaryHeap.InitHeapC: modelled only for a non-negative capacity. The C code does not validate it, and a negative `calloc` size has no defined outcome.
- SlidingMedian.InitC: modelled only for at least one sample. With none, the C rolling index is reduced modulo 0.
- DecodeMessage.Decode: the line is decoded as its C string, terminator included. Reading beyond the terminator, or looking up beyond it, has no defined outcome in C. Both are modelled as errors, and the contract promises only the round trip, the terminator cases and the missing-newline case. Key lengths are at most 7 bits, as the C `UINT` arithmetic assumes.
- Documents.GetDocument and QueryDocuments.GetDocument: the static tables become sequences. Their sizes (1005 characters, 5 paragraphs) are preconditions, and the text is NUL-free, as in a C string. Overwriting delimiters with NUL is not modelled: a word is a span of the text.
- Documents.GetDocument: later sentence and paragraph counters rely on static zero-initialisation, and the model starts them at 0. A second call on the same static tables is not modelled.
- MatrixRotation.Rotate: `r` is a natural number. Python's `%` on a negative `r` is not modelled.
- JourneyToMoon: `int(x / 2)` is modelled as exact integer division. That is right for the even products it divides, but float rounding for huge values is left out.
- JourneyToMoon.GetSubgraphs: generators are modelled as sequences, and Python sets as repeat-free sequences in insertion order. The source iterates sets in hash order, which changes only the order of the yielded countries.
- JourneyToMoon.Visit: a node missing from the edge map raises `KeyError` in the source and gives `None` here. The stack may hold a node twice; set insertion makes the duplicate harmless, as in the source.
- JourneyToMoon.JourneyToMoon: it also returns the countries, so that the contract can state the count in terms of them.
- BinaryHeap.Update: the sift direction is not part of the contract (upward exactly when the new value ranks above the old one). The contract states the repaired heap that results.
- LongestIncreasing.ReplaceElement: the in-place list mutation is modelled as a returned list, and the chosen index is also returned.
- LongestIncreasing.BothAgree: it states that both functions agree; both are also separately proved to return the true maximum.
- NonDivisible.NonDivisibleSubset: an empty list gives 1, as the source does, although the largest subset of an empty list is empty. Its optimality is stated only for non-empty lists. C# exception messages are modelled as strings and not compared.
- MaxDifference.GetMaxDifference: only integers are modelled, not the float instantiation of the type variable.
- BitArray.CountDistinct: the 2^31-bit `bitset` is a mathematical set, and 64-bit overflow of `prev * p + q` is excluded by keeping `s`, `p` and `q` below 2^31.
- Variadics.ReverseBits: template metaprogramming is a recursive function on a non-empty bit list. An empty list does not compile in the source.
- AlmostPairs.ToDictionary: .NET `ToDictionary` is modelled by its observable result (a key set, or an error on a duplicate).
- BinaryHeap.SwapStores: the storage is carried one write at a time. It is not threaded through the sift loop of `FixHeap`, whose every write is a `_swap_nodes`, shown here to keep the storage in step with the heap.
- BiggerIsGreater.SortChars: .NET `Order()` is modelled by its observable result (an ascending permutation).
- BiggerIsGreater.BiggerIsGreater: characters compare as Unicode scalar values. A C# `char` is a UTF-16 code unit, so words with characters outside the Basic Multilingual Plane would be split and ordered differently.
