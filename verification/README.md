# Collections, arena and backtrace support: a verified model

This project models the library code of the Rust repository that does the most work on
pointers, bits and shared memory, and proves what it is there for.

- `RobinHood.dfy`, `HashMap.dfy`: the hash map with Robin Hood bucket stealing and
  backward-shift deletion, on three parallel arrays.
- `AaTree.dfy`, `TreeMap.dfy`, `TreeIter.dfy`: the balanced tree map on heap nodes, and its iterators.
- `Trie.dfy`, `TrieMap.dfy`, `TrieIter.dfy`: the radix-16 trie map on heap nodes, and its traversals.
- `ModuleList.dfy`: the lock-free list of debug modules, as steps of any number of threads.
- `FreeList.dfy`, `FreeListBytes.dfy`: the try-lock allocator of the backtrace library, as steps of any
  number of threads over one memory in which free blocks carry their own headers; and what becomes of every byte.
- `Leb128.dfy`: the readers of variable-length numbers in debug sections.
- `DList.dfy`: the doubly linked list, with ordered insertion and merging.
- `LruCache.dfy`, `LruRuns.dfy`: the cache of map plus list, and what it answers over whole histories.
- `PriorityQueue.dfy`: the binary heap that moves elements through a hole.
- `Arena.dfy`, `ArenaNesting.dfy`: the arena whose destructor walk re-derives the records of a chunk, and
  allocations whose initialisers allocate in turn and may fail.
- `PowersOfTwo.dfy`: the rounding of words up to powers of two that the hash map and the arena use.
- `Bits.dfy`, `Orders.dfy`, `Sequences.dfy`, `Wrappers.dfy`: machine words, orders, sequences, options.

Code that updates state in place is modelled by classes, arrays and loops; each method is tied
to a function on values, and the laws are proved about that function. Hash functions, orders
and predicates passed by callers are arbitrary functions. Machine words have 64 bits, and
wrap-around is written out. Threads interleave at each load and compare-and-swap of the module
list. In the allocator a step is a lock operation, one move of the scan, one unlinking, one
freeing, one new page, or a caller's write to a byte of its own.

Where the code does less than one might expect, the exact condition is proved:

- A hash map asked for more than 2^63 buckets gets none, because the rounding wraps to zero, and
  is then no sound map (`HashMap.HashMap.WithCapacityAndHasher`, `HashMap.CapacityVanishes`);
  `reserve` above 2^63 reserves nothing (`HashMap.HashMap.Reserve`).
- A sound hash map fails where the byte counts of its arrays overflow, in exactly the states of
  `HashMap.HashMap.Overflows`; from a sound map no other failure is reachable.
- An arena asked for an object with a destructor makes chunks for ever if the header does not
  fit beside the object (`Arena.GrowMayNotFit`); for an object of at least one byte that takes
  an alignment below a word (`Arena.GrowFitsExactly`). `Arena.Arena.Begin` gives the exact condition, which its
  caller can compute beforehand, and answers None there.
- Variable-length numbers of more than about 600 million bytes are not all read right, because
  the shift counter has 32 bits (`Leb128.UnsignedExactly`, `Leb128.SignedExactly`).

## Model

| member | source | states |
|---|---|---|
| `Bits.AndMask` | src/libcollections/hashmap.rs:716-721 | Masking with 2^k - 1 is the remainder by 2^k, for every number; this is what makes `hash & (capacity - 1)` a bucket index. |
| `Bits.Pow2Test` | src/libcollections/hashmap.rs:1052-1054 | The resize assertion `(n - 1) & n == 0` holds of every power of two. |
| `Bits.RoundUpLeast` | src/libarena/lib.rs:126-129 | `round_up` returns the least multiple of a power-of-two alignment that is not below its argument, wherever the sum does not wrap. |
| `PowersOfTwo.NextPowerOfTwo` | src/libstd/num/mod.rs:300-310 | The bit-spreading loop on every 64-bit word: the least power of two that is at least n, or zero where n is zero or above 2^63. |
| `PowersOfTwo.SpreadStep` | src/libstd/num/mod.rs:305-308 | One round of the loop doubles the number of leading ones, for any number of bits. |
| `PowersOfTwo.WrappedIsPow2` | src/libstd/num/mod.rs:300-310 | The result is a power of two exactly for 0 < n <= 2^63, and there less than twice n. |
| `HashMap.ProbeIsAhead` | src/libcollections/hashmap.rs:716-721 | The idx-th probe, a masked 64-bit sum that may wrap, is (hash + idx) mod capacity: the bucket idx steps after the ideal one, going around the table. |
| `HashMap.ProbeNextIsNext` | src/libcollections/hashmap.rs:725-728 | `probe_next` is the cyclic successor. |
| `HashMap.RawTable.constructor` | src/libcollections/hashmap.rs:218-227 | A new raw table has only empty buckets. |
| `HashMap.RawTable.Put` | src/libcollections/hashmap.rs:311-325 | Filling an empty bucket changes that bucket and nothing else, and the size stays the number of full buckets. |
| `HashMap.RawTable.Take` | src/libcollections/hashmap.rs:331-355 | Emptying a full bucket hands out its entry, changes nothing else, and keeps the size right. |
| `RobinHood.RunBehind` | src/libcollections/hashmap.rs:541-550 | Under the invariant there is no gap between an entry's ideal bucket and its place, and distances fall by at most one a step. |
| `RobinHood.SearchReaches` | src/libcollections/hashmap.rs:756-782 | A search for a stored entry meets, on the way, only full buckets whose distance is at least the number of probes made, so it does not stop early, and reaches the entry within `size` probes. |
| `RobinHood.ProbeMisses` | src/libcollections/hashmap.rs:756-782 | After a failed probe the key, if stored, lies further on; at an empty bucket or a smaller distance it is not stored at all. |
| `RobinHood.ProbesExhausted` | src/libcollections/hashmap.rs:756-782 | After `size` failed probes the key is nowhere in the table. |
| `RobinHood.PutKeepsLayout` | src/libcollections/hashmap.rs:945-949 | Filling the first hole met by a probe keeps the Robin Hood invariant and adds one entry. |
| `RobinHood.StealKeepsLayout` | src/libcollections/hashmap.rs:1093-1105 | Taking the bucket of a luckier entry keeps the invariant, exchanges exactly the two entries, and leaves the displaced one carried to the next bucket. |
| `RobinHood.PassKeepsCarried` | src/libcollections/hashmap.rs:1107-1132 | Passing an entry that is no luckier keeps the carried entry legal, and the number of probes within the number of entries. |
| `RobinHood.DeleteKeepsLayout` | src/libcollections/hashmap.rs:799-870 | Moving back the run behind a deleted entry, up to the first bucket that is empty or in its ideal place, keeps the invariant and loses exactly that entry. |
| `RobinHood.MovedCloser` | src/libcollections/hashmap.rs:833-862 | An entry that moves back was not in its ideal bucket, gets one step closer to it, and is then at most as far from it as the entry it replaces was. |
| `RobinHood.ShiftEnds` | src/libcollections/hashmap.rs:799-831 | The search for the end of the run stops within `size` steps, also in a table without holes. |
| `HashMap.HashMap.WithCapacityAndHasher` | src/libcollections/hashmap.rs:1020-1029 | For every word: None exactly where the byte count of the arrays overflows; otherwise an empty map whose capacity is what the rounding gives, and which is sound, and as large as asked for, exactly where at most 2^63 buckets are asked for. |
| `HashMap.CapacityKept` | src/libcollections/hashmap.rs:1020-1022 | The rounded capacity is a power of two, and at least what was asked for, exactly up to 2^63; it is 32 exactly up to 32, and above that less than twice what was asked for. |
| `HashMap.CapacityVanishes` | src/libcollections/hashmap.rs:716-721 | 2^63 + 1 is rounded to zero buckets; the mask is then all ones, and a probe for a hash leads to the hash itself. |
| `HashMap.HashMap.BucketDistance` | src/libcollections/hashmap.rs:739-753 | The distance, computed with or without wrap-around, is the cyclic distance from the ideal bucket. |
| `HashMap.HashMap.SearchHashed` | src/libcollections/hashmap.rs:756-782 | Finds a bucket with this hash and key, and answers None only if there is none. |
| `HashMap.HashMap.Search` | src/libcollections/hashmap.rs:795-797 | Finds a bucket exactly for the keys of the map. |
| `HashMap.HashMap.Find` | src/libcollections/hashmap.rs:912-917 | Answers as the finite map does. |
| `HashMap.HashMap.NextSpot` | src/libcollections/hashmap.rs:1107-1135 | The inner loop of the steal chain, with its exclusive bound `dib_param + 1 .. size`, ends at an empty or luckier bucket, never beyond the next hole, so its failure is never reached. |
| `HashMap.HashMap.RobinHood` | src/libcollections/hashmap.rs:1093-1136 | The steal chain terminates (measure: distance to a hole), keeps the invariant, and adds exactly the new entry, at the bucket it started from. |
| `HashMap.HashMap.Locate` | src/libcollections/hashmap.rs:940-972 | The probing loop of an insertion finds the key, or a bucket where it may go; `Out of space` is never reached. |
| `HashMap.HashMap.ManualInsertHashedNocheck` | src/libcollections/hashmap.rs:1144-1191 | Inserts a new key and leaves an existing one alone, without reaching `Internal HashMap error`. |
| `HashMap.HashMap.ShiftEnd` | src/libcollections/hashmap.rs:799-831 | Finds the end of the run behind a bucket within `size` probes. |
| `HashMap.HashMap.PopInternal` | src/libcollections/hashmap.rs:799-870 | Backward-shift deletion on the arrays: keeps the invariant, returns the value, drops exactly one entry; the failure branches are unreachable. |
| `HashMap.HashMap.Resize` | src/libcollections/hashmap.rs:1052-1066 | Moves every entry to a table of the new capacity, which then stands for the same map; fails exactly where the arrays cannot be allocated. |
| `HashMap.HashMap.MakeSomeRoom` | src/libcollections/hashmap.rs:1070-1085 | For n entries in c buckets: doubles the capacity exactly if 9c < 10(n + 1), else halves it exactly if 4n <= c and the minimum allows it, else keeps it; the map stays. Fails exactly if 9c < 10(n + 1) and 2c is too large to allocate. After making room for one more entry there is a hole. |
| `HashMap.RoomBounds` | src/libcollections/hashmap.rs:533-535 | For c buckets the growth threshold, in 64-bit arithmetic, is 9c / 10 rounded down, below the capacity; a quarter of the capacity leaves room in half of it. |
| `HashMap.GrowsAtNineTenths` | src/libcollections/hashmap.rs:533-539 | The growth threshold, computed in 64-bit arithmetic, is reached by n entries in c buckets exactly if 9c < 10(n + 1), for every capacity that can be allocated. |
| `HashMap.HashMap.Swap` | src/libcollections/hashmap.rs:935-973 | The map becomes `m[k := v]` and the old value is returned; the capacity is what making room for one more entry gives. Fails exactly if 9c < 10(size + 2) and 2c is too large to allocate. |
| `HashMap.HashMap.Pop` | src/libcollections/hashmap.rs:975-989 | The map loses the key and its value is returned; the capacity is what making room for one entry less gives. Fails exactly if 9c < 10 size and 2c is too large to allocate. |
| `HashMap.HashMap.Clear` | src/libcollections/hashmap.rs:898-907 | Empties the map in place and lowers the minimum capacity to the old size; the invariant holds even then. |
| `HashMap.HashMap.Reserve` | src/libcollections/hashmap.rs:1037-1046 | For every word: keeps the map; fails exactly where the rounded capacity cannot be allocated; otherwise the capacity is the greater of the old and the rounded one, which is as large as asked for exactly up to 2^63. Above that the minimum becomes zero. |
| `HashMap.HashMap.Len` | src/libcollections/hashmap.rs:893-893 | The number of keys of the map. |
| `HashMap.HashMap.Step` | src/libcollections/hashmap.rs:898-989 | Each operation, with any 64-bit argument, answers and changes the state as on a finite map; it fails exactly in the states, given in numbers, in which it asks for a table too large to allocate. |
| `HashMap.HashMap.Run` | src/libcollections/hashmap.rs:898-989 | Any sequence of operations answers as a finite map would; it stops early only at an operation that asks for a table too large to allocate. |
| `AaTree.InsertKeepsBalance` | src/libcollections/treemap.rs:860-888 | Insertion into a valid AA tree gives a valid AA tree, as high or one level higher. |
| `AaTree.RemoveKeepsBalance` | src/libcollections/treemap.rs:890-971 | Removal from a valid AA tree gives a valid AA tree, as high or one level lower. |
| `AaTree.LeftLowRightRed` | src/libcollections/treemap.rs:941-962 | The hardest rebalancing case, a low left subtree beside a right child on the same level: the fixed sequence of skews and splits restores all level rules. |
| `AaTree.LeftLowRightPlain` | src/libcollections/treemap.rs:941-962 | The case of a right child one level down. |
| `AaTree.RightLow` | src/libcollections/treemap.rs:941-962 | The case of a low right subtree. |
| `AaTree.SkewInOrder` | src/libcollections/treemap.rs:823-832 | Skewing moves no entry past another. |
| `AaTree.SplitInOrder` | src/libcollections/treemap.rs:834-843 | Splitting moves no entry past another. |
| `AaTree.RebalanceInOrder` | src/libcollections/treemap.rs:941-962 | Neither does the whole rebalancing. |
| `AaTree.InsertInOrder` | src/libcollections/treemap.rs:860-888 | The sorted entries split around the key; insertion puts the entry in between and returns what was there. |
| `AaTree.RemoveInOrder` | src/libcollections/treemap.rs:890-971 | The sorted entries split around the key; removal leaves the two parts and returns what was in between. |
| `AaTree.RemoveHeir` | src/libcollections/treemap.rs:914-924 | Swapping with the rightmost entry of the left subtree and removing there, in a tree that is for a moment out of order, still removes exactly the key. |
| `AaTree.FindInOrder` | src/libcollections/treemap.rs:93-107 | Search by comparison finds exactly the entries of a search tree. |
| `AaTree.SizeBound` | src/libcollections/treemap.rs:803-820 | A valid tree of level n has at least 2^n - 1 entries. |
| `AaTree.HeightBound` | src/libcollections/treemap.rs:803-820 | A valid tree of level n is at most 2n deep. |
| `AaTree.LogarithmicHeight` | src/libcollections/treemap.rs:803-820 | So depth is at most twice the logarithm of the size plus one. |
| `TreeMap.InsertSound` | src/libcollections/treemap.rs:860-888 | A balanced search tree for m becomes one for `m[key := value]`. |
| `TreeMap.RemoveSound` | src/libcollections/treemap.rs:890-971 | A balanced search tree for m becomes one for m without the key. |
| `TreeMap.SkewNode` | src/libcollections/treemap.rs:823-832 | The pointer swaps of `skew`, on heap nodes, do to the tree what the function on values does, with the same nodes. |
| `TreeMap.SplitNode` | src/libcollections/treemap.rs:834-843 | The same for `split`. |
| `TreeMap.InsertNode` | src/libcollections/treemap.rs:860-888 | The same for `insert`; only new nodes are added. |
| `TreeMap.HeirSwap` | src/libcollections/treemap.rs:892-903 | The same for `heir_swap`. |
| `TreeMap.RebalanceNode` | src/libcollections/treemap.rs:941-962 | The same for the rebalancing in `remove`. |
| `TreeMap.RemoveNode` | src/libcollections/treemap.rs:890-971 | The same for `remove`; no nodes are added. |
| `TreeMap.RemoveRoot` | src/libcollections/treemap.rs:913-938 | The branch for the key found; the case of a left child without a right child is never reached. |
| `TreeMap.TreeMap.Find` | src/libcollections/treemap.rs:93-107 | Answers as the finite map does. |
| `TreeMap.TreeMap.Swap` | src/libcollections/treemap.rs:119-123 | The map becomes `m[key := value]`, the old value is returned, and `length` stays its size. |
| `TreeMap.TreeMap.Pop` | src/libcollections/treemap.rs:127-131 | The map loses the key, the value is returned, and `length` stays its size. |
| `TreeIter.WalkIsInOrder` | src/libcollections/treemap.rs:346-391 | The forward walk over a tree is the sorted entries, the backward walk their reversal. |
| `TreeIter.Entries.constructor` | src/libcollections/treemap.rs:140-153 | An iterator over a map starts with the whole walk pending, and with exact size hints. |
| `TreeIter.Entries.Next` | src/libcollections/treemap.rs:346-391 | On the nodes of a map: one call yields the first pending entry and leaves the others pending; the size hints stay bounds. |
| `TreeIter.Entries.Collect` | src/libcollections/treemap.rs:346-391 | A loop over the iterator sees every pending entry once, in order. |
| `TreeIter.Iterate` | src/libcollections/treemap.rs:140-153 | Iterating a map yields its entries by rising key, each once; iterating it backwards yields the reverse. |
| `TreeIter.Bound` | src/libcollections/treemap.rs:188-217 | For a lower bound, exactly the entries with keys not less than k are left pending; for an upper bound, exactly those with keys greater than k; with those passed before them they are all entries of the map, in order. |
| `TreeIter.MoveEntries.constructor` | src/libcollections/treemap.rs:173-183 | `move_iter` takes over the nodes of the map, with all sorted entries to yield. |
| `TreeIter.MoveEntries.Next` | src/libcollections/treemap.rs:489-524 | The consuming iterator cuts the nodes apart and yields the first of the entries left to yield, and keeps the others. |
| `TreeIter.MoveAll` | src/libcollections/treemap.rs:173-183 | Consuming a map yields its entries by rising key, each once. |
| `Trie.ChunkSplits` | src/libcollections/trie.rs:411-414 | `chunk` cuts a key into base-16 digits, most significant first. |
| `Trie.Insert` | src/libcollections/trie.rs:425-462 | The slot stays well formed: counts equal the children in use, no node below the root is empty, keys agree with their path. A conflict is split at a depth below 16, so `chunk` never runs out of bits. |
| `Trie.InsertNode` | src/libcollections/trie.rs:425-462 | The same for the node that holds the slot. |
| `Trie.Remove` | src/libcollections/trie.rs:464-487 | The slot stays well formed: a node whose last child goes is given up. |
| `Trie.InsertNodeFind` | src/libcollections/trie.rs:425-462 | After insertion the key is found with its value, and every other key as before. |
| `Trie.RemoveNodeFind` | src/libcollections/trie.rs:464-487 | After removal the key is absent, and every other key found as before. |
| `Trie.AroundKey` | src/libcollections/trie.rs:188-205 | At each node a key splits the entries into smaller ones before its child and greater ones after it. |
| `Trie.EntriesList` | src/libcollections/trie.rs:558-607 | The traversal order lists the map: keys strictly ascending, each entry once, none missing. |
| `TrieMap.InsertAt` | src/libcollections/trie.rs:425-462 | The recursion on heap nodes overwrites slots and counts as the function on values says, and returns the old value. |
| `TrieMap.SplitLeaf` | src/libcollections/trie.rs:447-459 | Two different keys in one slot go into a new node; the depth still leaves a digit to split on. |
| `TrieMap.RemoveAt` | src/libcollections/trie.rs:464-487 | The same for removal. |
| `TrieMap.TrieMap.Find` | src/libcollections/trie.rs:55-72 | The loop answers as the finite map does and never looks beyond 16 digits. |
| `TrieMap.TrieMap.Swap` | src/libcollections/trie.rs:84-90 | The map becomes `m[key := value]`, the old value is returned, and `length` stays its size. |
| `TrieMap.TrieMap.Pop` | src/libcollections/trie.rs:94-100 | The map loses the key, the value is returned, and `length` stays its size. |
| `TrieMap.TrieMap.Clear` | src/libcollections/trie.rs:46-49 | The map becomes empty. |
| `TrieIter.Entries.PushNode` | src/libcollections/trie.rs:576-584 | The stack of 16 always has room for one more node. |
| `TrieIter.Entries.Next` | src/libcollections/trie.rs:558-607 | One call yields the first pending entry; the hints stay bounds; at the end it stays at the end, although the length field is then not written. |
| `TrieIter.Iterate` | src/libcollections/trie.rs:117-126 | Iterating a map yields its entries by rising key, each once. |
| `TrieIter.Bound` | src/libcollections/trie.rs:148-217 | For a lower bound, exactly the entries with keys >= key are left pending; for an upper bound, exactly those with keys > key; with those passed before them they list the map by rising key. The stack has at most 16 levels. |
| `TrieIter.FromIsSuffix` | src/libcollections/trie.rs:230-240 | Of an ordered list those entries are a suffix: all keys before it are below the bound, all keys in it reach it. |
| `TrieIter.EachReverse` | src/libcollections/trie.rs:397-406 | The visitor sees the entries by falling key, up to and including the first that it refuses. |
| `TrieIter.VisitedIsPrefix` | src/libcollections/trie.rs:397-406 | What a visitor sees is a prefix of the entries; it accepted all of them but possibly the last, and the visit ends early exactly at a refusal. |
| `TrieIter.VisitAll` | src/libcollections/trie.rs:112-114 | A visitor that never stops sees the reversed list of the map. |
| `ModuleList.StepKeepsInv` | src/libbacktrace/dwarf.c:2995-3016 | Every step of every thread keeps the list an acyclic chain without repetitions, keeps each unlinked node in the hands of one thread, and changes the list exactly by the node of a successful compare-and-swap, at its tail. |
| `ModuleList.RunKeepsList` | src/libbacktrace/dwarf.c:2995-3016 | So does every run, for any number of threads and any interleaving. |
| `ModuleList.ChainUnique` | src/libbacktrace/dwarf.c:2870-2883 | A state has only one list. |
| `ModuleList.ListsGrow` | src/libbacktrace/dwarf.c:2995-3016 | Along a run each list is a prefix of the later ones. |
| `ModuleList.AppendedStays` | src/libbacktrace/dwarf.c:3012-3013 | A node whose compare-and-swap succeeded is in every later list, at the same place, exactly once. |
| `ModuleList.NoNodeLost` | src/libbacktrace/dwarf.c:2975-3016 | For every run and every node built in it: in each later state the node is in the list, or the thread that built it is still at work on it, and never both. A failed compare-and-swap loses nothing. |
| `ModuleList.SoloAppends` | src/libbacktrace/dwarf.c:2995-3016 | From every reachable state, an appender left alone links its node at the end of the list, after a number of steps that is given in advance. |
| `ModuleList.AppenderMoves` | src/libbacktrace/dwarf.c:2995-3016 | In every reachable state an appender can take its next step. |
| `ModuleList.FailedSwapMeansAppend` | src/libbacktrace/dwarf.c:2999-3014 | For every failed compare-and-swap of every run: after the load in which the thread saw a null at that cell, another thread appended at the same cell. |
| `ModuleList.ReaderSeesAll` | src/libbacktrace/dwarf.c:2870-2883 | A reader that reaches the end has visited the whole list, hence every node linked before it began. |
| `ModuleList.ReaderMoves` | src/libbacktrace/dwarf.c:2870-2883 | In every reachable state a reader can go on to exactly the next node, and ends exactly where none is left. |
| `FreeList.StepKeepsInv` | src/libbacktrace/mmap.c:65-184 | Every step of every thread keeps the free list linked through the freed bytes, no byte in two places, and the lock exclusive. |
| `FreeList.ChainUnique` | src/libbacktrace/mmap.c:108-116 | A state has only one free list. |
| `FreeList.ListChangesInside` | src/libbacktrace/mmap.c:65-184 | The lists linked before and after a step differ only if a thread inside the lock took the step. |
| `FreeList.RunKeepsInv` | src/libbacktrace/mmap.c:65-184 | So does every run, for any number of threads and any interleaving. |
| `FreeList.AllocReturns` | src/libbacktrace/mmap.c:83-156 | An allocation returns a block of at least the size asked for, none of whose bytes any other thread or the free list has. |
| `FreeList.UnlinkTakes` | src/libbacktrace/mmap.c:108-126 | The block unlinked is the one that the scan's cell leads to; it is large enough, all before it on the list are too small, and the cell is made to lead past it. |
| `FreeList.SplitStep` | src/libbacktrace/mmap.c:117-122 | Giving back the part beyond the rounded size keeps the invariant, also where rounding exceeds the block. |
| `FreeList.MapStep` | src/libbacktrace/mmap.c:134-153 | A new page covers the rounded request; its tail is freed like any block. |
| `FreeList.PageCovers` | src/libbacktrace/mmap.c:138-147 | Rounding up to the page size covers rounding up to eight bytes. |
| `FreeListBytes.BytesConserved` | src/libbacktrace/mmap.c:65-184 | For every step of every thread: exactly the bytes that were held or free before, less a block freed while the lock is taken and a block or remainder below 16 bytes given back, and the bytes just mapped, are held or free after it. |
| `FreeListBytes.EveryByteAccounted` | src/libbacktrace/mmap.c:65-184 | In every state of every run, a byte is held by a thread or on the free list exactly if it was mapped and no step leaked it, for those two reasons only. |
| `FreeListBytes.ScanMove` | src/libbacktrace/mmap.c:106-131 | One move of the scan, seen on the list: it stands before a block, all earlier ones are too small; it takes that block exactly if it is large enough, else goes on to the next, and gives up exactly at the end. First fit. |
| `FreeListBytes.MapsOnlyIf` | src/libbacktrace/mmap.c:95-136 | A thread asks for a page only if it found the lock taken or no block of the free list is large enough. |
| `FreeListBytes.GiveMove` | src/libbacktrace/mmap.c:65-78 | The head of the block taken is returned, cut at the rounded size; the rest, or a freed block, goes to the front of the list exactly if it has 16 bytes or more. |
| `FreeListBytes.FreeReturns` | src/libbacktrace/mmap.c:158-184 | A call to free leaves its caller without the block, and ends before reaching the list only if it found the lock taken. |
| `FreeListBytes.NeverStuck` | src/libbacktrace/mmap.c:83-184 | In every reachable state each thread inside the allocator can take its next step, whatever the others do; only the system call for a page may keep it. |
| `FreeListBytes.StepKeepsAligned` | src/libbacktrace/mmap.c:117-122 | As long as callers free at multiples of eight, every step keeps all free blocks and all blocks about to be returned at multiples of eight. |
| `FreeListBytes.RunKeepsAligned` | src/libbacktrace/mmap.c:117-122 | So does every run. |
| `FreeListBytes.AllocAligned` | src/libbacktrace/mmap.c:83-156 | The block that an allocation returns then is aligned to eight bytes, and as large as asked for. |
| `PriorityQueue.LiftHole` | src/libcollections/priority_queue.rs:141-157 | Moving the parent into the hole keeps all other heap links. |
| `PriorityQueue.SinkHole` | src/libcollections/priority_queue.rs:159-179 | Moving the larger child into the hole keeps all other heap links. |
| `PriorityQueue.RootIsGreatest` | src/libcollections/priority_queue.rs:43-43 | No element of a heap exceeds its root. |
| `PriorityQueue.PriorityQueue.SiftUp` | src/libcollections/priority_queue.rs:141-157 | Restores the heap on any subrange by rearranging only that range. |
| `PriorityQueue.PriorityQueue.SiftDownRange` | src/libcollections/priority_queue.rs:159-179 | From a range that is a heap but for its first position, the hole sinks to the bottom and the element rises: a heap, rearranging only that range. |
| `PriorityQueue.PriorityQueue.FromVec` | src/libcollections/priority_queue.rs:126-134 | Builds a heap of the same elements from any vector. |
| `PriorityQueue.PriorityQueue.Push` | src/libcollections/priority_queue.rs:79-83 | Adds one element to the heap. |
| `PriorityQueue.PriorityQueue.Pop` | src/libcollections/priority_queue.rs:64-71 | Removes and returns a greatest element. |
| `PriorityQueue.PriorityQueue.MaybePop` | src/libcollections/priority_queue.rs:74-76 | The same, with None for the empty queue. |
| `PriorityQueue.PriorityQueue.PushPop` | src/libcollections/priority_queue.rs:86-92 | Returns the greatest of the queue and the new element, and keeps the rest. |
| `PriorityQueue.PriorityQueue.Replace` | src/libcollections/priority_queue.rs:95-99 | Returns the greatest of the queue and puts the new element in its place. |
| `PriorityQueue.CombinedAgree` | src/libcollections/priority_queue.rs:85-99 | `push_pop` and `replace` return a value of the same rank and keep the same other elements as push then pop, and pop then push; the same value and multiset where only equal elements rank equal. |
| `PriorityQueue.PriorityQueue.ToSortedVec` | src/libcollections/priority_queue.rs:106-115 | Returns a sorted permutation of the elements. |
| `Leb128.DwarfBuf.Advance` | src/libbacktrace/dwarf.c:400-408 | Moves on by count bytes if they are there; otherwise stays, and reports the underflow only once. |
| `Leb128.AccumulateStep` | src/libbacktrace/dwarf.c:560-571 | The accumulator, right modulo 2^64, stays right over one more byte, also where the shift reaches 64. |
| `Leb128.DwarfBuf.ReadUleb128` | src/libbacktrace/dwarf.c:544-575 | Consumes exactly the encoding and returns the accumulated groups, which are its value modulo 2^64 while the shift counter has not wrapped; one error report beyond ten bytes; at an encoding that does not end, zero and an underflow. |
| `Leb128.UnsignedExactly` | src/libbacktrace/dwarf.c:544-575 | Encodings of n bytes are all read right exactly if 7(n - 1) < 2^32; for every longer n one that is read wrong is given. |
| `Leb128.SignExtend` | src/libbacktrace/dwarf.c:608-611 | Setting all bits above the last group makes the accumulator the signed value modulo 2^64. |
| `Leb128.DwarfBuf.ReadSleb128` | src/libbacktrace/dwarf.c:579-613 | The same for signed numbers, with the sign extended from the last group. |
| `Leb128.SignedExactly` | src/libbacktrace/dwarf.c:579-613 | Signed encodings of n bytes are all read right exactly if 7n < 2^32. |
| `Leb128.EncodeUnsignedValue` | src/libbacktrace/dwarf.c:544-575 | The canonical unsigned encoder spells its number, in an encoding that ends where it ends. |
| `Leb128.EncodeSignedValue` | src/libbacktrace/dwarf.c:579-613 | The canonical signed encoder spells its number. |
| `Leb128.RoundTripUnsigned` | src/libbacktrace/dwarf.c:544-575 | Reading inverts the canonical encoder on every 64-bit word, whatever bytes follow. |
| `Leb128.RoundTripSigned` | src/libbacktrace/dwarf.c:579-613 | The same on every signed 64-bit number. |
| `DList.DList.PushFrontNode` | src/libcollections/dlist.rs:153-167 | `next` chain and `prev` chain stay mirrors with the tail and length right; the node is in front. |
| `DList.DList.PopFrontNode` | src/libcollections/dlist.rs:171-180 | The same; the first node is taken off, None for the empty list. |
| `DList.DList.PushBackNode` | src/libcollections/dlist.rs:184-193 | The same; the node is at the back. |
| `DList.DList.PopBackNode` | src/libcollections/dlist.rs:197-206 | The same; the last node is taken off. |
| `DList.DList.RotateForward` | src/libcollections/dlist.rs:277-281 | The last node moves to the front. |
| `DList.DList.RotateBackward` | src/libcollections/dlist.rs:287-291 | The first node moves to the back. |
| `DList.DList.Append` | src/libcollections/dlist.rs:296-313 | All nodes of the other list follow; the other list is left empty. |
| `DList.DList.Prepend` | src/libcollections/dlist.rs:319-322 | All nodes of the other list go in front. |
| `DList.MutItems.InsertNextNode` | src/libcollections/dlist.rs:533-551 | The node goes between the last and the next element of the cursor, at the ends too. |
| `DList.InsertWhen` | src/libcollections/dlist.rs:328-340 | The list becomes the sequence with the element in front of the first that f accepts. |
| `DList.InsertPlace` | src/libcollections/dlist.rs:328-340 | For every f: all elements in front of the new one are refused by f, the one behind it is accepted, and the others stay in their order. |
| `DList.Merge` | src/libcollections/dlist.rs:347-364 | The list becomes the two-list merge by f, reusing exactly the nodes of both lists; the other is left empty. |
| `DList.MergePermutes` | src/libcollections/dlist.rs:347-364 | A merge loses and adds nothing, whatever f does. |
| `DList.MergeSorts` | src/libcollections/dlist.rs:347-364 | Merging sorted lists gives a sorted list, for any total preorder and any f that never puts a greater element first. |
| `DList.MergeStable` | src/libcollections/dlist.rs:347-364 | Merging sorted lists by the order is stable: of each rank, the elements of the first list come first, and each list keeps its order. |
| `DList.InsertSorts` | src/libcollections/dlist.rs:328-340 | Inserting keeps a sorted list sorted, for any total preorder and any f that never puts a greater element first; `insert_ordered` is one such use. |
| `LruCache.Detach` | src/libcollections/lru_cache.rs:205-210 | Unlinks an inner entry and leaves all other links. |
| `LruCache.Attach` | src/libcollections/lru_cache.rs:213-220 | Links an entry right behind the head sentinel. |
| `LruCache.LruCache.constructor` | src/libcollections/lru_cache.rs:101-113 | Two sentinels linked to one another, and nothing in between. |
| `LruCache.LruCache.RemoveLru` | src/libcollections/lru_cache.rs:191-202 | Drops exactly the least recently used pair. |
| `LruCache.LruCache.Put` | src/libcollections/lru_cache.rs:116-142 | The pair, with the new value, comes to the front if there is any room, an old pair for the key goes, and the last goes if the capacity is exceeded; list, map and pairs agree. |
| `LruCache.LruCache.Get` | src/libcollections/lru_cache.rs:145-166 | Answers from the pairs and brings the key to the front. |
| `LruCache.LruCache.ChangeCapacity` | src/libcollections/lru_cache.rs:183-188 | Keeps exactly the most recently used pairs that fit. |
| `LruRuns.Run` | src/libcollections/lru_cache.rs:101-188 | For any run of put, get and change_capacity: a get finds its key exactly if the key was used before and, at every moment since its last use, fewer other keys had been used since than the capacity in force; and it answers the value of the last put of that key. The cache goes through exactly the contents of the model. |
| `LruRuns.HeldIff` | src/libcollections/lru_cache.rs:116-202 | After any run, a key is held exactly if at every moment since its last use fewer keys had been used since than the capacity; those keys are exactly the ones before it. |
| `LruRuns.HoldsLastPut` | src/libcollections/lru_cache.rs:116-166 | After any run, what is held for a key is the value of the last put of that key. |
| `LruRuns.GetAfterPut` | src/libcollections/lru_cache.rs:116-166 | A get right after a put of its key answers the value put, exactly if the capacity is not zero. |
| `LruRuns.KeepTouch` | src/libcollections/lru_cache.rs:116-142 | Evicting early makes no difference to what is kept after the next use. |
| `LruRuns.HoldsMostRecent` | src/libcollections/lru_cache.rs:101-188 | After any run the cache holds exactly the most recently used keys, in order of use, as many as its capacity: those of a history of uses that forgets keys only at a change of capacity. |
| `Arena.BitpackRoundTrip` | src/libarena/lib.rs:162-169 | The low bit of an even address carries the flag without losing the address, and the flag off is the address itself. |
| `Arena.LayoutOrder` | src/libarena/lib.rs:227-257 | Header, aligned object and next header lie one behind the other; the next header is aligned to a word, and less than a word behind the object. |
| `Arena.HeadersAligned` | src/libarena/lib.rs:227-257 | Every header of a chunk, and the place for the next one, is aligned to a word. |
| `Arena.RecordsDisjoint` | src/libarena/lib.rs:227-257 | No object reaches into its own header or into a later one. |
| `Arena.DestroyChunk` | src/libarena/lib.rs:131-156 | The walk re-derives every record's position from the types alone, lands on exactly the written headers, and runs the drop glue on the finished objects only. |
| `Arena.GrowMayNotFit` | src/libarena/lib.rs:215-224 | A fresh arena of 32 bytes never finds room for an object of 60 bytes aligned to 4: the chunk made for it has 64, and the header is not counted. |
| `Arena.GrowFitsExactly` | src/libarena/lib.rs:215-224 | For every type layout, whose size is a multiple of its alignment: the new chunk fits exactly if the object is not empty and aligned to a word or more, or a word (or the alignment) is left beside it. |
| `Arena.FillBound` | src/libarena/lib.rs:227-257 | The next header starts less than a word behind the end of the chunk, so no offset wraps. |
| `Arena.Arena.NewWithSize` | src/libarena/lib.rs:95-110 | For every 64-bit size: an arena starts with no objects and two empty chunks of that size, or there is no memory for it. |
| `Arena.Arena.NoncopyGrow` | src/libarena/lib.rs:215-224 | For every 64-bit size: the full chunk is kept, and a new empty one becomes the head; its size is the least power of two above both the object and the current chunk size, or zero where none fits a word. |
| `Arena.NewChunkIsNext` | src/libarena/lib.rs:176-181 | The new size is the only power of two r with n < r <= 2n + 1, n the greater of object and chunk; zero exactly from n = 2^63 on. |
| `Arena.Arena.CopyGrow` | src/libarena/lib.rs:176-188 | The same for the chunk of plain data. |
| `Arena.Arena.Begin` | src/libarena/lib.rs:227-270 | The record is reserved with an unfinished header, within its chunk; a new chunk is made exactly where the old is too small, and the records of the old stay as they are. None exactly where the new one is too small as well, and then the same request finds the same situation again. |
| `Arena.Arena.AllocCopyInner` | src/libarena/lib.rs:176-202 | Plain data always finds room, aligned, beyond what was filled, and within its chunk; a second new chunk is made exactly where the size of the first wraps to zero. |
| `Arena.Arena.Finish` | src/libarena/lib.rs:271-276 | Writing the flag adds this object, and no other, to those to be destroyed. |
| `Arena.Arena.Drop` | src/libarena/lib.rs:112-124 | Over all chunks, each finished object is destroyed exactly once, and no other. |
| `ArenaNesting.Alloc` | src/libarena/lib.rs:259-291 | An allocation with its initialiser, which allocates from the same arena and may fail: the objects added are new, different, and in type and order exactly those whose initialisers returned; an enclosing one that fails adds none. Records begun earlier stay where they are. Stuck only at a type that no chunk has room for. |
| `ArenaNesting.AllocAll` | src/libarena/lib.rs:259-291 | The same for allocations one after the other, up to the first that does not return. |
| `ArenaNesting.Life` | src/libarena/lib.rs:112-124 | From creation to end, with any nesting, any failures and any number of chunks: the destructors run once each for exactly the objects whose initialisers returned. |

## Left out

- Hash maps: iterators, entries by reference (`find_mut`, `find_or_insert` and relatives), equality and cloning; the allocation and release of the arrays themselves; what happens in a table without buckets, beyond where its first probe leads.
- HashMap.HashMap.Run: stops at the first operation that needs a table too large to allocate, because the original fails there and its state is not used again.
- Tree and trie maps: references to values (`find_mut`, mutable iterators), set wrappers and set operations, which only add easy members.
- Trie: only the 64-bit layout of 16 digits is modelled, not the 32-bit one of 8.
- DList: values in nodes do not change while they are linked; double-ended iteration and comparison are not modelled.
- LruCache: `pop` and `clear` change the map but not the list, so the agreement of the two does not survive them; neither is modelled.
- PriorityQueue: reallocation of the vector and the uninitialised hole; the hole holds a stale copy of an element instead.
- Arena.Arena.NewWithSize: memory is taken to be there for a chunk of up to half of the address space, and not for more.
- Arena.Arena.Begin: types are smaller than half of the address space; the memory of objects is not modelled, only where they lie and whether they are finished.
- Arena.Arena.AllocCopyInner: the same bound on types; contents of plain data are not modelled. The typed arena is left out.
- FreeList: growing, finishing and releasing vectors, a failing `mmap`, and the mode without threads; callers free only bytes that they own.
- FreeList.StepKeepsInv: a step inside the lock may read or write a whole header; no other thread can see it halfway, because headers lie in bytes that only the lock's holder may touch.
- ModuleList: weak memory; loads and compare-and-swaps are sequentially consistent. The mode without threads is left out.
- The rest of the repository (compiler, runtime, standard library, B-tree, ring buffer, bit vectors) is not part of this model.
