# made-cpp-2020-hw core, modelled in Dafny

This project models four independent C++ components from the homework
repository.

- **`LinkedList`** (`linked_list.dfy`) models `task::list` (list/src/list.h), a
  doubly linked list.
  - It has two sentinel nodes `head_` and `tail_` and a `size_` counter.
  - Its operations relink `prev`/`next` pointers in place.
  - `List` is a class whose ghost field `nodes` holds the chain: `head`, then the elements, then `tail`.
  - `Valid()` ties `size` and every `prev`/`next` link to that chain.
  - Each operation is proved against a sequence transformation of `Contents()`:
    - insertion and deletion at a position;
    - filtering (`Filtered`);
    - collapsing adjacent duplicates (`Dedup`);
    - reversal (`Reversed`);
    - a stable sorted merge (`Merged`);
    - a stable merge sort (`MergeSorted`).
- **`Sequences`** (`sequences.dfy`) defines those transformations. It proves:
  - permutation, sortedness, stability and idempotence for the merge functions;
  - membership and counting for the filter and the de-duplication.
- **`ChunkAllocator`** (`chunk_allocator.dfy`) models the arena allocator in chuck_allocator/chunck_allocator.cpp.
  - `Chunk` is a bump cursor over a fixed-size buffer. The cursor is an offset, not a pointer.
  - `ControlBlock` is the shared, reference-counted block. It holds the chunk list.
  - `MyAllocator` is a handle on a control block.
  - First-fit allocation is proved against the functions `FirstFit`, `Target`, `Served` and `Booked`.
  - The ranges a chunk hands out tile its buffer and never overlap.
- **`VectorOps`** (`vector_ops.dfy`) models the element-wise vector operators of vector_operations/src/vector_ops.h:
  - functions on sequences;
  - the in-place `reverse`, which is a method on an array.
- **`MatrixModel`** (`matrix.dfy`) models the structural part of `task::Matrix` (matrix/src/matrix.cpp):
  - row-major indexing;
  - bounds and shape checks, whose exceptions become `Outcome` / `Result` values;
  - the identity-style constructors and deep copy;
  - `resize`, `transposed`/`transpose`, `applyOp`, `trace`, `getRow` and `getColumn`.

  The class keeps the source's flat `array<int>`. `Value()` reads that array as a `Grid`, and the grid functions specify each method.
- **`Wrappers`** (`wrappers.dfy`) holds the `Option` and `Result` datatypes used for error paths.

## Model

| member | source | states |
|---|---|---|
| LinkedList.Node.constructor | list/src/list.h:271-280 | a new node holds the value and is unlinked (`prev` and `next` null) |
| LinkedList.Node.Connect | list/src/list.h:262-265 | `connect`: afterwards `next` is the other node and the other node's `prev` is this one |
| LinkedList.List.constructor | list/src/list.h:288-290 | a default list is valid and empty, and `head.next == tail && tail.prev == head` |
| LinkedList.List.InitEnds | list/src/list.h:718-722 | `init_ends(n)`: the sentinels point at each other, `size == n`, and the list is valid exactly when `n == 0` |
| LinkedList.List.CreateNodes | list/src/list.h:727-745 | `create_nodes`: `count` fresh, distinct, linked nodes holding `value`, null ends when `count == 0`, and `first.prev` null |
| LinkedList.List.InsertNodes | list/src/list.h:755-763 | `insert_nodes`: the chain is hung before node `k`, giving `nodes == old[..k] + chain + old[k..]`, and the list stays valid (size grows by `count`) |
| LinkedList.List.Fill | list/src/list.h:299-302 | `list(count, value)`: valid, with contents `count` copies of `value` |
| LinkedList.List.Sized | list/src/list.h:305-308 | `list(count)`: valid, with contents `count` default (zero) values |
| LinkedList.List.Copy | list/src/list.h:316-336 | copy constructor: equal contents in entirely fresh nodes |
| LinkedList.List.CloneNodes | list/src/list.h:320-333 | the copy loop: a fresh, distinct, linked chain whose values are the other list's contents |
| LinkedList.List.AppendClones | list/src/list.h:320-335 | the copy loop plus the final `insert_nodes`: the contents equal the other list's, all in fresh nodes |
| LinkedList.List.Move | list/src/list.h:339-348 | move constructor: takes over exactly the other list's nodes in order, and leaves the other list valid and empty |
| LinkedList.List.Front | list/src/list.h:376-378 | `front()` is the first element |
| LinkedList.List.Back | list/src/list.h:386-389 | `back()` is the last element |
| LinkedList.List.Empty | list/src/list.h:437-439 | true iff the contents are empty |
| LinkedList.List.Size | list/src/list.h:442-444 | the number of elements |
| LinkedList.List.MaxSize | list/src/list.h:447-449 | `max_size()` returns the current number of elements, as the source does |
| LinkedList.List.Clear | list/src/list.h:452-460 | afterwards the list is valid and empty, with only the two sentinels |
| LinkedList.List.Insert | list/src/list.h:463-468 | `insert(pos, value)`: a fresh node is placed right before node `k`, and the contents gain `value` at index `k - 1` with all else in order |
| LinkedList.List.InsertCount | list/src/list.h:479-484 | `insert(pos, count, value)`: `count` copies are inserted before position `k`, and the returned node is the first of them |
| LinkedList.List.Erase | list/src/list.h:487-497 | `erase(pos)`: exactly node `k` is unlinked, its successor is returned, and exactly element `k - 1` leaves the contents |
| LinkedList.List.EraseRange | list/src/list.h:500-506 | `erase(first, last)`: nodes `[i, j)` are removed, `last` is returned, and the contents lose exactly `[i - 1, j - 1)` |
| LinkedList.List.EraseWalk | list/src/list.h:501-503 | the erase loop: after it, `nodes == old[..i] + old[j..]` |
| LinkedList.List.PushBack | list/src/list.h:509-511 | contents become `old + [value]` |
| LinkedList.List.PopBack | list/src/list.h:519-521 | contents lose their last element |
| LinkedList.List.PushFront | list/src/list.h:524-526 | contents become `[value] + old` |
| LinkedList.List.PopFront | list/src/list.h:534-536 | contents lose their first element |
| LinkedList.List.Resize | list/src/list.h:559-579 | `size == count`; the contents are truncated to `count`, or padded with `count - size` zeros at the end |
| LinkedList.List.Truncate | list/src/list.h:564-575 | the shrinking branch: it keeps nodes `0..count` and reconnects them to `tail`, so the contents are `old[..count]` |
| LinkedList.List.Walk | list/src/list.h:565-567 | walking `steps` links from `head` reaches `nodes[steps]` |
| LinkedList.List.Swap | list/src/list.h:582-604 | corrected `swap`: each list holds exactly the other's old nodes and contents, both stay valid, and a self-swap changes nothing |
| LinkedList.List.CopyAssign | list/src/list.h:351-358 | copy assignment with the corrected `swap`: this list's contents equal `other`'s, and `other` is unchanged (the source's outcome is `CopyAssignAsWritten`) |
| LinkedList.List.MoveAssign | list/src/list.h:361-368 | move assignment with the corrected `swap`: this list takes `other`'s contents and `other` ends valid and empty (the source's outcome is `MoveAssignAsWritten`) |
| LinkedList.List.Merge | list/src/list.h:607-645 | `merge`: the nodes become `Merged(old this, old other)` (on ties this list's element goes first), `other` ends empty, and a self-merge changes nothing |
| LinkedList.LinkMerged | list/src/list.h:618-637 | the merge loop: it links exactly the `Merged` sequence of both inner chains, with `begin`/`last` at its ends |
| LinkedList.List.HangMerged | list/src/list.h:639-644 | `init_ends` on both lists, then `insert_nodes` of the merged chain: this list holds it and `other` is empty |
| LinkedList.List.Splice | list/src/list.h:648-652 | `splice(pos, other)`: `other`'s nodes move in order before node `k`, `other` ends empty, and nothing changes when `other` is empty |
| LinkedList.List.Remove | list/src/list.h:655-662 | `remove(value)`: contents become `Filtered(old, value)` |
| LinkedList.List.RemoveStep | list/src/list.h:657-660 | one loop step: the contents visited so far become `Filtered(xs[..p + 1], value)` |
| LinkedList.List.Unique | list/src/list.h:679-691 | `unique()`: contents become `Dedup(old)` |
| LinkedList.List.EraseOrSkip | list/src/list.h:684-689 | one loop step: erase the node or advance past it, keeping `done + rest` as the contents |
| LinkedList.List.Reverse | list/src/list.h:665-676 | `reverse()`: the node order is `Turned(old)` (sentinels stay, inner nodes reversed), so the contents are `Reversed(old)` |
| LinkedList.Flip | list/src/list.h:668-670 | one loop step: the node's `prev` and `next` are exchanged |
| LinkedList.List.CloseTurned | list/src/list.h:672-675 | the final `connect` calls make the list valid again with node order `Turned(chain)` |
| LinkedList.List.Sort | list/src/list.h:695-715 | `sort()`: the nodes become `MergeSorted(old, Key)`, i.e. a stable sorted permutation |
| LinkedList.List.Halve | list/src/list.h:699-708 | the first `half = size / 2` elements move to `temp1` and the rest to `temp2`, in order, and this list is left empty |
| LinkedList.List.SortInto | list/src/list.h:697-714 | sort of both halves, splice and merge: the nodes are `Merged` of the two sorted halves |
| LinkedList.List.SortBoth | list/src/list.h:710-711 | the recursive calls: each half becomes `MergeSorted` of its nodes |
| LinkedList.List.Rejoin | list/src/list.h:713-714 | `splice(cend(), temp1); merge(temp2)`: the result is `Merged` of the two sorted halves |
| LinkedList.SwapAsWritten | list/src/list.h:582-604 | the source's `swap` on (contents, size) pairs: when both or neither of the lists are empty, it exchanges them |
| LinkedList.SwapAsWrittenLosesElements | list/src/list.h:586-596 | swapping an empty list with a non-empty one leaves both empty |
| LinkedList.SwapAsWrittenDropsSize | list/src/list.h:590-602 | swapping a non-empty list with an empty one leaves the other with the chain but `size_ == 0` |
| LinkedList.MoveAssignAsWritten | list/src/list.h:361-368 | a move assignment as written leaves the target with the nodes but size 0 |
| LinkedList.CopyAssignAsWritten | list/src/list.h:351-358 | a copy assignment as written into an empty list leaves it with the nodes but size 0 |
| LinkedList.TurnedInner | list/src/list.h:665-676 | the inner values of a turned chain are the reversed inner values |
| LinkedList.ValuesMerged | list/src/list.h:621-622 | merging nodes by value is the same as merging their values |
| LinkedList.ValuesMergeSorted | list/src/list.h:695-715 | sorting nodes by value is the same as sorting their values |
| Sequences.Reversed | list/src/list.h:665-676 | element `i` of the result is element `|s| - 1 - i` of the input |
| Sequences.ReversedInvolutive | list/src/list.h:665-676 | reversing twice gives back the original |
| Sequences.ReversedPermutes | list/src/list.h:665-676 | reversal preserves the multiset of elements |
| Sequences.FilteredMembers | list/src/list.h:655-662 | `x` survives `remove(v)` iff `x` was present and `x != v` |
| Sequences.FilteredCount | list/src/list.h:655-662 | the multiset after `remove(v)` is the old one with every `v` removed |
| Sequences.FilteredIdempotent | list/src/list.h:655-662 | removing `v` twice is the same as removing it once |
| Sequences.DedupNoAdjacent | list/src/list.h:679-691 | after `unique()`, no two neighbours are equal |
| Sequences.DedupMembers | list/src/list.h:679-691 | `unique()` keeps the same set of values |
| Sequences.DedupFixed | list/src/list.h:679-691 | a list with no equal neighbours is unchanged by `unique()` |
| Sequences.DedupLast | list/src/list.h:679-691 | the last element survives `unique()` |
| Sequences.MergedPermutes | list/src/list.h:607-645 | a merge is a permutation of both inputs together |
| Sequences.MergedSorted | list/src/list.h:607-645 | the merge of two sorted sequences is sorted |
| Sequences.MergedTies | list/src/list.h:621-622 | with all keys equal, the merge takes all of this list and then all of the other list (ties go to this list) |
| Sequences.MergedStable | list/src/list.h:621-622 | for each key, the merge keeps this list's elements, then the other's, each in their old order |
| Sequences.MergeSortedSorted | list/src/list.h:695-715 | the sort's result is sorted |
| Sequences.MergeSortedPermutes | list/src/list.h:695-715 | the sort's result is a permutation of the input |
| Sequences.MergeSortedStable | list/src/list.h:695-715 | the sort is stable: elements with equal keys keep their order |
| Sequences.MergeSortedFixed | list/src/list.h:695-715 | sorting an already sorted sequence changes nothing |
| ChunkAllocator.TilesDisjoint | chuck_allocator/chunck_allocator.cpp:30-34 | the ranges a chunk has handed out lie below its cursor and do not overlap |
| ChunkAllocator.Chunk.constructor | chuck_allocator/chunck_allocator.cpp:8-10 | a new chunk has a fresh buffer, cursor 0 and no reservations |
| ChunkAllocator.Chunk.MoveFrom | chuck_allocator/chunck_allocator.cpp:15-19 | move constructor: takes the buffer, cursor and reservations, and the source is left null with cursor 0 |
| ChunkAllocator.Chunk.MoveAssign | chuck_allocator/chunck_allocator.cpp:21-28 | move assignment swaps buffer, cursor and reservations, and a self-move changes nothing |
| ChunkAllocator.Chunk.Allocate | chuck_allocator/chunck_allocator.cpp:30-34 | fails iff `Size - used < size` (the cursor is then unchanged); otherwise it advances by exactly `size`, reserves `[old used, used)`, and returns the new cursor (the end of the range) |
| ChunkAllocator.ControlBlock.constructor | chuck_allocator/chunck_allocator.cpp:109-112 | a new control block has no chunks; its counter starts at 0 with no owners, and the handle that creates it joins at once (`MyAllocator.constructor`), so a handle sees the counter 1 that chunck_allocator.cpp:110 sets |
| ChunkAllocator.ControlBlock.Join | chuck_allocator/chunck_allocator.cpp:57-59 | the counter goes up by one and the new handle becomes an owner |
| ChunkAllocator.ControlBlock.Leave | chuck_allocator/chunck_allocator.cpp:75-80 | the counter goes down by one, and the chunks are freed exactly when the last owner leaves |
| ChunkAllocator.ControlBlock.Scan | chuck_allocator/chunck_allocator.cpp:86-89 | first fit: serves from chunk `FirstFit(cursors, bytes)`, or changes nothing when no chunk has room |
| ChunkAllocator.ControlBlock.Extend | chuck_allocator/chunck_allocator.cpp:91-92 | appends exactly one fresh chunk and serves the request from it, leaving that chunk's cursor at `bytes` |
| ChunkAllocator.ControlBlock.Serve | chuck_allocator/chunck_allocator.cpp:86-92 | the cursors become `Served(old, bytes)`, earlier chunks are kept, and a chunk is added only when none fits |
| ChunkAllocator.ControlBlock.Grant | chuck_allocator/chunck_allocator.cpp:86-92 | as `Serve`, but returns the start of the range, which is its chunk's last reservation and lies above every earlier one |
| ChunkAllocator.FirstFit | chuck_allocator/chunck_allocator.cpp:86-89 | the first chunk with room, and no chunk before it has room; `None` iff no chunk has room |
| ChunkAllocator.Target | chuck_allocator/chunck_allocator.cpp:86-92 | the chunk that serves the request: the first fit, or the new one at the end |
| ChunkAllocator.Served | chuck_allocator/chunck_allocator.cpp:86-92 | only the target's cursor moves (by `bytes`), and one chunk is added iff nothing fits |
| ChunkAllocator.ServedWithinChunks | chuck_allocator/chunck_allocator.cpp:83-92 | no cursor ever exceeds `CHUNK_SIZE` |
| ChunkAllocator.BookedFresh | chuck_allocator/chunck_allocator.cpp:86-92 | after a request, every chunk still tiles its buffer and the new range lies above all earlier ones in its chunk |
| ChunkAllocator.FirstFitIsFirst | chuck_allocator/chunck_allocator.cpp:86-89 | a chunk with room that has only full chunks before it is the one chosen |
| ChunkAllocator.FirstFitNone | chuck_allocator/chunck_allocator.cpp:86-92 | when every chunk is too full, no chunk is chosen and a new one is appended |
| ChunkAllocator.RequestFits | chuck_allocator/chunck_allocator.cpp:83-84 | a request passes the check iff `n * sizeof(T) <= CHUNK_SIZE` in exact arithmetic |
| ChunkAllocator.RequestBytesAsWritten | chuck_allocator/chunck_allocator.cpp:83 | the request size computed modulo 2^64, as `size_t` does |
| ChunkAllocator.WrappedRequestServed | chuck_allocator/chunck_allocator.cpp:83-92 | `n = 2^62`, `sizeof(T) = 4` wraps to 0 bytes, so it passes the check and is served, even though it does not fit |
| ChunkAllocator.EndPointerIsNextStart | chuck_allocator/chunck_allocator.cpp:30-34 | the pointer a chunk returns is where its next reservation starts |
| ChunkAllocator.EndPointerOverlapsNext | chuck_allocator/chunck_allocator.cpp:30-34 | two 4-byte requests: the first is handed `[4, 8)`, which is the second one's range |
| ChunkAllocator.MyAllocator.constructor | chuck_allocator/chunck_allocator.cpp:54-55 | a new handle owns a fresh control block with counter 1 and no chunks |
| ChunkAllocator.MyAllocator.Copy | chuck_allocator/chunck_allocator.cpp:57-59 | a copy shares the control block, the counter goes up by one, and the chunks are unchanged |
| ChunkAllocator.MyAllocator.Destroy | chuck_allocator/chunck_allocator.cpp:75-80 | the counter goes down by one, and the chunks are freed exactly when this was the last handle |
| ChunkAllocator.MyAllocator.Assign | chuck_allocator/chunck_allocator.cpp:61-73 | releases the old block as the destructor does (freeing it when this was its last handle), then shares `other`'s block and increments its counter; when both handles already share a block, owners and counter are unchanged |
| ChunkAllocator.MyAllocator.Allocate | chuck_allocator/chunck_allocator.cpp:82-93 | corrected `allocate`: `Err(BadAlloc)` iff `n * elemSize > CHUNK_SIZE` (nothing changes then); otherwise a first-fit reservation whose start is returned, disjoint from every earlier range in its chunk |
| ChunkAllocator.MyAllocator.AllocateAsWritten | chuck_allocator/chunck_allocator.cpp:82-93 | the source's `allocate`: the request size wraps, and the returned position is the end of the range |
| ChunkAllocator.MyAllocator.Deallocate | chuck_allocator/chunck_allocator.cpp:95-97 | `deallocate` changes no chunk |
| VectorOps.UnaryPlus | vector_operations/src/vector_ops.h:10-12 | unary `+` returns a vector equal to its operand |
| VectorOps.UnaryPlusNeutral | vector_operations/src/vector_ops.h:10-20 | unary `+` returns the vector unchanged: added to its negation it gives all zeros |
| VectorOps.Negate | vector_operations/src/vector_ops.h:14-20 | same length, and each element is negated |
| VectorOps.NegateInvolutive | vector_operations/src/vector_ops.h:14-20 | negating twice gives back the vector |
| VectorOps.BinaryOp | vector_operations/src/vector_ops.h:22-34 | the result has the operands' common length, and element `i` is `op(left[i], right[i])` |
| VectorOps.Add | vector_operations/src/vector_ops.h:36-39 | binary `+`: the operands' common length, and element `i` is `left[i] + right[i]` |
| VectorOps.Sub | vector_operations/src/vector_ops.h:41-44 | binary `-`: the operands' common length, and element `i` is `left[i] - right[i]` |
| VectorOps.SubIsAddNegate | vector_operations/src/vector_ops.h:36-44 | `a - b == a + (-b)` |
| VectorOps.AddSubRoundTrip | vector_operations/src/vector_ops.h:36-44 | `(a - b) + b == a` |
| VectorOps.BitOr | vector_operations/src/vector_ops.h:124-127 | binary `\|`: the operands' common length, and element `i` is `left[i] \| right[i]` |
| VectorOps.BitAnd | vector_operations/src/vector_ops.h:129-132 | binary `&`: the operands' common length, and element `i` is `left[i] & right[i]` |
| VectorOps.Dot | vector_operations/src/vector_ops.h:46-50 | `*`: 0 for empty vectors, and otherwise the dot product of the prefixes plus the product of the last elements (the left fold of `std::accumulate` from `Tp{}`); `Dot3`, `DotSymmetric` and `DotDistributes` state its algebra |
| VectorOps.SumOfAdd | vector_operations/src/vector_ops.h:46-50 | the accumulated sum of a pointwise sum is the sum of the sums |
| VectorOps.Dot3 | vector_operations/src/vector_ops.h:46-50 | the dot product of 3-vectors is `a0*b0 + a1*b1 + a2*b2` |
| VectorOps.DotSymmetric | vector_operations/src/vector_ops.h:46-50 | `a * b == b * a` |
| VectorOps.DotDistributes | vector_operations/src/vector_ops.h:46-50 | `a * (b + c) == a * b + a * c` |
| VectorOps.Cross | vector_operations/src/vector_ops.h:52-57 | the cross product of two 3-vectors is a 3-vector |
| VectorOps.CrossAntiCommutative | vector_operations/src/vector_ops.h:52-57 | `a % b == -(b % a)` |
| VectorOps.CrossOrthogonal | vector_operations/src/vector_ops.h:46-57 | `a % b` is orthogonal to both `a` and `b` |
| VectorOps.Reverse | vector_operations/src/vector_ops.h:116-122 | in place, the array becomes the reverse of its old contents, which is a permutation of them |
| MatrixModel.GetIdx | matrix/src/matrix.cpp:36-38 | the row-major index `row * cols + col` is within `rows * cols` |
| MatrixModel.GetIdxInjective | matrix/src/matrix.cpp:36-38 | distinct cells have distinct flat indices, and equal flat indices mean the same cell |
| MatrixModel.IdentityWellFormed | matrix/src/matrix.cpp:48-53 | the identity-style grid has `rows` rows of `cols` cells |
| MatrixModel.TransposedInvolutive | matrix/src/matrix.cpp:215-224 | transposing twice gives back the matrix |
| MatrixModel.TransposedIdentity | matrix/src/matrix.cpp:48-53 | the transpose of the r×c identity-style grid is the c×r one |
| MatrixModel.ResizedSameShape | matrix/src/matrix.cpp:88-99 | resizing to the same shape changes nothing |
| MatrixModel.ResizedGrowShrink | matrix/src/matrix.cpp:88-99 | growing and then shrinking back gives the original matrix |
| MatrixModel.CombinedAddSub | matrix/src/matrix.cpp:111-123 | `(a += b) -= b` gives back `a` |
| MatrixModel.DiagonalSumIdentity | matrix/src/matrix.cpp:226-234 | the trace of the n×n identity-style grid is `n` |
| MatrixModel.DiagonalSumTransposed | matrix/src/matrix.cpp:226-234 | transposing does not change the trace |
| MatrixModel.GridOf | matrix/src/matrix.cpp:36-38 | cell `(i, j)` of the grid is `data[i * cols + j]` |
| MatrixModel.FillZero | matrix/src/matrix.cpp:50 | every cell of the buffer becomes 0 |
| MatrixModel.CopyRow | matrix/src/matrix.cpp:94-95 | the inner loop of `resize`: row `i` of the kept block is copied |
| MatrixModel.CopyBlock | matrix/src/matrix.cpp:93-95 | the nested loop of `resize`: the whole top-left block is copied |
| MatrixModel.Matrix.Default | matrix/src/matrix.cpp:44-46 | the default matrix is 1×1 and holds 1 |
| MatrixModel.Matrix.constructor | matrix/src/matrix.cpp:48-53 | `Matrix(r, c)`: r×c with 1 at `(i, i)` for `i < min(r, c)` and 0 elsewhere |
| MatrixModel.Matrix.Copy | matrix/src/matrix.cpp:55-58 | copy constructor: the same shape and cells in a fresh buffer |
| MatrixModel.Matrix.Assign | matrix/src/matrix.cpp:59-68 | copy assignment: the same shape and cells, in a fresh buffer unless it is a self-assignment |
| MatrixModel.Matrix.CheckBounds | matrix/src/matrix.cpp:70-72 | passes iff `row < rows && col < cols`, and otherwise fails with `OutOfBounds` |
| MatrixModel.Matrix.CheckSizes | matrix/src/matrix.cpp:40-42 | passes iff the shapes are equal, and otherwise fails with `SizeMismatch` |
| MatrixModel.Matrix.Get | matrix/src/matrix.cpp:74-82 | `OutOfBounds` iff the cell is outside the matrix, and otherwise the cell's value |
| MatrixModel.Matrix.Set | matrix/src/matrix.cpp:84-86 | `OutOfBounds` iff the cell is outside (nothing changes then); otherwise exactly that cell changes |
| MatrixModel.Matrix.Resize | matrix/src/matrix.cpp:88-99 | the new shape; the top-left `min × min` block is kept and the rest is 0 (`Resized`) |
| MatrixModel.Matrix.ApplyOp | matrix/src/matrix.cpp:111-115 | `SizeMismatch` iff the shapes differ (nothing changes then); otherwise cell-by-cell `op` |
| MatrixModel.Matrix.AddAssign | matrix/src/matrix.cpp:117-119 | `+=`: the shape check, then the cell-by-cell sum |
| MatrixModel.Matrix.SubAssign | matrix/src/matrix.cpp:121-123 | `-=`: the shape check, then the cell-by-cell difference |
| MatrixModel.Matrix.MulAssign | matrix/src/matrix.cpp:125-127 | matrix `*=`: the shape check, then the cell-by-cell (not matrix) product |
| MatrixModel.Matrix.Transposed | matrix/src/matrix.cpp:215-224 | a fresh cols×rows matrix with `res(j, i) == this(i, j)` |
| MatrixModel.Matrix.Transpose | matrix/src/matrix.cpp:208-213 | in place: the value becomes the transpose and the shape is swapped |
| MatrixModel.Matrix.Trace | matrix/src/matrix.cpp:226-234 | `SizeMismatch` iff the matrix is not square, and otherwise the sum of the diagonal |
| MatrixModel.Matrix.GetRow | matrix/src/matrix.cpp:236-238 | row `row` of the matrix |
| MatrixModel.Matrix.GetColumn | matrix/src/matrix.cpp:240-247 | `OutOfBounds` iff there is a row and the column is out of range; otherwise `rows` entries, where entry `i` is cell `(i, column)` |
| MatrixModel.Matrix.GetShape | matrix/src/matrix.cpp:265-267 | the pair `(rows, cols)` |

## Left out

- Element types: every list element, vector element and matrix cell is an unbounded `int`, and `|`/`&` use `bv32`. Nothing models overflow of the element type or the source's `double`. The `size_t` products `rows * cols` (matrix/src/matrix.cpp:49-50) and `n * sizeof(T)` are exact here, except in `ChunkAllocator.RequestBytesAsWritten`.
- LinkedList.Node: `value` is a `const` field. The source can write through the `T&` that `front()`, `back()` and iterators return; the model has no writes through references.
- LinkedList.List.Clear: the node-freeing loop (list/src/list.h:453-457) is not modelled, only the reset of the ends. Dafny has no explicit deallocation.
- LinkedList.List.Resize: the node-freeing loop of the shrinking branch (list/src/list.h:571-574) is not modelled. The dropped nodes are simply unlinked.
- LinkedList.List.Remove: the value is taken by `int`. The source takes `const T&`, so `remove(front())` would read a freed node once the first match is erased; the model has no such aliasing.
- LinkedList.List.Fill: requires `count > 0`, because `create_nodes(0, …)` returns null ends and `insert_nodes` dereferences them (list/src/list.h:759-760).
- LinkedList.List.Sized: requires `count > 0`, for the same null dereference.
- LinkedList.List.InsertCount: requires `count > 0`, for the same null dereference.
- LinkedList.List.InsertNodes: requires a non-empty chain, because the source dereferences `first` and `last`.
- LinkedList.List.Copy: requires a non-empty `other`, because the copy loop leaves `first` null for an empty list and `insert_nodes` dereferences it (list/src/list.h:335).
- LinkedList.List.CopyAssign: requires a non-empty `other` unless it is a self-assignment, because it builds a copy.
- LinkedList.List.Merge: requires the two lists not to be both empty, because `begin` and `prev` stay null and `insert_nodes` dereferences them (list/src/list.h:644).
- LinkedList.List.PopBack: requires a non-empty list. Popping an empty list is undefined behaviour in the source.
- LinkedList.List.PopFront: requires a non-empty list, for the same reason.
- LinkedList.List.Front: requires a non-empty list, for the same reason.
- LinkedList.List.Back: requires a non-empty list, for the same reason.
- LinkedList.List.Sort and LinkedList.List.Merge: elements are compared by their `int` value. A general `T` with `operator<` is not modelled.
- List allocator plumbing is not modelled: `node_alloc_`, `get_allocator` (which returns a fresh `Alloc()`), the swap of allocators at the end of `swap`, iterators and reverse iterators.
- The `emplace`, `emplace_back` and `emplace_front` variants and the rvalue overloads of `insert`/`push_*` are not modelled separately. They do what `Insert`, `PushBack` and `PushFront` do.
- ChunkAllocator: `construct`/`destroy` (placement new and explicit destructor calls), raw pointers and pointer casts are not modelled. Positions are offsets inside a chunk.
- ChunkAllocator.Chunk: distinct chunks are not proved to have distinct buffers; the proofs do not need it.
- ChunkAllocator.ControlBlock: the reference counter is a plain `int` in the source and is not atomic. The model is single-threaded.
- ChunkAllocator.MyAllocator.Assign: the source's `operator=` (chuck_allocator/chunck_allocator.cpp:61-73) names the members `ref_counter_` and `chunks_`, which do not exist, so it does not compile once instantiated. The model gives its evident intent: release the old block as the destructor does, then share `other`'s block and increment its counter.
- ChunkAllocator: the `std::list` chunk container is a `seq<Chunk>`, and `main` (stream output) is not modelled.
- VectorOps.BinaryOp: requires equal lengths. The source checks this with an `assert`, which aborts the program.
- VectorOps.Cross: requires both lengths to be 3, for the same reason.
- VectorOps: `operator||` / `operator&&` (collinearity up to an epsilon over floating-point ratios) and the stream operators `>>` / `<<` are not modelled.
- MatrixModel.Matrix.GetRow: requires `row < rows`. The source does no bounds check and reads outside the buffer.
- MatrixModel: `det`, the EPS-based `operator==` / `!=`, scalar `*=`, unary minus, `operator*` with a scalar, the `Row` proxy of `operator[]` and stream I/O are not modelled. They are floating-point content or I/O.
- `smart_pointers` is not modelled: smart_pointers/src/smart_pointers.h holds only declarations, and the bodies are in smart_pointers.tpp.

## Findings

| source | as written | input that shows it | evidently intended | confidence | as-written member | corrected member |
|---|---|---|---|---|---|---|
| list/src/list.h:582-604 | `swap` calls `other.init_ends()`, which resets `other.size_` to 0, before testing `other.size_ == 0`, and then swaps the already reset sizes | this list empty and `other` holding `[7]`: both end empty and `7` is lost. Or this list holding `[7]` and `other` empty: `other` holds the node with `size() == 0`. Move assignment (list.h:361-368) and copy assignment into an empty list (list.h:351-358) inherit this | each list takes the other's nodes and size | not executed | LinkedList.SwapAsWritten | LinkedList.List.Swap |
| chuck_allocator/chunck_allocator.cpp:83-84 | `n * sizeof(T)` is computed in `size_t` and wraps before the check against `CHUNK_SIZE` | `n = 2^62`, `sizeof(T) = 4`: the product wraps to 0, the check passes and a 0-byte block is served | throw `bad_alloc` whenever the true size exceeds `CHUNK_SIZE` | not executed | ChunkAllocator.MyAllocator.AllocateAsWritten | ChunkAllocator.MyAllocator.Allocate |
| chuck_allocator/chunck_allocator.cpp:30-34 | `Chunk::allocate` returns `free_` after advancing it, i.e. the end of the reserved range | two 4-byte requests on a fresh chunk: the first caller gets offset 4, which is the start of the second caller's range | return the start of the reserved range | not executed | ChunkAllocator.EndPointerOverlapsNext | ChunkAllocator.ControlBlock.Grant |
