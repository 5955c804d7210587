# mvector: a verified model of a hand-written growable array

`ns::mvector<T>` is a contiguous growable array. It keeps a block of `capacity` slots, and
the first `size` slots hold the live elements. It offers unchecked (`operator[]`) and checked
(`at`) indexing, `push_back` with a grow-to-8-then-double policy, insertion and erasure at a
position, `pop_back`, `resize`, `clear`, `shrink_to_fit`, copy construction and copy
assignment. The repository has two copies of the class:

- `mvector.h`, the root header that the demo and the tests include. Its private `reserve`
  copies the live elements into a `new T[n]` block and keeps the size.
- `inc/mvector.h`, a later revision. Its `reserve` copy-constructs the elements into raw
  storage. If one copy throws, it destroys the copies already made, frees the storage and
  rethrows, so the vector is left as it was. On success it sets `size_` to the new capacity.

Each header is one Dafny class, `RootVector.MVector` and `IncVector.MVector`, with the fields
`data: array<T>`, `size` and `capacity` and one method or function per member function.
`Valid()` is the invariant `size <= capacity == data.Length`, and `Elements()` is `data[..size]`.
Every state-changing method states the whole new block (`data[..]`) in terms of the old one.
The one exception is the raw storage of `inc/mvector.h`'s `reserve`, whose slots past the
copied elements are left unspecified. The blocks are stated through the sequence functions of
`Sequences` (`InsertAt`, `RemoveAt`, `Pad`) and the capacity functions of `Growth`
(`PushBackCapacity`, `InsertCapacity`). Lemmas about those functions give the round trips, the
multiset facts, the growth bounds and the amortized cost.

Modelling devices:

- `blank` is a constant of each vector, given at construction. It stands for `T()`, the value
  a default-constructed `T` holds in every slot of a `new T[n]` block. The raw storage of
  `inc/mvector.h`'s `reserve` is an array allocated without initial values, so nothing is
  claimed about its spare slots.
- Positions that the headers receive as pointers (`pos - begin()`) are `nat` indices.
  `begin()` is position 0 and `End()` is `end()`. Only `InsertAtPointer` keeps `pos` as a
  pointer (`Blocks.Pointer`: a block and an offset), to show where a growing `insert` loses it.
- A copy that throws inside `inc/mvector.h`'s `reserve` is injected through the parameter
  `failAt: Option<nat>`: `Some(k)` means the copy of element `k` throws. The exception is the
  outcome `CopyFailed(k)`.
- A write outside the block is undefined behaviour in C++. Three paths in the headers do it.
  The model stops at the faulting write and returns `WriteOutOfBounds(index, length)`. The
  state it returns is the one the header has at that moment, where `size` may already exceed
  `capacity`. The three paths are `insert` on a vector with no storage, `inc/mvector.h`'s
  `push_back` after any growth, and `inc/mvector.h`'s `insert` on a full vector.
- A pointer difference taken across two blocks is undefined as well. `InsertAtPointer` stops
  there and returns `StalePointer`, with the state the preceding `resize` left.

Two behaviours of the code that a reader might not expect:

- A growing `resize` differs between the headers. `mvector.h:416-429` fills the new slots with
  `T()` and keeps the size. `inc/mvector.h:417-430` sets the size inside `reserve` (line 495),
  so its fill loop, which starts at the new size, runs zero times.
- `main.cpp:19-22` steps back from `end()` before inserting "c", so "c" goes before "b" and the
  last line printed is "c b " (`Scenarios.DemoMain`).

## Model

| member | source | states |
|---|---|---|
| `RootVector.MVector.constructor` | mvector.h:276-277 | `mvector()`: size 0, capacity 0 |
| `RootVector.MVector.WithCapacity` | mvector.h:279-281 | `mvector(n)`: size 0, capacity n, every slot `T()` |
| `RootVector.MVector.Copy` | mvector.h:283-289 | same size and capacity as the source, live elements equal, a fresh block of its own |
| `RootVector.MVector.Size` | mvector.h:297-300 | the number of live elements |
| `RootVector.MVector.Capacity` | mvector.h:302-305 | the number of allocated slots, never below the size |
| `RootVector.MVector.Empty` | mvector.h:307-310 | true exactly when there is no live element |
| `RootVector.MVector.End` | mvector.h:353-356 | the position one past the last live element |
| `RootVector.MVector.Get` | mvector.h:312-320 | `operator[]` reads slot idx with no size check; for a live index it is element idx |
| `RootVector.MVector.Set` | mvector.h:317-320 | a write through `operator[]` changes slot idx and nothing else |
| `RootVector.MVector.At` | mvector.h:322-336 | `at` throws out_of_range exactly when idx >= size, otherwise returns element idx |
| `RootVector.MVector.AtPut` | mvector.h:330-336 | a write through `at` changes slot idx (a live element) and no other slot when idx < size, and nothing when it throws |
| `RootVector.MVector.Reserve` | mvector.h:469-485 | n <= capacity: nothing changes; otherwise capacity n, same size, elements kept at the same indices, other slots `T()` |
| `RootVector.MVector.PushBack` | mvector.h:358-368 | capacity becomes `PushBackCapacity` (8 from 0, doubled when full, else kept); elements become old + [value]; no growth means the same block with only slot size written |
| `RootVector.MVector.Insert` | mvector.h:370-389 | with storage: elements become `InsertAt(old, p, value)`, size + 1, capacity `InsertCapacity`; with no storage (capacity 0): the write of value is out of bounds |
| `RootVector.MVector.InsertAtPointer` | mvector.h:370-376 | insert with `pos` a pointer: on a full vector with storage the resize frees the block `pos` points into, and the offset is never defined (the block left is the old elements padded with `T()`); capacity 0 still writes out of bounds (`WriteOutOfBounds(0, 0)`, size 1, the same empty block); otherwise the insert completes: a fresh block holding `InsertAt` at the pointer's offset padded with `T()`, same capacity |
| `RootVector.MVector.InsertGrowing` | mvector.h:370-389 | insert grown as push_back grows: always `InsertAt(old, p, value)` |
| `RootVector.MVector.PopBack` | mvector.h:391-398 | empty: no-op; otherwise the last element is dropped; block and capacity unchanged |
| `RootVector.MVector.Erase` | mvector.h:400-414 | elements become `RemoveAt(old, p)`, size - 1, same capacity, a new block |
| `RootVector.MVector.Resize` | mvector.h:416-429 | n <= capacity: nothing changes; otherwise capacity n, slots [size, n) hold `T()`, size and elements unchanged |
| `RootVector.MVector.Clear` | mvector.h:431-436 | size 0, same capacity, a new block of `T()` |
| `RootVector.MVector.ShrinkToFit` | mvector.h:438-451 | capacity becomes size, elements unchanged; a full vector keeps its block |
| `RootVector.MVector.Assign` | mvector.h:453-465 | rhs's size and capacity; rhs's elements when rhs is another vector, all `T()` when it is this vector |
| `RootVector.MVector.AssignGuarded` | mvector.h:453-465 | `operator=` guarded against self-assignment: the elements are always rhs's; `v = v` keeps the block untouched; from another vector a fresh block holds rhs's elements padded with `T()` |
| `RootVector.Render` | mvector.h:258-266 | `operator<<` writes each live element and a space, in index order |
| `Blocks.CopyPrefix` | mvector.h:477-480 | `new T[cap]` then slot-by-slot copy of [0, n): prefix equal, rest `T()` |
| `Blocks.CopyInserting` | mvector.h:377-386 | insert's copy loops build `InsertAt(src[..n], p, value)` padded with `T()` |
| `Blocks.CopyRemoving` | mvector.h:403-411 | erase's copy loops build `RemoveAt(src[..n], p)` padded with `T()` |
| `Sequences.InsertAt` | mvector.h:376-386 | the inserted value at p, earlier elements in place, later ones shifted up by one |
| `Sequences.RemoveAt` | mvector.h:402-413 | earlier elements in place, later ones shifted down by one |
| `Sequences.RemoveAtInsertAt` | mvector.h:370-414 | erasing at the insert position restores the sequence |
| `Sequences.InsertAtRemoveAt` | mvector.h:370-414 | re-inserting an erased element at its position restores the sequence |
| `Sequences.InsertAtMultiset` | mvector.h:370-389 | insert adds exactly the value to the multiset of elements |
| `Sequences.RemoveAtMultiset` | mvector.h:400-414 | erase removes exactly the erased element from the multiset |
| `Growth.PushBackCapacity` | mvector.h:358-368 | push_back's growth always leaves a slot for the new element, never shrinks, and grows only when full |
| `Growth.InsertCapacity` | mvector.h:372-374 | insert's growth never shrinks, grows only when full, and leaves a slot exactly when capacity > 0 |
| `Growth.AfterPushes` | mvector.h:358-368 | n pushes from capacity 0 give size n within the capacity |
| `Growth.PushesFromEmpty` | mvector.h:358-368 | after n >= 1 pushes the capacity is 8 * 2^k, at least n, 8 or at most 2(n - 1), and 8 more than the elements copied |
| `Growth.AmortizedCopies` | mvector.h:358-368 | n pushes copy at most 2n elements (amortized constant time) |
| `IncVector.MVector.constructor` | inc/mvector.h:277-278 | `mvector()`: size 0, capacity 0 |
| `IncVector.MVector.WithCapacity` | inc/mvector.h:280-282 | `mvector(n)`: size 0, capacity n, every slot `T()` |
| `IncVector.MVector.Copy` | inc/mvector.h:284-290 | same size and capacity as the source, live elements equal, a fresh block |
| `IncVector.MVector.Size` | inc/mvector.h:298-301 | the number of live elements |
| `IncVector.MVector.Capacity` | inc/mvector.h:303-306 | the number of allocated slots, never below the size |
| `IncVector.MVector.Empty` | inc/mvector.h:308-311 | true exactly when there is no live element |
| `IncVector.MVector.End` | inc/mvector.h:354-357 | the position one past the last live element |
| `IncVector.MVector.Get` | inc/mvector.h:313-321 | `operator[]` reads slot idx with no size check; for a live index it is element idx |
| `IncVector.MVector.Set` | inc/mvector.h:318-321 | a write through `operator[]` changes slot idx and nothing else |
| `IncVector.MVector.At` | inc/mvector.h:323-337 | `at` throws out_of_range exactly when idx >= size_, otherwise returns `data_[idx]` |
| `IncVector.MVector.AtPut` | inc/mvector.h:331-337 | a write through `at` changes slot idx (a live element) and no other slot when idx < size, and nothing when it throws |
| `IncVector.TryCopyPrefix` | inc/mvector.h:477-489 | copies [0, n) unless the copy of element k < n throws; on a throw every element constructed in the new block has been destroyed |
| `IncVector.MVector.Reserve` | inc/mvector.h:470-496 | n <= capacity: nothing changes; a throwing copy: CopyFailed and data, size, capacity unchanged; success: capacity n, size n, old elements at the same indices |
| `IncVector.MVector.ReserveKeepingSize` | inc/mvector.h:470-496 | reserve without `size_ = new_size`: elements unchanged, capacity n on success, state unchanged on a throw |
| `IncVector.MVector.PushBack` | inc/mvector.h:359-369 | succeeds exactly when size < capacity (value appended, capacity and block kept); a full vector either throws with the state unchanged or, after reserve, writes past the block |
| `IncVector.MVector.PushBackGrowing` | inc/mvector.h:359-369 | push_back over `ReserveKeepingSize`: appends with `PushBackCapacity` unless a copy throws, which changes nothing; a push with room keeps the block and writes only slot size; a growing push gets a fresh block |
| `IncVector.MVector.Insert` | inc/mvector.h:371-390 | succeeds exactly when size < capacity, giving `InsertAt(old, p, value)`; a full vector throws with state unchanged or writes slot 2·size of a 2·size-slot block |
| `IncVector.MVector.InsertAtPointer` | inc/mvector.h:371-377 | insert with `pos` a pointer: on a full vector with storage either the copy throws with the state unchanged, or reserve frees the block `pos` points into and the offset is never defined; capacity 0 writes out of bounds (`WriteOutOfBounds(0, 0)`, size 1, an empty block); otherwise the insert completes: same capacity, a fresh block holding `InsertAt` at the pointer's offset padded with `T()` |
| `IncVector.MVector.PopBack` | inc/mvector.h:392-399 | empty: no-op; otherwise the last element is dropped; block and capacity unchanged |
| `IncVector.MVector.Erase` | inc/mvector.h:401-415 | elements become `RemoveAt(old, p)`, size - 1, same capacity |
| `IncVector.MVector.Resize` | inc/mvector.h:417-430 | n <= capacity: nothing changes; otherwise reserve(n): size and capacity n with the old elements in front, or unchanged on a throw |
| `IncVector.MVector.Clear` | inc/mvector.h:432-437 | size 0, same capacity, a new block of `T()` |
| `IncVector.MVector.ShrinkToFit` | inc/mvector.h:439-452 | capacity becomes size, elements unchanged; a full vector keeps its block |
| `IncVector.MVector.Assign` | inc/mvector.h:454-466 | rhs's size and capacity; rhs's elements when rhs is another vector, all `T()` when it is this vector |
| `IncVector.Render` | inc/mvector.h:259-267 | `operator<<` writes each live element and a space, in index order |
| `Scenarios.FilledRoot` | test.cpp:15-18 | `mv(5)` then pushes 0..4: capacity 5, elements [0, 1, 2, 3, 4] |
| `Scenarios.FilledInc` | test.cpp:15-18 | the same fill with the inc header: no push grows, none faults |
| `Scenarios.VectorPushBackTest` | test.cpp:13-22 | capacity 5, `mv[4] == 4`, `mv[1] == 1` |
| `Scenarios.VectorInsertTest` | test.cpp:24-32 | `insert(89, begin())` on the full vector: `mv[0] == 89`, size 6, capacity 10; this holds only when the position is read as offset 0 of the block at the call, since as written the offset is undefined (see `VectorInsertTestAsWritten`) |
| `Scenarios.VectorInsertTestAsWritten` | test.cpp:24-32 | the same test with `begin()` as a pointer: insert computes the offset from the freed block |
| `Scenarios.VectorInsertTestInc` | test.cpp:24-32 | the same test with the inc header writes slot 10 of a 10-slot block; this holds only when the position is read as offset 0 of the block at the call, since as written `pos - begin()` is first taken from the block `reserve` freed (inc/mvector.h:374-377, 492) |
| `Scenarios.DemoMain` | main.cpp:6-25 | the demo writes "b d ", then "b ", then "c b " |
| `Scenarios.RenderedSteps` | main.cpp:15-22 | the text `operator<<` gives for the demo's three states |
| `Scenarios.PushAll` | mvector.h:358-368 | pushing xs into `mvector(0)` yields exactly xs with the capacity `AfterPushes(|xs|)` predicts |
| `Scenarios.PushThenPopRestores` | mvector.h:358-398 | pop_back after push_back restores the elements |
| `Scenarios.InsertThenEraseRestores` | mvector.h:370-414 | erase at the position of an insert restores the elements |
| `Scenarios.CopyIsIndependent` | mvector.h:283-289 | pushing onto the source after copy construction leaves the copy unchanged |
| `Scenarios.SelfAssignmentClearsContents` | mvector.h:453-465 | `v = v` turns ["x"] into [""] |
| `Scenarios.GuardedSelfAssignmentKeepsContents` | mvector.h:453-465 | the guarded `v = v` keeps ["x"] |
| `Scenarios.InsertIntoEmptyFaults` | mvector.h:370-383 | insert into `mvector(0)` writes slot 0 of a zero-slot block |
| `Scenarios.InsertGrowingIntoEmpty` | mvector.h:370-389 | the corrected insert into `mvector(0)` gives [7] with capacity 8 |
| `Scenarios.IncFirstPushBackFaults` | inc/mvector.h:359-369 | the first push_back into an inc-header `mvector(0)` writes slot 8 of an 8-slot block |
| `Scenarios.IncFirstPushBackGrowing` | inc/mvector.h:359-369 | over the corrected reserve the same push gives [7] with capacity 8 |
| `Scenarios.IncCopyFailureRollsBack` | inc/mvector.h:477-489 | a push_back whose copy of element 1 throws reports it and leaves [3, 4] with capacity 2 |

## Left out

- Stream output: `operator<<` is modelled as `Render`, which returns the text; the stream is left out.
- The `std::cerr` diagnostics on the no-op paths of `reserve` and `resize` are left out. The model states only that nothing changes.
- Memory ownership is left out: `delete[]`, the destructor, the destruction of the old elements after a successful `inc/mvector.h` `reserve`, the block `erase` leaks, and the commented-out `~T()` calls in `pop_back` and `erase`. Dafny's heap has no deallocation. `PopBack` and `Erase` therefore end no lifetime.
- The default constructor's `_data` is left out. The header leaves it uninitialized, so the first `delete[]` on it (in `reserve`, `clear`, `operator=`, `insert` on a vector with no storage, or the destructor) frees an indeterminate pointer. The model gives that vector an empty block instead.
- Allocation failure (`std::bad_alloc`) is left out: allocation in Dafny cannot fail. The only injected failure is a throwing element copy in `inc/mvector.h`'s `reserve`.
- Throwing element copies are modelled only in that `reserve`. The copy loops of the root header and the other loops of `inc/mvector.h` are modelled as copies that do not throw.
- Pointers and iterators are modelled only in `InsertAtPointer`. Elsewhere `begin()` is position 0 and `end()` is `End()`. A growing `insert` computes `pos - begin()` after `resize` has freed the block `pos` points into, which is undefined behaviour (see Findings). `Insert` and the other index-based members take the intended position, the offset in the block at the time of the call. No other iterator invalidation is tracked.
- `const end()` is left out: it does not compile and is never instantiated.
- The const and non-const overloads of `operator[]` and `at` are one function each (a read), plus `Set` and `AtPut` for writes through the returned reference.
- `size_t` is unbounded here: the wrap-around of `capacity * 2` and `size * 2` at 2^64 is not modelled.
- Uninitialized scalars are left out. For a scalar `T`, `new T[n]` leaves the slots indeterminate. The model fixes them to `blank`, the value of `T()`.
- `miterator.h` (an empty class), the printing in `main.cpp` and the palindrome tests in `test.cpp` (they call a function that is not defined) are left out.

## Findings

| source | as written | input that shows it | evidently intended | confidence | as-written member | corrected member |
|---|---|---|---|---|---|---|
| mvector.h:453-465 | `operator=` deletes its block and allocates a new one before copying `rhs[i]`. When `rhs` is `*this` it copies the new block's `T()` values onto themselves. The same code is at inc/mvector.h:454-466. | a vector holding ["x"], then `v = v` | self-assignment leaves the vector unchanged | high; not executed | `RootVector.MVector.Assign`, `Scenarios.SelfAssignmentClearsContents` | `RootVector.MVector.AssignGuarded`, `Scenarios.GuardedSelfAssignmentKeepsContents` |
| mvector.h:372-383 | `insert` grows with `resize(_size * 2)`, which does nothing when size == capacity == 0. It then writes `tmp_data[0]` of a zero-slot block. The same code is at inc/mvector.h:373-384. | `mvector<int> v(0); v.insert(7, v.begin());` | the value is stored, with growth as in `push_back` | high; not executed | `RootVector.MVector.Insert`, `Growth.InsertCapacity`, `Scenarios.InsertIntoEmptyFaults` | `RootVector.MVector.InsertGrowing`, `Scenarios.InsertGrowingIntoEmpty` |
| inc/mvector.h:495 | `reserve` ends with `size_ = new_size`. After the `reserve` in `push_back`, `data_[size_++]` stores one past the block. The same happens in `insert` on a full vector (through `resize`). | with inc/mvector.h: `mvector<int> v(0); v.push_back(7);` | `reserve` keeps the size and `push_back` appends | high; not executed | `IncVector.MVector.PushBack`, `IncVector.MVector.Insert`, `Scenarios.IncFirstPushBackFaults`, `Scenarios.VectorInsertTestInc` | `IncVector.MVector.ReserveKeepingSize`, `IncVector.MVector.PushBackGrowing`, `Scenarios.IncFirstPushBackGrowing` |
| mvector.h:372-376 | on a full vector `insert` calls `resize`, which frees the block (mvector.h:481) before `position = pos - begin()`. The subtraction is between a pointer into the freed block and one into the new block, which is undefined. inc/mvector.h:373-377 does the same. Its copy loop (385-386) also reads slots `reserve` never constructed, before it writes slot 2·size. | test.cpp:24-32: `mv(5)` filled to capacity, then `mv.insert(89, mv.begin())` | the position is computed before the resize | high; not executed | `RootVector.MVector.InsertAtPointer`, `IncVector.MVector.InsertAtPointer`, `Scenarios.VectorInsertTestAsWritten` | `RootVector.MVector.Insert`, `Scenarios.VectorInsertTest` |
