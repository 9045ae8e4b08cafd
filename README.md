# drop-bin in Dafny

A model of `drop-bin`, a container that takes values cheaply and runs their destructors
later, in one bulk pass. The model covers its five source files:

- `ConcurrentList`: an insert-only linked stack.
- `ConcurrentSlice`: a fixed-capacity append-only array.
- `ConcurrentVec`: a vector whose segments are slices linked in a list.
- `Inner`: a type-erased arena. It bump-allocates values into reusable byte segments and
  keeps a registry of destructors.
- `Bin`: the public facade. It holds a try-read/try-write lock and a pending-clear flag.

Each module follows one source file:

| module | file | form |
|---|---|---|
| `ConcurrentLists` | `concurrent_list.dfy` | a class over linked nodes; a ghost `Contents` sequence |
| `ConcurrentSlices` | `concurrent_slice.dfy` | a class over a fixed `array<Option<T>>` and a `len` counter |
| `ConcurrentVecs` | `concurrent_vec.dfy` | a class over a list of slices; the growth rule |
| `ArenaSpec` | `arena_spec.dfy` | `Inner` on values: padding, fit test, new-segment sizing, `add`, `clear`, `size`, the arena invariant, and their properties |
| `InnerArena` | `inner.dfy` | `Inner` and `Storage` as objects, each method proved equal to its `ArenaSpec` function |
| `BinSpec` | `bin_spec.dfy` | `Bin` as a state machine on values: lock state, flag and arena, and whole runs of operations |
| `Bins` | `bin.dfy` | `Bin` as an object whose methods are proved equal to the `BinSpec` steps |
| `Common` | `common.dfy` | `Option`, `Result`, `usize` bounds, saturating doubling, reversal |

How values and addresses are represented:
- A value is an identity, an alignment and its payload bytes. Its size is the payload length.
- Running a destructor is reported by handing the value back, in a `dropped` sequence.
- A registered pointer is one of two kinds:
  - a dangling address `align`, for a zero-sized value;
  - a segment (numbered in creation order) and an offset in it.
- A segment's cells up to its used length are `Option<bv8>`. `None` is a padding byte that
  was never initialised.
- The address of a new buffer is the `base` parameter: the allocator's choice.

Two points of the code's behaviour are easy to miss:
- `ConcurrentSlice::drain` and `into_iter` yield slots in insertion order. The
  most-recent-first order of `ConcurrentVec` comes from the vector reversing each slice
  (`src/concurrent_vec.rs:39`, `:43`).
- When `size + align` overflows a `usize`, `add_storage` returns `None`. The value then goes
  out of scope there, so its destructor runs at once. The models of `add` report it as
  dropped, and `ArenaSpec.AddDropsOnlyOnOverflow` proves this is the only way `add` drops a
  value.

Concurrency is reduced to two explicit inputs:
- A segment's `TryMutex` is the `busy` set: the list positions whose `try_lock` fails.
- The bin's lock is a `Gate` (`Idle`, `Reading(n)`, `Writing`): the lock as other threads hold
  it when an operation starts. `Bin.OtherReads` and `Bin.OtherReleasesRead` are the other
  threads' steps.

## Model

| member | source | states |
|---|---|---|
| ConcurrentLists.Node.constructor | src/concurrent_list.rs:90-94 | a node holds its value, and the contents of the new node are that value followed by the contents of `next` |
| ConcurrentLists.ConcurrentList.constructor | src/concurrent_list.rs:22-26 | a new list is valid and empty |
| ConcurrentLists.ConcurrentList.Head | src/concurrent_list.rs:27-50 | `head` (through `head_node`, which loads the head pointer) is None exactly when the list is empty, and otherwise the first (most recently pushed) element |
| ConcurrentLists.ConcurrentList.Iter | src/concurrent_list.rs:56-81 | walking the `next` links from the head yields exactly the contents, most recently pushed first |
| ConcurrentLists.ConcurrentList.Len | src/concurrent_list.rs:126-128 | `len` is the number of elements |
| ConcurrentLists.ConcurrentList.IsEmpty | src/concurrent_list.rs:130-132 | `is_empty` holds exactly when the list has no elements |
| ConcurrentLists.ConcurrentList.Push | src/concurrent_list.rs:89-113 | the contents become `[v] + old contents`, the result is `v`, and `head` is now that result |
| ConcurrentLists.ConcurrentList.Pop | src/concurrent_list.rs:114-123 | on an empty list, None and no change; otherwise the old head, with the rest of the list left |
| ConcurrentLists.ConcurrentList.Drain | src/concurrent_list.rs:82-84 | yields every element, most recent first, and leaves the list empty |
| ConcurrentLists.ConcurrentList.IntoIter | src/concurrent_list.rs:85-87 | the same values and order as `drain`, and the list ends up empty |
| ConcurrentSlices.ConcurrentSlice.constructor | src/concurrent_slice.rs:14-21 | `new(n)` has `n` cells, none initialised, and length 0 |
| ConcurrentSlices.ConcurrentSlice.Capacity | src/concurrent_slice.rs:23-25 | the capacity is the number of cells, which never changes |
| ConcurrentSlices.ConcurrentSlice.Len | src/concurrent_slice.rs:26-28 | the length is the number of stored values and never exceeds the capacity |
| ConcurrentSlices.ConcurrentSlice.Push | src/concurrent_slice.rs:31-51 | succeeds exactly when `len < capacity`, storing `v` at slot old `len` and appending it to the contents; on a full slice it returns `Err(v)` with the same value, and len, contents and cells are unchanged |
| ConcurrentSlices.ConcurrentSlice.Write | src/concurrent_slice.rs:48-50 | an assignment through a returned reference replaces exactly that slot's value |
| ConcurrentSlices.ConcurrentSlice.IntoIter | src/concurrent_slice.rs:75-84 | yields the first `len` values in slot order, including every assignment made through a reference (`iter_mut` walks the same cells) |
| ConcurrentSlices.ConcurrentSlice.Drain | src/concurrent_slice.rs:66-74 | yields the old contents in slot order, sets the length to 0 and leaves every cell uninitialised, so pushes succeed again up to the capacity |
| ConcurrentSlices.ConcurrentSlice.Clear | src/concurrent_slice.rs:86-88 | drops every value, in slot order, and leaves the slice empty |
| ConcurrentSlices.PushThree | src/concurrent_slice.rs:128-131 | three pushes into an empty capacity-3 slice take slots 0, 1 and 2; the fourth is handed back |
| ConcurrentVecs.NewSliceCapacity | src/concurrent_vec.rs:26-29 | a new slice has capacity 4 when there is no head, and otherwise the saturating double of the head's capacity |
| ConcurrentVecs.CapacityAt | src/concurrent_vec.rs:26-29 | the `k`-th slice ever created has capacity at least 4, and exactly 4 when `k = 0` |
| ConcurrentVecs.GrowthCons | src/concurrent_vec.rs:25-34 | linking a slice of the grown capacity, holding one value, in front of a full head keeps the growth rule: every non-head slice is full |
| ConcurrentVecs.GrowthHead | src/concurrent_vec.rs:20-24 | a push into the non-full head keeps the growth rule |
| ConcurrentVecs.FlatHead | src/concurrent_vec.rs:43 | a value added to the head slice comes first in the most-recent-first flattening |
| ConcurrentVecs.FlatCons | src/concurrent_vec.rs:43 | a slice linked in front contributes its values, reversed, ahead of the rest |
| ConcurrentVecs.Flat | src/concurrent_vec.rs:43 | the `flat_map` of reversed slices; its behaviour is stated by `FlatCons` (a slice in front adds its values reversed ahead of the rest) and `FlatHead` (a value pushed into the head comes first) |
| Common.Grow | src/concurrent_vec.rs:28 | the saturating doubling (also used at `src/inner.rs:127`) `checked_mul(2).unwrap_or(c)`: `2 * c` when that fits a `usize`, and `c` otherwise; never below `c`, and within `usize` when `c` is |
| ConcurrentVecs.ConcurrentVec.constructor | src/concurrent_vec.rs:11-15 | a new vector is valid and empty |
| ConcurrentVecs.ConcurrentVec.Push | src/concurrent_vec.rs:19-35 | always succeeds: the contents become `[v] + old contents`, and the result is the slot just reserved (`len - 1`) of the head slice, which holds `v`. When the head has room the slice list is unchanged and only the head's contents gain `v`; otherwise a fresh slice holding only `v` is linked in front and the reference is its slot 0 |
| ConcurrentVecs.ConcurrentVec.PushSlice | src/concurrent_vec.rs:25-34 | with no head or a full head, links a fresh slice of the growth capacity in front of the old slices and stores `v` in it; the push into it cannot fail, and the reference is slot 0 of that slice, whose length is 1 |
| ConcurrentVecs.ConcurrentVec.Write | src/concurrent_vec.rs:79-81 | an assignment through a reference `push` returned changes exactly that slot of that slice; the slice list and every other value stay as they were |
| ConcurrentVecs.ConcurrentVec.Len | src/concurrent_vec.rs:47-49 | the sum of the slice lengths equals the number of values |
| ConcurrentVecs.ConcurrentVec.IsEmpty | src/concurrent_vec.rs:52-54 | holds exactly when no slice exists, and exactly when there are no values |
| ConcurrentVecs.ConcurrentVec.IntoIter | src/concurrent_vec.rs:38-44 | yields the values most recent first: slices from the head, each slice reversed |
| ConcurrentVecs.PushAndCount | src/concurrent_vec.rs:71-74 | one push puts `k` in front, and `len` grows from `k` to `k + 1` |
| ConcurrentVecs.PushCount | src/concurrent_vec.rs:69-77 | pushing 0, 1, ..., n-1 gives a vector whose `i`-th value is `n - 1 - i` |
| ConcurrentVecs.PushFour | src/concurrent_vec.rs:69-77 | four pushes into a new vector fill one slice of capacity 4 and return its slots 0 to 3 |
| ConcurrentVecs.WriteAll | src/concurrent_vec.rs:79-81 | assignments through the five references of the test give the head slice `[b4]` and the full slice `[b0, b1, b2, b3]` |
| ConcurrentVecs.FlatTwo | src/concurrent_vec.rs:83-86 | those two slices flatten to `[b4, b3, b2, b1, b0]`, the order the test requires |
| ArenaSpec.Init | src/inner.rs:97 | the cells written hold exactly the value's bytes |
| ArenaSpec.Padding | src/inner.rs:77 | the padding is below `align`, and the end address plus padding is a multiple of `align` |
| ArenaSpec.PaddingAligns | src/inner.rs:77 | `(align - end % align) % align` added to `end` gives a multiple of `align` |
| ArenaSpec.PaddingLeast | src/inner.rs:77 | no skip shorter than the padding reaches a multiple of `align` |
| ArenaSpec.FitAt | src/inner.rs:74-85 | a segment is taken exactly when `used + padding + size <= capacity`; the start is `used + padding`, and `start + size` fits and is aligned |
| ArenaSpec.FindFit | src/inner.rs:70-86 | the chosen segment is the first one from position `i` whose lock is free and that fits; every segment before it is busy or too small, and None means all are |
| ArenaSpec.Place | src/inner.rs:88-98 | keeps base and capacity, makes the used length `start + size`, leaves earlier cells alone, leaves the padding cells between the old used length and `start` uninitialised, and puts the value's bytes at `start` |
| ArenaSpec.NewCapacity | src/inner.rs:121-129 | None exactly when `size + align` overflows; otherwise the capacity is `max(size + align, 1024 or the grown head capacity)`, so it is at least both of them and fits a `usize` |
| ArenaSpec.Values | src/inner.rs:156-163 | the values of the entries, position by position |
| ArenaSpec.Emptied | src/inner.rs:165-167 | every segment with its used length reset to 0 |
| ArenaSpec.Add | src/inner.rs:44-57 | `add` on values; its behaviour is stated by `AddValid`, `AddZeroSized`, `AddReuses`, `AddCreatesSegment`, `AddDropsOnlyOnOverflow`, `AddAccounts` and `AddSize` |
| ArenaSpec.Store | src/inner.rs:62-111 | the segment step of `add`: zero-sized values at the dangling pointer, else the first free segment that fits, else a new one; stated through `AddZeroSized`, `AddReuses`, `AddCreatesSegment` and `AddDropsOnlyOnOverflow`, and `InnerArena.Inner.Store` is proved equal to it |
| ArenaSpec.AddStorage | src/inner.rs:116-152 | a new head segment of `NewCapacity` at `base` holding the value, None on overflow; stated through `AddCreatesSegment`, `FreshValid` and `AddSize` |
| ArenaSpec.Clear | src/inner.rs:155-168 | `clear` on values; its behaviour is stated by `ClearRunsAll`, `ClearIdempotent`, `ClearValid` and `ClearKeepsSize` |
| ArenaSpec.TotalSize | src/inner.rs:171-173 | the size is at least the capacity of every segment; `ClearKeepsSize`, `AddSize` and `SizeUpdate` state how it changes, and `InnerArena.Inner.Size` is proved equal to it |
| ArenaSpec.PlaceKeepsResident | src/inner.rs:88-98 | writing past a segment's used length keeps every earlier value readable where it is |
| ArenaSpec.ConsKeepsResident | src/inner.rs:150 | linking a new segment in front keeps every earlier value readable |
| ArenaSpec.ReuseValid | src/inner.rs:68-99 | reusing a segment that fits keeps the arena invariant: capacities respected, every registered value readable and aligned |
| ArenaSpec.FreshValid | src/inner.rs:116-152 | a new segment holding the value keeps the arena invariant |
| ArenaSpec.AddValid | src/inner.rs:44-57 | `add` keeps the arena invariant |
| ArenaSpec.AddZeroSized | src/inner.rs:104-110 | a zero-sized value is registered at the dangling pointer `align`, and no segment changes |
| ArenaSpec.AddReuses | src/inner.rs:68-99 | when a segment fits, only it changes: used length `used + padding + size`, same base and capacity, one entry registered |
| ArenaSpec.AddCreatesSegment | src/inner.rs:116-152 | when none fits, a new head segment at `base` of capacity `max(size + align, 1024 or grown head)`, with `start < align`, `start + size <= capacity` and one entry registered |
| ArenaSpec.AddDropsOnlyOnOverflow | src/inner.rs:44-57 | `add` drops the value exactly when it is not zero-sized, nothing fits and `size + align` overflows; then nothing changes; otherwise exactly one destructor is registered, for `v`, in front |
| ArenaSpec.AddAccounts | src/inner.rs:44-57 | registered values plus dropped values after `add` are those before, plus `v` |
| ArenaSpec.ClearValid | src/inner.rs:155-168 | `clear` keeps the arena invariant |
| ArenaSpec.ClearRunsAll | src/inner.rs:155-168 | `clear` runs every registered destructor once, in registry order, empties the registry, and resets every segment's used length while keeping its base and capacity |
| ArenaSpec.ClearIdempotent | src/inner.rs:155-168 | a second `clear` runs nothing and changes nothing |
| ArenaSpec.ClearKeepsSize | src/inner.rs:171-173 | `clear` leaves the size unchanged |
| ArenaSpec.AddSize | src/inner.rs:116-152 | `add` leaves the size unchanged or adds exactly the capacity of the new head segment |
| ArenaSpec.SizeUpdate | src/inner.rs:171-173 | changing one segment's cells, with the same capacity, keeps the size |
| ArenaSpec.AddAllKeeps | src/inner.rs:186-215 | a run of adds, none overflowing, drops nothing |
| ArenaSpec.AddAllValid | src/inner.rs:44-57 | a run of adds keeps the arena invariant |
| ArenaSpec.AddAllRegisters | src/inner.rs:44-57 | a run of adds registers the values in front in reverse order, one destructor each |
| ArenaSpec.AddRegistersOne | src/inner.rs:44-57 | an add that does not overflow puts its value in front of the registry |
| ArenaSpec.AddsThenClear | src/inner.rs:186-215 | adds into a new arena followed by `clear` run every destructor exactly once, most recent first |
| ArenaSpec.ReversePermutes | src/inner.rs:156-163 | running the destructors most-recent-first is a permutation of the values added |
| ArenaSpec.StoreU16 | src/inner.rs:190-204 | after the test's first `add` (an 8-byte, 8-aligned closure) into a new arena, `add(253_u16)` drops nothing, reuses the same 1024-byte segment right after the closure, makes two registry entries with the closure's second, and the bytes at the new entry read back `253` |
| ArenaSpec.ZeroSizedAddsKeepSegments | src/inner.rs:218-246 | any run of zero-sized adds touches no segment and drops nothing |
| InnerArena.Storage.constructor | src/inner.rs:145-148 | a storage holds the base, capacity and cells it was made with |
| InnerArena.Storage.Snapshot | src/inner.rs:24-32 | the segment value carries the storage's base, capacity and cells |
| InnerArena.Inner.constructor | src/inner.rs:35-41 | a new arena is valid and equals `ArenaSpec.Empty` |
| InnerArena.Inner.FindStorage | src/inner.rs:68-86 | the loop finds exactly the storage and start index `ArenaSpec.FindFit` chooses, or none when it finds none |
| InnerArena.Inner.Store | src/inner.rs:62-111 | the new segments and the pointer are those of `ArenaSpec.Store`, and a failed store changes no segment |
| InnerArena.Inner.WriteAt | src/inner.rs:88-98 | the storage at position `p` becomes `ArenaSpec.Place` of its old value; the others are unchanged |
| InnerArena.Inner.AddStorage | src/inner.rs:116-152 | the new segments and pointer are those of `ArenaSpec.AddStorage`; on overflow, nothing changes |
| InnerArena.Inner.Link | src/inner.rs:150 | the new storage becomes the head and the others are kept |
| InnerArena.Inner.StorageLinked | src/inner.rs:150 | a fresh storage linked in front keeps the object structure |
| InnerArena.Inner.Add | src/inner.rs:44-57 | the new arena and the dropped values are exactly `ArenaSpec.Add` of the old arena, and the invariant is kept |
| InnerArena.Inner.Register | src/inner.rs:56 | the registry gains the entry in front, the segments are unchanged |
| InnerArena.Inner.Clear | src/inner.rs:155-168 | the new arena and the destructors run are exactly `ArenaSpec.Clear` of the old arena |
| InnerArena.Inner.TakeRegistry | src/inner.rs:156 | leaves an empty registry and yields all old entries in registry order |
| InnerArena.Inner.ResetStorages | src/inner.rs:165-167 | every storage's used length is reset to 0: the segments become `Emptied` of the old ones |
| InnerArena.Inner.ResetOne | src/inner.rs:166 | only the storage at position `p` loses its cells |
| InnerArena.Inner.Size | src/inner.rs:171-173 | the loop's sum equals the total capacity of the segments |
| InnerArena.RunDestructors | src/inner.rs:156-163 | the destructors run are those of the entries, in order |
| BinSpec.TryRead | src/lib.rs:68 | a read guard is refused exactly when a writer holds the lock, and otherwise adds a reader |
| BinSpec.ReleaseRead | src/lib.rs:68-72 | dropping a read guard never leaves the lock write-held |
| BinSpec.TryWrite | src/lib.rs:90 | the write guard is granted exactly when nobody holds the lock |
| BinSpec.ReleaseWrite | src/lib.rs:90-93 | dropping the write guard frees the lock |
| BinSpec.ReadReleased | src/lib.rs:68-72 | taking and dropping a read guard leaves the lock as it was |
| BinSpec.TryClear | src/lib.rs:88-95 | `try_clear` never changes the lock state as others hold it |
| BinSpec.Add | src/lib.rs:67-75 | `add` never changes the lock state as others hold it |
| BinSpec.ClearBin | src/lib.rs:81-85 | `clear` never changes the lock state as others hold it |
| BinSpec.SizeOf | src/lib.rs:99-101 | `size` is 0 while write-held, and the sum of the segment capacities otherwise |
| BinSpec.Teardown | src/lib.rs:104-108 | `Drop` runs the destructor of every registered value once, in registry order |
| BinSpec.TryClearValid | src/lib.rs:88-95 | `try_clear` keeps the arena invariant |
| BinSpec.AddKeepsValid | src/lib.rs:67-75 | `add` keeps the arena invariant |
| BinSpec.TryClearActs | src/lib.rs:88-95 | with the flag set and the lock free, the flag is reset and every destructor runs; otherwise nothing changes and nothing runs |
| BinSpec.ClearDeferred | src/lib.rs:81-95 | while anyone holds the lock, `clear` only sets the flag |
| BinSpec.DeferredClearRunsOnAdd | src/lib.rs:67-75 | the next `add` that finds the lock free carries out a pending clear: every destructor runs, the new value's included (also when `size + align` overflows and the value is dropped at once), and the flag is reset |
| BinSpec.AddWhileWriting | src/lib.rs:68-72 | while write-held, `add` drops the value at once and nothing else changes |
| BinSpec.AddAccountsBin | src/lib.rs:67-75 | after `add`, registered plus dropped values are those before, plus `v` |
| BinSpec.TryClearAccounts | src/lib.rs:88-95 | `try_clear` loses and invents no value |
| BinSpec.ClearAccounts | src/lib.rs:81-85 | `clear` loses and invents no value |
| BinSpec.AddThenClear | src/lib.rs:110-125 | with no other lock holder, `add` on a new bin drops nothing and the following `clear` drops exactly the value |
| BinSpec.Given | src/lib.rs:67 | the values a run gives the bin are exactly the values of its `add` steps: every `add`'s value is among them, and each of them comes from some `add` |
| BinSpec.GivenAppend | src/lib.rs:67 | the values given by two runs one after the other are those of the first run followed by those of the second, in order |
| BinSpec.ApplyAccounts | src/lib.rs:67-95 | each step of a run loses and invents no value |
| BinSpec.RunAccounts | src/lib.rs:67-95 | over any run of `add`, `clear` and other threads' lock steps, every value held at the start or given is either still registered or had its destructor run, once |
| BinSpec.DroppedExactlyOnce | src/lib.rs:104-108 | for a new bin, any run and then `Drop`, every value given has its destructor run exactly once overall |
| Bins.Bin.constructor | src/lib.rs:56-61 | the lock is free, no clear is pending, and the arena is empty |
| Bins.Bin.Add | src/lib.rs:67-75 | the new state and the destructors run are exactly the `BinSpec.Add` step |
| Bins.Bin.Store | src/lib.rs:68-72 | under a read guard, the arena step is `ArenaSpec.Add`; while write-held, the value is dropped and the arena is unchanged |
| Bins.Bin.Clear | src/lib.rs:81-85 | the new state and destructors run are exactly the `BinSpec.ClearBin` step |
| Bins.Bin.TryClear | src/lib.rs:88-95 | the new state and destructors run are exactly the `BinSpec.TryClear` step |
| Bins.Bin.Size | src/lib.rs:99-101 | the result is `BinSpec.SizeOf` of the bin's state |
| Bins.Bin.Teardown | src/lib.rs:104-108 | the destructors run are exactly `BinSpec.Teardown`, and the registry ends empty |
| Bins.Bin.OtherReads | src/lib.rs:68 | another thread's `try_read` adds a reader, and nothing else changes |
| Bins.Bin.OtherReleasesRead | src/lib.rs:68-72 | another thread dropping its read guard removes a reader, and nothing else changes |
| Bins.ClearDuringRead | src/lib.rs:68-95 | while another thread holds a read guard, `clear` drops nothing and only sets the flag |
| Bins.DeferredClearScenario | src/lib.rs:77-95 | a `clear` during another thread's `add` is deferred; the next `add` runs every destructor, the new value's included, resets the flag and leaves the bin valid |

The scenario methods `ConcurrentLists.PushScenario`, `ConcurrentLists.PopScenario`,
`ConcurrentSlices.EmptyScenario`, `ConcurrentSlices.PushScenario`,
`ConcurrentVecs.PushScenario` and `Bins.ClearScenario` restate the unit tests of
`src/concurrent_list.rs:159-216`, `src/concurrent_slice.rs:113-149`,
`src/concurrent_vec.rs:63-87` and `src/lib.rs:110-125` as assertions on the model.
`ConcurrentVecs.PushScenario` pushes five values, assigns through all five references and
checks that the vector then yields the new values most recent first.

## Left out

- Atomics, memory orderings, the compare-and-swap loop of `ConcurrentList::push`, and the
  `fetch_update` of `ConcurrentSlice::push`: each is one sequential step. Interleavings of
  threads within an operation are not modelled; other threads appear only through the lock
  state and the `busy` set.
- The internals of `TryMutex` and `TryRwLock`: a segment lock is the `busy` set, and the bin's
  lock is the `Gate`.
- Raw pointers, `transmute` of `drop_in_place`, `UnsafeCell`, `Box::into_raw` and
  `from_raw`, and `mem::forget`. A destructor is the value handed back in `dropped`, and an
  address is a segment number and an offset.
- `MaybeUninit` bytes are `Option<bv8>`. Padding is `None`. The bytes of a value are its
  payload, so reading back a value means reading back its bytes.
- The real heap address of a buffer is the `base` parameter of `add`.
- InnerArena.Inner.AddStorage: takes `Vec::with_capacity(capacity)` as allocating exactly
  `capacity` bytes. The source's fit test reads the vector's own capacity, which the
  allocator may make larger. Allocation failure is not modelled either.
- ArenaSpec.FitAt: does not model overflow of the end address `base + used` of a `usize`. The
  `checked_add`s that follow it are modelled.
- InnerArena.Inner.Size: the sum of capacities is unbounded. The source's `usize` sum would
  overflow only past the address space.
- `iter_mut` of the list and the vector: the walk is modelled by `Iter` and `IntoIter`, but
  mutation through the references it yields is not. Writes through the references `push`
  returns are modelled, by `ConcurrentVec.Write` and `ConcurrentSlice.Write`.
- ConcurrentLists.ConcurrentList.Drain, ConcurrentLists.ConcurrentList.IntoIter,
  ConcurrentSlices.ConcurrentSlice.Drain, ConcurrentSlices.ConcurrentSlice.IntoIter and
  ConcurrentVecs.ConcurrentVec.IntoIter yield the whole sequence at once. A partly consumed
  iterator is not modelled, such as the one dropped after a single `next` in
  `src/concurrent_list.rs:214-216`. In the source, the rest of a partly consumed list `into_iter`
  is popped and dropped with the list it owns (`src/concurrent_list.rs:85-87`, `:148-150`).
  A partly consumed list `drain` only borrows the list, so the rest stays in it
  (`src/concurrent_list.rs:82-84`). The unread cells of a slice's `drain` or `into_iter` are
  left without running their destructors (`src/concurrent_slice.rs:66-84`).
- The `Drop` impl of `ConcurrentList`: it drains the list, which `Drain` models. Freeing nodes
  is not modelled.
- `head_mut` and `head_node_mut`, which exist only for tests: `Head` covers their use as a
  query (`head_mut() == None` on a new list), but mutation through the reference they return
  is not modelled.
- The unit tests of `Inner` (`src/inner.rs:186-246`) are stated on values only, by
  `ArenaSpec.AddsThenClear`, `ArenaSpec.StoreU16` and `ArenaSpec.ZeroSizedAddsKeepSegments`,
  not as runs of the `Inner` object. `StoreU16` covers the first two adds of the `bin` test;
  the third add and the two clears are covered by `AddsThenClear` and `ClearIdempotent`.
- BinSpec.TryClear: its own contract states only that the lock is left as others hold it.
  Its full behaviour is stated by `BinSpec.TryClearActs`, `TryClearValid` and
  `TryClearAccounts`.
- BinSpec.Add: its own contract states only that the lock is left as others hold it. Its
  behaviour is stated by `AddWhileWriting`, `DeferredClearRunsOnAdd`, `AddKeepsValid` and
  `AddAccountsBin`, and by the `ArenaSpec` lemmas on the arena step.
- BinSpec.ClearBin: its own contract states only that the lock is left as others hold it.
  Its behaviour is stated by `ClearDeferred`, `ClearAccounts` and, through `TryClear`,
  `TryClearActs`.
- Bins.Bin.Teardown: requires the lock to be free. This stands for the exclusive access of
  `get_mut` in `Drop`.
- `Debug` impls, `Default` impls and the `assert_thread_safe` tests: they make no behavioural
  claim.
- `benches/drop_expensive.rs`: a performance harness with no behavioural contract.
