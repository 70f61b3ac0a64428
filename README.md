# Packed array: a verified model

This project models `PackedArray<T, N>` ("sparse set" or slot map) in Dafny and
proves what each of its operations does. The container has a fixed capacity `N`.
Its live elements sit packed in the buffer prefix `[0, size)`. Callers hold
external indices in `[0, N)` that stay valid while other elements come and go.
Two tables translate between indices and slots:

- `indexToEntry` (the source's `index_to_entry`) maps an external index to its slot;
- `entryToIndex` (the source's `entry_to_index`) maps a slot to the external index parked there.

An index is live exactly when its slot lies below `size`; there is no other
liveness record.

The model has three modules:

- `IndexMaps` (`index_maps.dfy`) states the bookkeeping on plain sequences. It
  defines `Inverse` (the two tables are mutually inverse permutations of
  `[0, N)`) and `Live` (the map from each live index to the value in its slot).
  Its lemmas prove, once per operation, how that map changes when the tables,
  the buffer and `size` change the way the source changes them.
- `PackedArrays` (`packed_array.dfy`) holds the class `PackedArray`. It has the
  source's fields: `size`, the two tables as `array<nat>`, and the buffer as an
  `array<T>` of `N` cells of which only the prefix is meaningful. `Valid()` is
  the object invariant. `Contents()` is the abstract value, a `map<nat, T>` from
  live index to element. Each mutator's postcondition says what `Contents()`,
  `size`, the tables and the buffer are afterwards.
- `Scenarios` (`scenarios.dfy`) replays the repository's tests as client code
  of the class, proved against its method contracts and its query functions.
  Two more scenarios record index reuse: after `remove(x)` the next `append`
  returns `x`, and `set(x, v)` makes `x` live again and restores the length.

Operators: `a[i]` (the `Index` impl) is `Get`. `a[i] = v` and `*a.get_mut(i) = v`
(the `IndexMut` impl and `get_mut`) are `Assign`. `iter` walks `AsSlice`.
`iter_mut` and `as_slice_mut`, used to update every element, are `MapInPlace`.

A note on `set`: the source does not check for a full container before it parks
a dead index in slot `size`, and it does not need to. When `size == N` every
index is live (`FullIffAllLive`), so a dead index always leaves a free slot
(`LiveSetDead`). `Set` therefore only requires `index < N`.

`remove`'s inner branch (src/lib.rs:102-109) is written as its own method,
`FillHole`, so that each proof stays small. `Remove` runs the same branches in
the same order as the source.

## Model

| member | source | states |
|---|---|---|
| `PackedArrays.PackedArray.constructor` | src/lib.rs:20-34 | a new container is valid, has `size == 0` and no live index, and both tables are the identity |
| `PackedArrays.PackedArray.Len` | src/lib.rs:37-39 | the length is the number of live indices and never exceeds `N` |
| `PackedArrays.PackedArray.Has` | src/lib.rs:42-44 | `has(i)` holds iff `i` is a key of the contents, iff `i` is the index parked in some slot below `size` |
| `PackedArrays.PackedArray.Full` | src/lib.rs:48-50 | the container is full iff every external index in `[0, N)` is live |
| `PackedArrays.PackedArray.Get` | src/lib.rs:54-60 | for a live index, `get` (and `a[i]`) yields that index's element in the contents |
| `PackedArrays.PackedArray.Assign` | src/lib.rs:64-70 | writing through `get_mut(i)` / `a[i] = v` changes only `i`'s element; the tables and `size` stay, and only `i`'s slot of the buffer changes |
| `PackedArrays.PackedArray.Append` | src/lib.rs:75-84 | when not full: returns the index parked at the old `size`, which was dead and is now live with `value`; every other index keeps its element, `size` grows by one, and the tables do not change |
| `PackedArrays.PackedArray.Set` | src/lib.rs:88-94 | afterwards `index` holds `value` and every other index keeps its element; `size` is unchanged if `index` was live and grows by one otherwise; a dead index is swapped into slot `size` |
| `PackedArrays.PackedArray.Remove` | src/lib.rs:98-110 | a live index is removed and nothing else: contents lose exactly that key and `size` drops by one; it is no longer live and is parked in slot `size`, so the next `append` returns it; if it sat in the last live slot only `size` changes, else the last element moves into its slot and the two indices trade slots |
| `PackedArrays.PackedArray.FillHole` | src/lib.rs:102-109 | with `size` already decreased: the boundary element is copied into the removed index's slot, the tables are swapped as by `swap_with_back`, and the contents are the old ones minus that index, which is parked in slot `size` |
| `PackedArrays.PackedArray.SwapWithBack` | src/lib.rs:136-142 | needs `size < N`; `index` and the index parked in slot `size` trade slots in both tables, which stay inverse permutations, and `index` ends up in slot `size` |
| `PackedArrays.PackedArray.AsSlice` | src/lib.rs:113-129 | the slice (and what `iter` walks) has length `len()`; slot `s` holds the element of the live index parked in `s` |
| `PackedArrays.PackedArray.SliceIsLiveValues` | src/lib.rs:113-117 | as a multiset the slice is the values of the live indices: each value occurs as often as live indices hold it |
| `PackedArrays.PackedArray.MapInPlace` | src/lib.rs:120-134 | updating every element in place through `iter_mut` / `as_slice_mut` with `f` makes every live index hold `f` of its old element; cells past `size` and the tables do not change |
| `PackedArrays.AppendAll` | src/lib.rs:75-84 | starting from `new()` with no removals, the `k`-th append returns index `k` and each index holds the value appended under it |
| `IndexMaps.IdentityIsInverse` | src/lib.rs:29-30 | the identity tables are mutually inverse and make no index live while `size == 0` |
| `IndexMaps.SwapPreservesInverse` | src/lib.rs:136-142 | the two swaps of `swap_with_back` keep the tables mutually inverse permutations, parking `index` in the target slot and moving the displaced index to `index`'s old slot |
| `IndexMaps.LiveIffParked` | src/lib.rs:42-44 | `index_to_entry[i] < size` holds iff `i` is the index parked in some slot of `[0, size)` |
| `IndexMaps.FullIffAllLive` | src/lib.rs:48-50 | `size == N` iff every external index is live |
| `IndexMaps.LiveCount` | src/lib.rs:37-39 | exactly `size` external indices are live |
| `IndexMaps.SlotsHoldLiveValues` | src/lib.rs:113-117 | each slot of the prefix holds the element of the live index parked there |
| `IndexMaps.PrefixIsLiveValues` | src/lib.rs:113-117 | the prefix `[0, size)` holds each value exactly as often as live indices hold it |
| `IndexMaps.LiveAppend` | src/lib.rs:75-84 | the index parked in slot `size` is dead; writing slot `size` and growing `size` makes it live with the value and changes no other index |
| `IndexMaps.LiveAssign` | src/lib.rs:64-70 | writing the slot of a live index changes that index's element and no other |
| `IndexMaps.LiveRemoveLast` | src/lib.rs:98-102 | when the removed index sits in the last live slot, shrinking `size` drops it and nothing else |
| `IndexMaps.LiveRemoveInner` | src/lib.rs:102-109 | when the removed index sits in an inner slot, copying the last element into it and swapping leaves every other live index with its element and the removed one dead |
| `IndexMaps.LiveSetDead` | src/lib.rs:88-93 | a dead index implies a free slot; parking it in slot `size`, growing `size` and writing the value makes it live with that value and leaves every other index as it was |
| `IndexMaps.LiveMapValues` | src/lib.rs:131-134 | applying `f` to every prefix slot applies `f` to the element of every live index |

## Left out

- Raw allocation is not modelled: `Layout`, `alloc::alloc`, `handle_alloc_error`, `NonNull`, `PhantomData` and the pointer arithmetic of `get_ptr`. The buffer is a Dafny array of `N` cells. Allocation failure cannot happen in the model.
- The cells past `size` hold default values of `T` (hence `T(0)`), not uninitialised memory. No contract lets a caller read them as elements.
- Destructors are not modelled, because the source has no `Drop` impl. `ptr::copy_nonoverlapping` in `remove` is modelled as a plain cell write. The drop of the old, uninitialised cell done by `self[index] = value` in `set` on a dead index is not modelled either.
- References and aliasing are not modelled. `get_mut`, `as_slice_mut` and `iter_mut` hand out mutable references in the source. Here they are `Assign` (one write) and `MapInPlace` (one pass of writes), and nothing can hold a reference across a mutation.
- MapInPlace: takes a pure function of one element, while a Rust closure over `iter_mut` may also keep state between elements or depend on the slot order.
- The iterator objects returned by `iter` and `iter_mut` are not modelled, only the sequence they walk (`AsSlice`) and the effect of a full pass (`MapInPlace`).
- Panics become preconditions. The `assert!`s of `get`, `get_mut`, `append` and `remove` and the bounds check of `index >= N` are `requires` clauses, because a panic there is a caller error, not a result.
- `usize` arithmetic is modelled as `nat`. `size` only grows when `size < N` and only shrinks when `size > 0`, so no wrap-around can happen.
- `array_init` is modelled as a loop in the constructor that fills both tables with the identity.
- SliceIsLiveValues: the multiset equality is stated value by value, as occurrence counts (`multiset(slice)[v]` equals the number of live indices holding `v`). Dafny has no built-in multiset of a map's values.
