# A verified model of the ruyi slab allocator

`ruyi_slab::Slab<T>` is a pre-allocated store of objects addressed by stable
`usize` indices. It keeps a Vec of slots. Each slot is either `Used(obj)` or
`Free(next)`, and the Free slots form an intrusive LIFO free list that starts
at the field `free` and ends at the sentinel `NULL = usize::MAX`. The field
`len` counts the objects.

- `insert` reuses the head of the free list, or pushes a new slot when the
  list is empty.
- `remove` turns a Used slot into the new head of the list.
- `get`, `get_mut`, indexing and the unchecked accessors read or overwrite
  one Used slot.
- `clear`, `reserve` and `reserve_exact` manage the Vec.
- `Entry` tells a caller which index the next insertion will use, then
  inserts there.

The model has five files.

- `wrappers.dfy`: the `Option` type the checked operations return.
- `slots.dfy`:
  - `usize`, as the integers `0 ..= 2^64 - 1`, and `NULL`;
  - the `Slot` datatype;
  - `Take` and `Put`, which overwrite one cell of a slot buffer in place.
- `free_list.dfy`: the free list, stated over the sequence of slots.
  - `CountUsed` counts the Used slots.
  - `Linked` and `Distinct` say that a list of indices is the chain of
    `next` links from a head to `NULL`, with no repetition.
  - `FreeChain` is the free-list invariant.
  - `Follow` is a reference definition of the chain.
  - The lemmas show that the chain is unique, that it holds exactly the
    Free slots, and how each slab operation transforms it.
- `slab.dfy`: the class `Slab`.
  - `slots` is an array, and its length is the Vec's capacity.
  - `size` is the Vec's length.
  - `len` and `free` are the source's fields.
  - The ghost field `freeList` holds the indices of the free list.
  - `Valid()` is the representation invariant. Every operation of the slab
    that changes it preserves it and states its whole effect on the state,
    with two kinds of exception:
    - `ClearAsWritten` models the source's `clear`, which breaks the
      invariant in one case; its contract says exactly when the result is
      valid;
    - the Vec primitives `Grow`, `Push`, `VecReserve` and `VecReserveExact`
      work below the invariant and state only what they do to the buffer.
  - The queries are functions with contracts.
  - Growing the Vec replaces `slots` by a fresh, larger array holding the
    same slots.
  - The class `Entry` holds a reference to its slab.
- `slab_tests.dfy`: the scenarios of `tests/slab.rs` and of the
  documentation examples, as client methods. Their postconditions are the
  scenarios' assertions. The proofs see the methods of `Slab` and `Entry`
  through their contracts only, and the query functions (`Get`, `Len`,
  `Capacity`, ...) also through their bodies. This file also holds the
  concrete inputs of the two findings below.

Undefined behaviour and panics become preconditions:
- the `unsafe` accessors require that `index` holds an object;
- indexing requires what its panic guards, the same thing.

## Model

| member | source | states |
|---|---|---|
| Slots.Take | src/lib.rs:93-96 | a Used cell becomes `Free(next)` and its object is returned; no other cell changes |
| Slots.Put | src/lib.rs:98-101 | a Free cell becomes `Used(obj)` and its old `next` link is returned; no other cell changes |
| FreeLists.CountUsed | src/lib.rs:155-159 | the number of Used slots (what `len` stands for) is at most the number of slots |
| FreeLists.IndicesCount | src/lib.rs:155-159 | the count equals the number of Used indices, and the number of slots minus it equals the number of Free indices |
| FreeLists.NoUsedIffZero | src/lib.rs:271-273 | the count is zero exactly when every slot is Free |
| FreeLists.ChainMembers | src/lib.rs:155-159 | an index is on a valid free list exactly when it is a Free slot of the Vec |
| FreeLists.LinkedIsFollow | src/lib.rs:155-159 | a valid chain is what following the `next` links from its head gives, for as many steps as the chain is long or more |
| FreeLists.ChainUnique | src/lib.rs:155-159 | a head determines its free list: two valid chains from one head are equal |
| FreeLists.PutHead | src/lib.rs:382-384 | filling the head of a non-empty free list leaves a valid list starting at the head's `next`, one Used slot more |
| FreeLists.PushUsed | src/lib.rs:385-388 | pushing a Used slot when the free list is empty keeps it empty and valid, one Used slot more |
| FreeLists.TakeSlot | src/lib.rs:429-433 | freeing a Used slot with a link to the old head makes it the head of a valid list one longer, one Used slot fewer |
| FreeLists.WriteUsed | src/lib.rs:492-499 | overwriting the object of a Used slot changes neither the free list nor the count |
| FreeLists.CountUsedUpdate | src/lib.rs:380-391 | how the count changes when one slot is overwritten |
| Slabs.Slab.constructor | src/lib.rs:176-182 | `new`: a valid, empty slab with no allocation and an empty free list |
| Slabs.Slab.WithCapacity | src/lib.rs:214-220 | a valid, empty slab whose capacity is `capacity` |
| Slabs.Slab.Len | src/lib.rs:236-238 | `len` is the number of indices that hold an object |
| Slabs.Slab.Capacity | src/lib.rs:252-254 | the capacity is the number of cells of the buffer, never below the Vec's length nor below `len` |
| Slabs.Slab.IsEmpty | src/lib.rs:271-273 | true exactly when no slot of the Vec holds an object |
| Slabs.Slab.HasFreeSlots | src/lib.rs:593-595 | true exactly when the free list is non-empty, and exactly when `len` is below the Vec's length |
| Slabs.Slab.NextFree | src/lib.rs:598-604 | the head of the free list when there is one, else the end of the Vec; in both cases an index with no object |
| Slabs.Slab.Get | src/lib.rs:462-469 | None exactly when the index is past the Vec or on the free list; otherwise the object in that slot |
| Slabs.Slab.GetUnchecked | src/lib.rs:555-557 | on an index that holds an object, that object |
| Slabs.Slab.Index | src/lib.rs:621-630 | on an index that holds an object, that object; other indices are excluded, where the source panics |
| Slabs.Slab.Grow | src/lib.rs:328 | the reallocation behind `Vec::push` and `Vec::reserve`: a fresh buffer of the requested capacity holding the same Vec |
| Slabs.Slab.Push | src/lib.rs:387 | `Vec::push`: appends one slot and keeps the others; reallocates only when the Vec is full |
| Slabs.Slab.VecReserve | src/lib.rs:328 | `Vec::reserve`: capacity at least the Vec's length plus `additional`, never smaller, and the Vec unchanged |
| Slabs.Slab.VecReserveExact | src/lib.rs:359 | `Vec::reserve_exact`: the same promise |
| Slabs.Slab.Insert | src/lib.rs:380-391 | returns the old `next_free`; afterwards the object is at that index, `len` is one more, every other index reads as before, and the invariant holds; the new slots, `free` and free list are given for both branches; no reallocation while `len` is below the capacity |
| Slabs.Slab.InsertAtHead | src/lib.rs:382-384 | with a free slot: the head slot becomes Used, the head moves to its old `next`, no reallocation |
| Slabs.Slab.InsertAtEnd | src/lib.rs:385-388 | with no free slot: a Used slot is pushed at index `len`, and the free list stays empty |
| Slabs.Slab.Remove | src/lib.rs:428-438 | returns what `get` returned. On an index with no object nothing changes. Otherwise the slot becomes `Free(old free)` and the new head, `len` drops by one, and every other index reads as before |
| Slabs.Slab.RemoveUnchecked | src/lib.rs:523-528 | on an index that holds an object: the same effect as `Remove` |
| Slabs.Slab.GetMut | src/lib.rs:492-499 | `get_mut` plus a write through it: finds what `get` finds; on an object it replaces that slot's object and nothing else; `len` and `free` are untouched |
| Slabs.Slab.IndexMut | src/lib.rs:633-640 | a write through `index_mut` on an index that holds an object replaces that object only |
| Slabs.Slab.GetUncheckedMut | src/lib.rs:588-590 | a write through `get_unchecked_mut` replaces that object only |
| Slabs.Slab.Clear | src/lib.rs:292-302 | corrected `clear`: a valid, empty slab with an empty free list and the same buffer; every index reads None |
| Slabs.Slab.ClearAsWritten | src/lib.rs:292-302 | `clear` as written: the Vec is emptied and `len` is 0, but `free` is reset only when `len > 0`. The result is valid exactly when `free` is NULL, and a non-empty free list leaves the head pointing past the empty Vec |
| Slabs.Slab.ReserveAsWritten | src/lib.rs:325-330 | `reserve` as written: contents unchanged; capacity never shrinks and only grows when `additional` exceeds `capacity - len`; the Vec receives the request `additional - (capacity - len)` |
| Slabs.Slab.ReserveExactAsWritten | src/lib.rs:356-361 | `reserve_exact` as written, with the same promise |
| Slabs.Slab.Reserve | src/lib.rs:304-330 | corrected `reserve`: contents unchanged, capacity at least `len + additional`, and nothing happens when the slack already suffices |
| Slabs.Slab.ReserveExact | src/lib.rs:331-361 | corrected `reserve_exact`, with the same promise |
| Slabs.Slab.FreeEntry | src/lib.rs:408-410 | a new entry on this slab |
| Slabs.Entry.constructor | src/lib.rs:650-653 | `Entry::new`: a handle on the given slab |
| Slabs.Entry.Index | src/lib.rs:671-673 | the index the next insertion receives: the free-list head, or the end of the Vec; it holds no object |
| Slabs.Entry.Insert | src/lib.rs:691-693 | the effect of `Slab::insert`: the object lands at the index `Index` predicted, `len` is one more, every other index reads as before, and the new slots, `free` and free list are those of the branch taken |
| SlabTests.InsertGrows | tests/slab.rs:4-14 | lengths 1, 2 and 3 after three insertions into a slab of capacity 1 |
| SlabTests.RemoveThenReuse | tests/slab.rs:17-33 | `remove` returns the object, the freed index is reused, and removing at `len` gives None |
| SlabTests.GetAndWrite | tests/slab.rs:36-60 | indexing, `get_mut`, `index_mut` and the unchecked accessors see each other's writes |
| SlabTests.RemoveUncheckedScenario | tests/slab.rs:63-77 | `remove_unchecked` returns the objects, and one object is left |
| SlabTests.LifoReuse | src/lib.rs:428-434 | after removing `a` and then `b`, two insertions receive `b` and then `a` |
| SlabTests.SlabExample | src/lib.rs:113-134 | the slab's own documentation example |
| SlabTests.InsertWithinCapacity | src/lib.rs:196-213 | ten insertions into `with_capacity(10)` keep the capacity at 10 |
| SlabTests.GetExample | src/lib.rs:444-461 | `get` succeeds on occupied indices only, including at `len` and at the capacity |
| SlabTests.GetMutExample | src/lib.rs:474-491 | a write through `get_mut` is seen by indexing; a freed index has nothing to write to |
| SlabTests.ClearExample | src/lib.rs:280-291 | after `clear` as written, on a slab holding objects, the slab is valid and empty and keeps its capacity |
| SlabTests.ReserveExample | src/lib.rs:315-323 | the documentation example of `reserve`: capacity at least 11 |
| SlabTests.ReserveExactExample | src/lib.rs:346-354 | the documentation example of `reserve_exact`: capacity at least 11 |
| SlabTests.EntryScenario | src/lib.rs:656-669 | an entry predicts the index its insertion uses |
| SlabTests.EntryKnowsIndex | src/lib.rs:397-407 | an object can record its own index through an entry |
| SlabTests.StaleHeadAfterClear | src/lib.rs:292-302 | insert, remove, `clear` as written: head 0 on an empty Vec; the corrected `Clear` gives head NULL and reuses index 0 |
| SlabTests.ReserveFallsShort | src/lib.rs:304-330 | capacity 10 and two objects: the `reserve(9)` as written leaves capacity 10, where 11 is promised; the corrected `Reserve` reaches 11 |

## Left out

- `Debug` formatting of `Slot` and `Slab` (src/lib.rs:104-111, 154) is output formatting. This includes the unbalanced parenthesis in the `Used` case.
- `unsafe impl Send` (src/lib.rs:161) concerns moving a slab between threads, and nothing here is concurrent.
- `Drop` (src/lib.rs:614-619) and the destruction of values are ownership semantics with no model in Dafny. `Drop` only calls `clear`, and `clear` is modelled.
- The debug and release variants of `unreachable` (src/lib.rs:44-53) and the `no_std` configuration are not modelled. The cases that reach `unreachable` are excluded by the preconditions.
- The `Slot` getters `get_unchecked`, `get_unchecked_mut`, `get_free_unchecked` and `unwrap_unchecked` (src/lib.rs:62-91) are the destructors `value` and `next` of the `Slot` datatype. Dafny only admits these on the matching variant.
- `Default` (src/lib.rs:607-612) is `new`, modelled by `Slabs.Slab.constructor`.
- References: `get` reads the object. `get_mut`, `index_mut` and `get_unchecked_mut` are modelled by one write through the reference they return, since a borrow that outlives the call has no counterpart here.
- Lifetimes of `Entry` are not modelled. `Entry::insert` consumes the entry in the source, while the model's `Entry.Insert` could be called again; each call promises what one insertion does.
- `Slabs.Slab.FreeEntry` does not declare that it may change the slab, though the source's `&mut self` borrow would allow that; it changes nothing.
- `Slabs.Slab.Push`: Vec's growth policy is not part of its contract. The body grows to 4 slots, then doubles, but the contract only guarantees room and no reallocation while there is room.
- `Slabs.Slab.VecReserve` and `Slabs.Slab.VecReserveExact`: the contracts give only Vec's promise, not an exact capacity. The panic on capacity overflow inside `Vec::reserve` is not modelled.
- `Slabs.Slab.WithCapacity`: gives a capacity of exactly `capacity`, as the documentation example at src/lib.rs:247-249 asserts, though Vec only promises at least that much.
- `Slabs.Slab.Insert`: requires `len + 1 < NULL`. The source has no such guard, because a Vec that large cannot be allocated; the model leaves out that allocation failure.
- `Slabs.Slab.Capacity`: returns an unbounded `nat`, not a `usize`. The buffer's length is not bounded by `usize::MAX` in the model, which leaves out the capacity-overflow panic of Vec.
- The code and its description disagree about `clear` when no object is stored. The code keeps a stale `free`. `Slabs.Slab.ClearAsWritten` follows the code and is the one `SlabTests.ClearExample` calls; `Slabs.Slab.Clear` is the corrected version, used by the second half of `SlabTests.StaleHeadAfterClear`.

## Findings

| source | as written | input that shows it | evidently intended | confidence | as-written member | corrected member |
|---|---|---|---|---|---|---|
| src/lib.rs:292-302 | when `len == 0`, `clear` truncates the Vec with `set_len(0)` but keeps `free` | `new`, `insert(10)`, `remove(0)`, `clear()`: `free` is 0 while the Vec is empty, so the next `insert` writes through `get_unchecked_mut(0)` past the Vec's end, and `get` of the returned index gives None | `clear` also resets `free` to `NULL`, leaving a valid empty slab | high (not executed) | Slabs.Slab.ClearAsWritten, SlabTests.StaleHeadAfterClear | Slabs.Slab.Clear |
| src/lib.rs:325-330, 356-361 | the slack is `capacity - len`, and the shortfall is passed to `Vec::reserve`/`reserve_exact`, which count from the Vec's length, not from the capacity | `with_capacity(10)`, `insert(1)`, `insert(2)`, `reserve(9)`: the request is `reserve(1)` on a Vec of length 2 and capacity 10, so the capacity stays 10 below the promised `len + additional = 11` | the documented `capacity >= len + additional`: request `additional - (vec_len - len)` from the Vec | high (not executed) | Slabs.Slab.ReserveAsWritten, Slabs.Slab.ReserveExactAsWritten, SlabTests.ReserveFallsShort | Slabs.Slab.Reserve, Slabs.Slab.ReserveExact |
