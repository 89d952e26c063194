/**
 * The slot of a slab: either an occupied cell holding an object, or a free
 * cell holding the link to the next free cell. The two in-place transitions
 * between them are the primitives the slab's insert and remove are built from.
 */
module Slots {

  /** The platform word `usize` (64 bits). */
  const USIZE_MAX: int := 0xFFFF_FFFF_FFFF_FFFF
  type usize = x: int | 0 <= x <= USIZE_MAX

  /** `usize::MAX`, the link that ends the free list; never an occupiable index. */
  const NULL: usize := USIZE_MAX

  datatype Slot<T> = Used(value: T) | Free(next: usize)

  /**
   * `Slot::take`: the Used cell `a[i]` becomes `Free(next)` and the object it
   * held is returned. Calling it on a Free cell is undefined behaviour.
   */
  method Take<T>(a: array<Slot<T>>, i: nat, next: usize) returns (obj: T)
    requires i < a.Length && a[i].Used?
    modifies a
    ensures old(a[i]) == Used(obj)
    ensures a[i] == Free(next)
    ensures forall j :: 0 <= j < a.Length && j != i ==> a[j] == old(a[j])
  {
    obj := a[i].value;
    a[i] := Free(next);
  }

  /**
   * `Slot::put`: the Free cell `a[i]` becomes `Used(obj)` and the link it held
   * is returned. Calling it on a Used cell is undefined behaviour.
   */
  method Put<T>(a: array<Slot<T>>, i: nat, obj: T) returns (next: usize)
    requires i < a.Length && a[i].Free?
    modifies a
    ensures old(a[i]) == Free(next)
    ensures a[i] == Used(obj)
    ensures forall j :: 0 <= j < a.Length && j != i ==> a[j] == old(a[j])
  {
    next := a[i].next;
    a[i] := Used(obj);
  }
}
