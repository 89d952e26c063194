/**
 * The slab allocator: a growable buffer of slots addressed by stable indices,
 * with the Free slots threaded into a LIFO free list whose head is `free`.
 *
 * The Vec that holds the slots in the source is modelled by the array `slots`
 * (its length is the Vec's capacity) and the field `size` (the Vec's length).
 * Growing the Vec is replacing `slots` by a fresh, larger array holding the
 * same first `size` slots.
 */
module Slabs {
  import opened Wrappers
  import opened Slots
  import opened FreeLists

  class Slab<T> {
    var slots: array<Slot<T>>
    var size: usize
    var len: usize
    var free: usize
    /** The indices of the free list, from the head. */
    ghost var freeList: seq<nat>

    /** The slots of the Vec, i.e. the first `size` cells of the buffer. */
    ghost function Contents(): seq<Slot<T>>
      reads this`size, this`slots, slots
      requires size <= slots.Length
    {
      slots[..size]
    }

    /**
     * The representation invariant: `len` counts the Used slots, and the
     * chain from `free` visits every Free slot exactly once and ends at NULL.
     * The Vec never grows to NULL slots, so NULL is never an index.
     */
    ghost predicate Valid()
      reads this, slots
    {
      && size <= slots.Length
      && size < NULL
      && len == CountUsed(Contents())
      && FreeChain(Contents(), free, freeList)
    }

    /** `Slab::new` (and `Default`): empty, with no allocation. */
    constructor ()
      ensures Valid() && fresh(slots)
      ensures Contents() == [] && slots.Length == 0
      ensures len == 0 && free == NULL && freeList == []
    {
      slots := new Slot<T>[0];
      size, len, free := 0, 0, NULL;
      freeList := [];
    }

    /** `Slab::with_capacity`: empty, with room for `capacity` objects. */
    constructor WithCapacity(capacity: usize)
      ensures Valid() && fresh(slots)
      ensures Contents() == [] && slots.Length == capacity
      ensures len == 0 && free == NULL && freeList == []
    {
      slots := new Slot<T>[capacity];
      size, len, free := 0, 0, NULL;
      freeList := [];
    }

    // ----- pure queries -----

    /** `Slab::len`: the number of indices that hold an object. */
    function Len(): (n: usize)
      reads this, slots
      requires Valid()
      ensures n == |UsedIndices(Contents())|
    {
      IndicesCount(Contents());
      len
    }

    /**
     * `Slab::capacity`: the number of slots the buffer holds, which is never
     * below the Vec's length; `c - len` more objects fit without reallocating
     * (see `Insert`).
     */
    function Capacity(): (c: nat)
      reads this, slots
      requires Valid()
      ensures c == slots.Length
      ensures c >= size && c >= len
    {
      slots.Length
    }

    /** `Slab::is_empty`: no index holds an object. */
    function IsEmpty(): (b: bool)
      reads this, slots
      requires Valid()
      ensures b <==> forall i :: 0 <= i < size ==> slots[i].Free?
    {
      NoUsedIffZero(Contents());
      assert forall i :: 0 <= i < size ==> Contents()[i] == slots[i];
      len == 0
    }

    /** `Slab::has_free_slots`: some slot of the Vec is Free. */
    function HasFreeSlots(): (b: bool)
      reads this, slots
      requires Valid()
      ensures b <==> freeList != []
      ensures b <==> len < size
    {
      free != NULL
    }

    /**
     * `Slab::next_free`: the index the next insertion receives, the head of
     * the free list when there is one, else the end of the Vec; it is free.
     */
    function NextFree(): (r: usize)
      reads this, slots
      requires Valid()
      ensures r == if freeList != [] then freeList[0] else size
      ensures Get(r).None?
    {
      if HasFreeSlots() then free else len
    }

    /**
     * `Slab::get`: the object at `index`; None exactly when `index` is past
     * the Vec or its slot is on the free list.
     */
    function Get(index: usize): (r: Option<T>)
      reads this, slots
      requires Valid()
      ensures r.None? <==> index >= size || index in freeList
      ensures r.Some? ==> index < size && slots[index] == Used(r.value)
    {
      ChainMembers(Contents(), free, freeList, index);
      if index < size && slots[index].Used? then Some(slots[index].value) else None
    }

    /** `Slab::get_unchecked`: undefined behaviour unless `index` holds an object. */
    function GetUnchecked(index: usize): (r: T)
      reads this, slots
      requires Valid() && Get(index).Some?
      ensures Get(index) == Some(r)
    {
      slots[index].value
    }

    /** `Index::index`: panics unless `index` holds an object. */
    function Index(index: usize): (r: T)
      reads this, slots
      requires Valid() && Get(index).Some?
      ensures Get(index) == Some(r)
    {
      match Get(index)
      case Some(obj) => obj
    }

    // ----- the Vec primitives -----

    /** Replace the buffer by a fresh one of `capacity` cells holding the same Vec. */
    method Grow(capacity: nat)
      requires size <= slots.Length <= capacity
      modifies this`slots
      ensures fresh(slots) && slots.Length == capacity
      ensures slots[..size] == old(slots[..size])
    {
      var a := new Slot<T>[capacity];
      forall i | 0 <= i < size {
        a[i] := slots[i];
      }
      slots := a;
    }

    /** `Vec::push`: reallocates only when the Vec is full. */
    method Push(x: Slot<T>)
      requires size <= slots.Length && size + 1 < NULL
      modifies this`slots, this`size, slots
      ensures size == old(size) + 1 && size <= slots.Length
      ensures slots[..size] == old(slots[..size]) + [x]
      ensures slots.Length >= old(slots.Length)
      ensures old(size) < old(slots.Length) ==> slots == old(slots)
      ensures slots == old(slots) || fresh(slots)
    {
      if size == slots.Length {
        Grow(if size == 0 then 4 else 2 * size);
      }
      slots[size] := x;
      size := size + 1;
    }

    /** `Vec::reserve`: room for `additional` more elements past the Vec's length. */
    method VecReserve(additional: nat)
      requires size <= slots.Length
      modifies this`slots
      ensures slots.Length >= size + additional && slots.Length >= old(slots.Length)
      ensures slots[..size] == old(slots[..size])
      ensures old(slots.Length) >= size + additional ==> slots == old(slots)
      ensures slots == old(slots) || fresh(slots)
    {
      if slots.Length < size + additional {
        var doubled := 2 * slots.Length;
        Grow(if doubled < size + additional then size + additional else doubled);
      }
    }

    /** `Vec::reserve_exact`: the same promise, requesting no more than asked. */
    method VecReserveExact(additional: nat)
      requires size <= slots.Length
      modifies this`slots
      ensures slots.Length >= size + additional && slots.Length >= old(slots.Length)
      ensures slots[..size] == old(slots[..size])
      ensures old(slots.Length) >= size + additional ==> slots == old(slots)
      ensures slots == old(slots) || fresh(slots)
    {
      if slots.Length < size + additional {
        Grow(size + additional);
      }
    }

    // ----- the allocator -----

    /**
     * `Slab::insert`: reuse the head of the free list, or push a new slot.
     * The object is at the returned index and no other slot changes.
     */
    method Insert(obj: T) returns (index: usize)
      requires Valid()
      requires len + 1 < NULL
      modifies this, slots
      ensures Valid()
      ensures index == old(NextFree())
      ensures Get(index) == Some(obj)
      ensures len == old(len) + 1
      ensures old(freeList) != [] ==>
                && Contents() == old(Contents())[index := Used(obj)]
                && free == old(Contents())[index].next
                && freeList == old(freeList)[1..]
                && slots == old(slots)
      ensures old(freeList) == [] ==>
                && Contents() == old(Contents()) + [Used(obj)]
                && free == NULL && freeList == []
      ensures slots.Length >= old(slots.Length)
      ensures old(len) < old(slots.Length) ==> slots == old(slots)
      ensures slots == old(slots) || fresh(slots)
      ensures forall j: usize :: j != index ==> Get(j) == old(Get(j))
    {
      if HasFreeSlots() {
        index := InsertAtHead(obj);
      } else {
        index := InsertAtEnd(obj);
      }
    }

    /** The first branch of `Slab::insert`: `put` the object into the head of the free list. */
    method InsertAtHead(obj: T) returns (index: usize)
      requires Valid() && freeList != []
      modifies this, slots
      ensures Valid()
      ensures index == old(freeList[0]) && Get(index) == Some(obj)
      ensures len == old(len) + 1
      ensures Contents() == old(Contents())[index := Used(obj)]
      ensures free == old(Contents())[index].next
      ensures freeList == old(freeList)[1..]
      ensures slots == old(slots)
      ensures forall j: usize :: j != index ==> Get(j) == old(Get(j))
    {
      ghost var s := Contents();
      index := free;
      PutHead(s, free, freeList, obj);
      free := Put(slots, index, obj);
      freeList := freeList[1..];
      len := len + 1;
      assert Contents() == s[index := Used(obj)];
      assert Valid();
      assert slots[index] == Used(obj);
    }

    /** The second branch of `Slab::insert`: push a Used slot onto the Vec. */
    method InsertAtEnd(obj: T) returns (index: usize)
      requires Valid() && freeList == [] && len + 1 < NULL
      modifies this, slots
      ensures Valid()
      ensures index == old(size) && Get(index) == Some(obj)
      ensures len == old(len) + 1
      ensures Contents() == old(Contents()) + [Used(obj)]
      ensures free == NULL && freeList == []
      ensures slots.Length >= old(slots.Length)
      ensures old(size) < old(slots.Length) ==> slots == old(slots)
      ensures slots == old(slots) || fresh(slots)
      ensures forall j: usize :: j != index ==> Get(j) == old(Get(j))
    {
      ghost var s := Contents();
      index := len;
      PushUsed(s, obj);
      Push(Used(obj));
      len := len + 1;
      assert Contents() == s + [Used(obj)];
      assert Valid();
      assert slots[index] == Used(obj);
      assert forall j :: 0 <= j < |s| ==> slots[j] == s[j];
    }

    /**
     * `Slab::remove`: take the object out of a Used slot, which becomes the
     * head of the free list. None, and nothing changes, when `index` is past
     * the Vec or already Free.
     */
    method Remove(index: usize) returns (r: Option<T>)
      requires Valid()
      modifies this, slots
      ensures Valid()
      ensures r == old(Get(index))
      ensures Get(index).None?
      ensures slots == old(slots)
      ensures r.None? ==>
                Contents() == old(Contents()) && len == old(len) &&
                free == old(free) && freeList == old(freeList)
      ensures r.Some? ==>
                && Contents() == old(Contents())[index := Free(old(free))]
                && len == old(len) - 1
                && free == index && freeList == [index] + old(freeList)
      ensures forall j: usize :: j != index ==> Get(j) == old(Get(j))
    {
      if index < size && slots[index].Used? {
        ghost var s := Contents();
        TakeSlot(s, free, freeList, index);
        var obj := Take(slots, index, free);
        assert Contents() == s[index := Free(old(free))];
        freeList := [index] + freeList;
        free := index;
        len := len - 1;
        r := Some(obj);
      } else {
        r := None;
      }
    }

    /**
     * `Slab::remove_unchecked`: the effect of `Remove` on a Used slot;
     * undefined behaviour unless `index` holds an object.
     */
    method RemoveUnchecked(index: usize) returns (obj: T)
      requires Valid() && Get(index).Some?
      modifies this, slots
      ensures Valid()
      ensures old(Get(index)) == Some(obj)
      ensures Get(index).None?
      ensures slots == old(slots)
      ensures Contents() == old(Contents())[index := Free(old(free))]
      ensures len == old(len) - 1
      ensures free == index && freeList == [index] + old(freeList)
      ensures forall j: usize :: j != index ==> Get(j) == old(Get(j))
    {
      TakeSlot(Contents(), free, freeList, index);
      obj := Take(slots, index, free);
      assert Contents() == old(Contents())[index := Free(old(free))];
      freeList := [index] + freeList;
      free := index;
      len := len - 1;
    }

    /**
     * `Slab::get_mut` followed by a write through the reference it returns:
     * `previous` is what `get_mut` found; when it found an object, that
     * object is replaced by `value` and nothing else changes.
     */
    method GetMut(index: usize, value: T) returns (previous: Option<T>)
      requires Valid()
      modifies slots
      ensures Valid()
      ensures previous == old(Get(index))
      ensures previous.Some? ==> Contents() == old(Contents())[index := Used(value)]
      ensures previous.None? ==> Contents() == old(Contents())
      ensures previous.Some? ==> Get(index) == Some(value)
      ensures forall j: usize :: j != index ==> Get(j) == old(Get(j))
    {
      if index < size && slots[index].Used? {
        previous := Some(slots[index].value);
        WriteUsed(Contents(), free, freeList, index, value);
        slots[index] := Used(value);
        assert Contents() == old(Contents())[index := Used(value)];
      } else {
        previous := None;
      }
    }

    /** `IndexMut::index_mut` and a write through it; panics unless `index` holds an object. */
    method IndexMut(index: usize, value: T)
      requires Valid() && Get(index).Some?
      modifies slots
      ensures Valid()
      ensures Contents() == old(Contents())[index := Used(value)]
      ensures Get(index) == Some(value)
      ensures forall j: usize :: j != index ==> Get(j) == old(Get(j))
    {
      var found := GetMut(index, value);
    }

    /** `Slab::get_unchecked_mut` and a write through it; undefined behaviour unless `index` holds an object. */
    method GetUncheckedMut(index: usize, value: T)
      requires Valid() && Get(index).Some?
      modifies slots
      ensures Valid()
      ensures Contents() == old(Contents())[index := Used(value)]
      ensures Get(index) == Some(value)
      ensures forall j: usize :: j != index ==> Get(j) == old(Get(j))
    {
      WriteUsed(Contents(), free, freeList, index, value);
      slots[index] := Used(value);
      assert Contents() == old(Contents())[index := Used(value)];
    }

    /**
     * `Slab::clear`, corrected: every object is dropped and the free list is
     * emptied; the capacity is kept.
     */
    method Clear()
      requires Valid()
      modifies this
      ensures Valid()
      ensures Contents() == [] && len == 0
      ensures free == NULL && freeList == []
      ensures slots == old(slots)
      ensures forall i: usize :: Get(i).None?
    {
      if len > 0 {
        size := 0;
        len := 0;
        free := NULL;
      } else {
        size := 0;
        free := NULL;
      }
      freeList := [];
    }

    /**
     * `Slab::clear` as the source has it: when `len == 0` it only truncates
     * the Vec and keeps `free`, which then points past the empty Vec unless
     * the free list was already empty.
     */
    method ClearAsWritten()
      requires Valid()
      modifies this
      ensures size == 0 && len == 0 && slots == old(slots)
      ensures Contents() == []
      ensures free == if old(len) > 0 then NULL else old(free)
      ensures Valid() <==> free == NULL
      ensures old(len) == 0 && old(freeList) != [] ==> free != NULL && free >= size
    {
      if len > 0 {
        size := 0;
        len := 0;
        free := NULL;
      } else {
        size := 0;
      }
      freeList := [];
    }

    /**
     * `Slab::reserve` as the source has it: the slack is `capacity - len`,
     * and the shortfall is requested from `Vec::reserve`, which counts from
     * the Vec's length, not from `len`.
     */
    method ReserveAsWritten(additional: usize)
      requires Valid()
      modifies this`slots
      ensures Valid() && Contents() == old(Contents())
      ensures slots.Length >= old(slots.Length)
      ensures additional <= old(slots.Length) - len ==> slots == old(slots)
      ensures var request := if additional > old(slots.Length) - len
                             then additional - (old(slots.Length) - len) else 0;
              && slots.Length >= size + request
              && (old(slots.Length) >= size + request ==> slots == old(slots))
      ensures slots == old(slots) || fresh(slots)
    {
      var n := slots.Length - len;
      if additional > n {
        VecReserve(additional - n);
      }
    }

    /** `Slab::reserve_exact` as the source has it; see `ReserveAsWritten`. */
    method ReserveExactAsWritten(additional: usize)
      requires Valid()
      modifies this`slots
      ensures Valid() && Contents() == old(Contents())
      ensures slots.Length >= old(slots.Length)
      ensures additional <= old(slots.Length) - len ==> slots == old(slots)
      ensures var request := if additional > old(slots.Length) - len
                             then additional - (old(slots.Length) - len) else 0;
              && slots.Length >= size + request
              && (old(slots.Length) >= size + request ==> slots == old(slots))
      ensures slots == old(slots) || fresh(slots)
    {
      var n := slots.Length - len;
      if additional > n {
        VecReserveExact(additional - n);
      }
    }

    /**
     * `Slab::reserve`, corrected: afterwards at least `additional` more
     * objects fit without reallocating, i.e. `capacity >= len + additional`.
     * The shortfall is requested past the Vec's length.
     */
    method Reserve(additional: usize)
      requires Valid()
      modifies this`slots
      ensures Valid() && Contents() == old(Contents())
      ensures slots.Length >= old(slots.Length)
      ensures slots.Length >= len + additional
      ensures additional <= old(slots.Length) - len ==> slots == old(slots)
      ensures slots == old(slots) || fresh(slots)
    {
      var n := slots.Length - len;
      if additional > n {
        VecReserve(additional - (size - len));
      }
    }

    /** `Slab::reserve_exact`, corrected as `Reserve` is. */
    method ReserveExact(additional: usize)
      requires Valid()
      modifies this`slots
      ensures Valid() && Contents() == old(Contents())
      ensures slots.Length >= old(slots.Length)
      ensures slots.Length >= len + additional
      ensures additional <= old(slots.Length) - len ==> slots == old(slots)
      ensures slots == old(slots) || fresh(slots)
    {
      var n := slots.Length - len;
      if additional > n {
        VecReserveExact(additional - (size - len));
      }
    }

    /** `Slab::free_entry`: a handle on this slab; nothing changes. */
    method FreeEntry() returns (e: Entry<T>)
      ensures fresh(e) && e.slab == this
    {
      e := new Entry(this);
    }
  }

  /** A handle on the slot the next insertion into `slab` will use. */
  class Entry<T> {
    const slab: Slab<T>

    constructor (slab: Slab<T>)
      ensures this.slab == slab
    {
      this.slab := slab;
    }

    /** `Entry::index`: the index `Insert` will use, a currently free one. */
    function Index(): (r: usize)
      reads slab, slab.slots
      requires slab.Valid()
      ensures r == if slab.freeList != [] then slab.freeList[0] else slab.size
      ensures slab.Get(r).None?
    {
      slab.NextFree()
    }

    /** `Entry::insert`: insert `obj`, which lands at the index `Index` predicted. */
    method Insert(obj: T)
      requires slab.Valid() && slab.len + 1 < NULL
      modifies slab, slab.slots
      ensures slab.Valid()
      ensures slab.Get(old(Index())) == Some(obj)
      ensures slab.len == old(slab.len) + 1
      ensures old(slab.freeList) != [] ==>
                && slab.Contents() == old(slab.Contents())[old(Index()) := Used(obj)]
                && slab.free == old(slab.Contents())[old(Index())].next
                && slab.freeList == old(slab.freeList)[1..]
                && slab.slots == old(slab.slots)
      ensures old(slab.freeList) == [] ==>
                && slab.Contents() == old(slab.Contents()) + [Used(obj)]
                && slab.free == NULL && slab.freeList == []
      ensures forall j: usize :: j != old(Index()) ==> slab.Get(j) == old(slab.Get(j))
      ensures slab.slots.Length >= old(slab.slots.Length)
      ensures old(slab.len) < old(slab.slots.Length) ==> slab.slots == old(slab.slots)
      ensures slab.slots == old(slab.slots) || fresh(slab.slots)
    {
      var _ := slab.Insert(obj);
    }
  }
}
