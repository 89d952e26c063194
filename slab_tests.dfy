/**
 * The scenarios of the repository's tests and documentation examples, as
 * client methods whose postconditions are the assertions those scenarios
 * make. The methods they call are seen through their contracts only; the
 * query functions (`Get`, `Len`, `Capacity`, ...) also through their bodies.
 */
module SlabTests {
  import opened Wrappers
  import opened Slots
  import opened Slabs

  /** Lengths after three insertions into a slab created with capacity 1. */
  method InsertGrows() returns (l1: nat, l2: nat, l3: nat)
    ensures l1 == 1 && l2 == 2 && l3 == 3
  {
    var slab := new Slab<int>.WithCapacity(1);
    var _ := slab.Insert(10);
    assert slab.len == 1;
    l1 := slab.Len();
    var _ := slab.Insert(20);
    assert slab.len == 2;
    l2 := slab.Len();
    var _ := slab.Insert(30);
    assert slab.len == 3;
    l3 := slab.Len();
  }

  /** Removing returns the object; removing a free index returns None. */
  method RemoveThenReuse() returns (f1: Option<int>, reused: usize, afterLen: nat, missing: Option<int>)
    ensures f1 == Some(10)
    ensures reused == 0
    ensures afterLen == 1
    ensures missing == None
  {
    var slab := new Slab<int>();
    var a1 := slab.Insert(10);
    var a2 := slab.Insert(20);
    f1 := slab.Remove(a1);
    reused := slab.Insert(30);
    var _ := slab.Remove(a2);
    afterLen := slab.Len();
    missing := slab.Remove(slab.Len());
  }

  /** Reads and writes by index, checked and unchecked. */
  method GetAndWrite() returns (v1: int, v2: int, v3: int, r2: Option<int>, v4: int, v5: int, v6: int,
                                r3: Option<int>, r1: Option<int>)
    ensures v1 == 10 && v2 == 20 && v3 == 200
    ensures r2 == Some(40)
    ensures v4 == 30 && v5 == 30 && v6 == 300
    ensures r3 == Some(300) && r1 == Some(10)
  {
    var slab := new Slab<int>();
    var a1 := slab.Insert(10);
    var a2 := slab.Insert(20);
    v1, v2 := slab.Index(a1), slab.Index(a2);
    var _ := slab.GetMut(a2, 200);
    v3 := slab.Index(a2);
    slab.IndexMut(a2, 40);
    r2 := slab.Remove(a2);
    var a3 := slab.Insert(30);
    v4 := slab.Index(a3);
    v5 := slab.GetUnchecked(a3);
    slab.GetUncheckedMut(a3, 300);
    v6 := slab.Index(a3);
    r3 := slab.Remove(a3);
    r1 := slab.Remove(a1);
  }

  /** `remove_unchecked` returns the objects and frees their slots. */
  method RemoveUncheckedScenario() returns (c1: int, c3: int, afterLen: nat)
    ensures c1 == 10 && c3 == 30 && afterLen == 1
  {
    var slab := new Slab<int>();
    var a1 := slab.Insert(10);
    var _ := slab.Insert(20);
    c1 := slab.RemoveUnchecked(a1);
    var a3 := slab.Insert(30);
    c3 := slab.RemoveUnchecked(a3);
    afterLen := slab.Len();
  }

  /**
   * Slots freed last are reused first: after removing `a` and then `b`, two
   * insertions receive `b` and then `a`.
   */
  method LifoReuse<T>(slab: Slab<T>, a: usize, b: usize, x: T, y: T) returns (first: usize, second: usize)
    requires slab.Valid() && a != b
    requires slab.Get(a).Some? && slab.Get(b).Some?
    modifies slab, slab.slots
    ensures slab.Valid()
    ensures first == b && second == a
    ensures slab.Get(b) == Some(x) && slab.Get(a) == Some(y)
    ensures slab.len == old(slab.len)
  {
    var _ := slab.Remove(a);
    var _ := slab.Remove(b);
    first := slab.Insert(x);
    second := slab.Insert(y);
  }

  /** An entry predicts the index its insertion uses. */
  method EntryScenario() returns (index: usize, lenBefore: nat, lenAfter: nat, stored: int)
    ensures lenBefore == 1 && lenAfter == 2 && stored == index
  {
    var slab := new Slab<int>.WithCapacity(2);
    var _ := slab.Insert(1);
    lenBefore := slab.Len();
    var entry := slab.FreeEntry();
    index := entry.Index();
    entry.Insert(index);
    assert slab.Get(index) == Some(index);
    lenAfter := slab.Len();
    stored := slab.Index(index);
  }

  /** An object that records its own slab index, through an entry. */
  method EntryKnowsIndex() returns (index: usize, recorded: usize)
    ensures recorded == index
  {
    var slab := new Slab<(usize, string)>.WithCapacity(1);
    var entry := slab.FreeEntry();
    index := entry.Index();
    entry.Insert((index, "My slab index"));
    recorded := slab.Index(index).0;
  }

  /** A write through `get_mut` is seen by indexing; a freed index has nothing to write to. */
  method GetMutExample() returns (v1: int, v2: int, v3: int, missing: Option<int>)
    ensures v1 == 1 && v2 == 2 && v3 == 3 && missing == None
  {
    var slab := new Slab<int>.WithCapacity(2);
    var one := slab.Insert(1);
    var two := slab.Insert(2);
    assert one == 0 && two == 1;
    v1, v2 := slab.Index(one), slab.Index(two);
    var _ := slab.GetMut(one, 3);
    assert slab.Get(one) == Some(3) && slab.Get(two) == Some(2);
    var _ := slab.Remove(two);
    assert slab.Get(one) == Some(3) && slab.Get(two) == None;
    v3 := slab.Index(one);
    missing := slab.GetMut(two, 0);
  }

  /** The example of the slab's own documentation: insert, remove, then insert through an entry. */
  method SlabExample() returns (len1: nat, two: int, len2: nat, len3: nat, index: usize, stored: int)
    ensures len1 == 2 && two == 2 && len2 == 1 && len3 == 2 && stored == index
  {
    var slab := new Slab<int>();
    var one := slab.Insert(1);
    var t := slab.Insert(2);
    assert one == 0 && t == 1 && slab.len == 2;
    len1 := slab.Len();
    two := slab.Index(t);
    var _ := slab.Remove(one);
    assert slab.len == 1 && slab.freeList == [one];
    len2 := slab.Len();
    var entry := slab.FreeEntry();
    index := entry.Index();
    assert index == one;
    entry.Insert(index);
    assert slab.len == 2;
    len3 := slab.Len();
    stored := slab.Index(index);
  }

  /** Up to `capacity` insertions never reallocate. */
  method InsertWithinCapacity() returns (capacity: nat, len: nat)
    ensures capacity == 10 && len == 10
  {
    var slab := new Slab<int>.WithCapacity(10);
    for i := 0 to 10
      invariant slab.Valid() && fresh(slab.slots)
      invariant slab.len == i && slab.size == i && slab.freeList == []
      invariant slab.slots.Length == 10
    {
      var _ := slab.Insert(i);
    }
    capacity, len := slab.Capacity(), slab.Len();
    var _ := slab.Insert(11);
  }

  /** `get` succeeds on occupied indices only, whatever the bound. */
  method GetExample() returns (g1: Option<int>, g3: Option<int>, atLen: Option<int>, g2: Option<int>, atCap: Option<int>)
    ensures g1 == Some(1) && g3 == Some(3) && atLen == None && g2 == None && atCap == None
  {
    var slab := new Slab<int>.WithCapacity(3);
    var one := slab.Insert(1);
    var two := slab.Insert(2);
    var three := slab.Insert(3);
    g1, g3, atLen := slab.Get(one), slab.Get(three), slab.Get(slab.Len());
    var _ := slab.Remove(two);
    g2 := slab.Get(two);
    atCap := slab.Get(slab.Capacity());
  }

  /** Clearing a non-empty slab, as the source does it, leaves it empty with its capacity. */
  method ClearExample() returns (empty: bool, capacity: nat)
    ensures empty && capacity == 3
  {
    var slab := new Slab<int>.WithCapacity(3);
    var _ := slab.Insert(1);
    var _ := slab.Insert(2);
    slab.ClearAsWritten();
    empty, capacity := slab.IsEmpty(), slab.Capacity();
  }

  /** The example of `reserve` holds of the source's formula. */
  method ReserveExample() returns (capacity: nat)
    ensures capacity >= 11
  {
    var slab := new Slab<int>.WithCapacity(1);
    var _ := slab.Insert(1);
    slab.ReserveAsWritten(10);
    capacity := slab.Capacity();
  }

  /** The example of `reserve_exact` holds of the source's formula. */
  method ReserveExactExample() returns (capacity: nat)
    ensures capacity >= 11
  {
    var slab := new Slab<int>.WithCapacity(1);
    var _ := slab.Insert(1);
    slab.ReserveExactAsWritten(10);
    capacity := slab.Capacity();
  }

  // ----- the two discrepancies -----

  /**
   * Insert, remove, clear: `clear` as written sees `len == 0` and keeps the
   * free head 0, though the Vec is now empty, so the next `insert` would
   * write through `get_unchecked_mut(0)` past the Vec's end. The corrected
   * `Clear` leaves a valid, empty slab instead.
   */
  method StaleHeadAfterClear() returns (head: usize, vecLen: nat, fixedHead: usize, fixedIndex: usize)
    ensures head == 0 && vecLen == 0
    ensures fixedHead == NULL && fixedIndex == 0
  {
    var slab := new Slab<int>();
    var i := slab.Insert(10);
    var _ := slab.Remove(i);
    slab.ClearAsWritten();
    head, vecLen := slab.free, slab.size;

    var fixed := new Slab<int>();
    var j := fixed.Insert(10);
    var _ := fixed.Remove(j);
    fixed.Clear();
    fixedHead := fixed.free;
    fixedIndex := fixed.Insert(20);
  }

  /**
   * With capacity 10 and two objects, `reserve(9)` as written asks the Vec
   * for one more element past its length, which it already has room for, so
   * the capacity stays 10 where 11 was promised. The corrected `Reserve`
   * keeps the promise.
   */
  method ReserveFallsShort() returns (capacity: nat, promised: nat, fixedCapacity: nat)
    ensures capacity == 10 && promised == 11
    ensures fixedCapacity >= promised
  {
    var slab := new Slab<int>.WithCapacity(10);
    var _ := slab.Insert(1);
    var _ := slab.Insert(2);
    slab.ReserveAsWritten(9);
    capacity, promised := slab.Capacity(), slab.Len() + 9;

    var fixed := new Slab<int>.WithCapacity(10);
    var _ := fixed.Insert(1);
    var _ := fixed.Insert(2);
    fixed.Reserve(9);
    fixedCapacity := fixed.Capacity();
  }
}
