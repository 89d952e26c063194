/**
 * The free list of a slab, stated over the sequence of its slots: which slots
 * are Used, and what it means for a list of indices to be the chain of Free
 * slots threaded through their `next` links from a head index to `NULL`.
 */
module FreeLists {
  import opened Slots

  /** The number of Used slots. */
  function CountUsed<T>(s: seq<Slot<T>>): (n: nat)
    ensures n <= |s|
  {
    if s == [] then 0
    else CountUsed(s[..|s| - 1]) + (if s[|s| - 1].Used? then 1 else 0)
  }

  ghost function UsedIndices<T>(s: seq<Slot<T>>): set<nat> {
    set i: nat | i < |s| && s[i].Used?
  }

  ghost function FreeIndices<T>(s: seq<Slot<T>>): set<nat> {
    set i: nat | i < |s| && s[i].Free?
  }

  ghost function Elements(c: seq<nat>): set<nat> {
    set x | x in c
  }

  /**
   * Starting from `head` and following the `next` links of Free slots visits
   * exactly the indices of `chain`, in order, and the last link is NULL.
   */
  ghost predicate Linked<T>(s: seq<Slot<T>>, head: int, chain: seq<nat>)
    decreases |chain|
  {
    if chain == [] then head == NULL
    else
      && head == chain[0] && chain[0] < |s| && s[chain[0]].Free?
      && Linked(s, s[chain[0]].next, chain[1..])
  }

  /** No index occurs twice. */
  ghost predicate Distinct(c: seq<nat>)
    decreases |c|
  {
    c == [] || (c[0] !in c[1..] && Distinct(c[1..]))
  }

  /**
   * The free-list invariant: the chain from `head` visits only Free slots,
   * each at most once (so it has no cycle), ends at NULL, and is as long as
   * there are Free slots.
   */
  ghost predicate FreeChain<T>(s: seq<Slot<T>>, head: int, chain: seq<nat>) {
    Linked(s, head, chain) && Distinct(chain) && |chain| == |s| - CountUsed(s)
  }

  /**
   * Reference definition of the chain: the indices reached by following the
   * links from `head`, for at most `steps` Free slots.
   */
  function Follow<T>(s: seq<Slot<T>>, head: int, steps: nat): seq<nat>
    decreases steps
  {
    if steps == 0 || head < 0 || head >= |s| || !s[head].Free? then []
    else [head] + Follow(s, s[head].next, steps - 1)
  }

  // ----- counting -----

  /** How the Used and Free indices change when one slot is appended. */
  lemma IndicesSnoc<T>(p: seq<Slot<T>>, x: Slot<T>)
    ensures UsedIndices(p + [x]) == UsedIndices(p) + (if x.Used? then {|p|} else {})
    ensures FreeIndices(p + [x]) == FreeIndices(p) + (if x.Free? then {|p|} else {})
  {
    var s := p + [x];
    forall i: nat ensures i in UsedIndices(s) <==> i in UsedIndices(p) || (i == |p| && x.Used?) {
      if i < |p| { assert s[i] == p[i]; }
    }
    forall i: nat ensures i in FreeIndices(s) <==> i in FreeIndices(p) || (i == |p| && x.Free?) {
      if i < |p| { assert s[i] == p[i]; }
    }
  }

  lemma {:induction false} IndicesCount<T>(s: seq<Slot<T>>)
    ensures |UsedIndices(s)| == CountUsed(s)
    ensures |FreeIndices(s)| == |s| - CountUsed(s)
  {
    if s == [] {
      assert UsedIndices(s) == {};
      assert FreeIndices(s) == {};
    } else {
      var n := |s| - 1;
      var p := s[..n];
      assert s == p + [s[n]];
      IndicesCount(p);
      IndicesSnoc(p, s[n]);
    }
  }

  lemma {:induction false} NoUsedIffZero<T>(s: seq<Slot<T>>)
    ensures CountUsed(s) == 0 <==> forall i :: 0 <= i < |s| ==> s[i].Free?
  {
    IndicesCount(s);
    if CountUsed(s) == 0 {
      assert UsedIndices(s) == {};
      forall i | 0 <= i < |s| ensures s[i].Free? {
        assert i !in UsedIndices(s);
      }
    } else {
      var i :| i in UsedIndices(s);
      assert s[i].Used?;
    }
  }

  lemma {:induction false} CountUsedUpdate<T>(s: seq<Slot<T>>, i: nat, x: Slot<T>)
    requires i < |s|
    ensures CountUsed(s[i := x]) ==
            CountUsed(s) - (if s[i].Used? then 1 else 0) + (if x.Used? then 1 else 0)
  {
    var n := |s| - 1;
    if i < n {
      assert s[i := x][..n] == s[..n][i := x];
      CountUsedUpdate(s[..n], i, x);
    } else {
      assert s[i := x][..n] == s[..n];
    }
  }

  lemma CountUsedPush<T>(s: seq<Slot<T>>, x: Slot<T>)
    ensures CountUsed(s + [x]) == CountUsed(s) + (if x.Used? then 1 else 0)
  {
    assert (s + [x])[..|s|] == s;
  }

  lemma {:induction false} DistinctElements(c: seq<nat>)
    requires Distinct(c)
    ensures |Elements(c)| == |c|
  {
    if c != [] {
      DistinctElements(c[1..]);
      assert Elements(c) == {c[0]} + Elements(c[1..]);
      assert c[0] !in c[1..];
    } else {
      assert Elements(c) == {};
    }
  }

  // ----- what the invariant implies -----

  /** Every member of a linked chain is a Free slot. */
  lemma {:induction false} LinkedMember<T>(s: seq<Slot<T>>, head: int, chain: seq<nat>, i: int)
    requires Linked(s, head, chain) && i in chain
    ensures 0 <= i < |s| && s[i].Free?
    decreases |chain|
  {
    if i != chain[0] {
      assert i in chain[1..];
      LinkedMember(s, s[chain[0]].next, chain[1..], i);
    }
  }

  /** Changing a slot that is not on a chain keeps the chain linked. */
  lemma {:induction false} LinkedUpdate<T>(s: seq<Slot<T>>, head: int, chain: seq<nat>, i: nat, x: Slot<T>)
    requires Linked(s, head, chain) && i < |s| && i !in chain
    ensures Linked(s[i := x], head, chain)
    decreases |chain|
  {
    if chain != [] {
      assert i !in chain[1..];
      LinkedUpdate(s, s[chain[0]].next, chain[1..], i, x);
    }
  }

  /**
   * The chain visits every Free slot: its members are Free, distinct, and
   * as many as the Free slots.
   */
  lemma {:induction false} ChainMembers<T>(s: seq<Slot<T>>, head: int, chain: seq<nat>, i: int)
    requires FreeChain(s, head, chain)
    ensures i in chain <==> 0 <= i < |s| && s[i].Free?
  {
    var e, f := Elements(chain), FreeIndices(s);
    forall x | x in e ensures x in f {
      LinkedMember(s, head, chain, x);
    }
    DistinctElements(chain);
    IndicesCount(s);
    assert |f - e| == 0 by {
      assert f == e + (f - e);
      assert |f| == |e| + |f - e|;
    }
    assert f - e == {};
    if 0 <= i < |s| && s[i].Free? {
      assert i in f && i in e;
    }
    if i in chain {
      LinkedMember(s, head, chain, i);
    }
  }

  /** A linked chain is what following the links from its head yields. */
  lemma {:induction false} LinkedIsFollow<T>(s: seq<Slot<T>>, head: int, chain: seq<nat>, steps: nat)
    requires |s| < NULL
    requires Linked(s, head, chain)
    requires |chain| <= steps
    ensures Follow(s, head, steps) == chain
    decreases |chain|
  {
    if chain != [] {
      LinkedIsFollow(s, s[head].next, chain[1..], steps - 1);
    }
  }

  /** So the free list is determined by the slots and the head alone. */
  lemma ChainUnique<T>(s: seq<Slot<T>>, head: int, c1: seq<nat>, c2: seq<nat>)
    requires |s| < NULL
    requires FreeChain(s, head, c1) && FreeChain(s, head, c2)
    ensures c1 == c2
  {
    LinkedIsFollow(s, head, c1, |c1|);
    LinkedIsFollow(s, head, c2, |c1|);
  }

  // ----- the transitions preserve the invariant -----

  /** Reusing the head slot (`put` on it) pops the head off the chain. */
  lemma PutHead<T>(s: seq<Slot<T>>, head: int, chain: seq<nat>, obj: T)
    requires FreeChain(s, head, chain) && chain != []
    ensures 0 <= head < |s| && s[head].Free?
    ensures FreeChain(s[head := Used(obj)], s[head].next, chain[1..])
    ensures CountUsed(s[head := Used(obj)]) == CountUsed(s) + 1
  {
    LinkedUpdate(s, s[head].next, chain[1..], head, Used(obj));
    CountUsedUpdate(s, head, Used(obj));
  }

  /** Appending a Used slot keeps an empty free list empty. */
  lemma PushUsed<T>(s: seq<Slot<T>>, obj: T)
    requires FreeChain(s, NULL, [])
    ensures FreeChain(s + [Used(obj)], NULL, [])
    ensures CountUsed(s + [Used(obj)]) == CountUsed(s) + 1
  {
    CountUsedPush(s, Used(obj));
  }

  /** Freeing a Used slot (`take` with the old head as link) makes it the new head. */
  lemma TakeSlot<T>(s: seq<Slot<T>>, head: usize, chain: seq<nat>, i: nat)
    requires FreeChain(s, head, chain) && i < |s| && s[i].Used?
    ensures FreeChain(s[i := Free(head)], i, [i] + chain)
    ensures CountUsed(s[i := Free(head)]) == CountUsed(s) - 1
  {
    if i in chain {
      LinkedMember(s, head, chain, i);
    }
    LinkedUpdate(s, head, chain, i, Free(head));
    assert ([i] + chain)[1..] == chain;
    CountUsedUpdate(s, i, Free(head));
  }

  /** Overwriting the object of a Used slot leaves the free list alone. */
  lemma WriteUsed<T>(s: seq<Slot<T>>, head: int, chain: seq<nat>, i: nat, v: T)
    requires FreeChain(s, head, chain) && i < |s| && s[i].Used?
    ensures FreeChain(s[i := Used(v)], head, chain)
    ensures CountUsed(s[i := Used(v)]) == CountUsed(s)
  {
    if i in chain {
      LinkedMember(s, head, chain, i);
    }
    LinkedUpdate(s, head, chain, i, Used(v));
    CountUsedUpdate(s, i, Used(v));
  }
}
