/**
 The intrusive tail queue of include/sys/queue.h, as pointers in the heap.  A queue head has
 a pointer to its first element and the address of the last `next` field; an element has a
 `next` pointer and the address of the `next` field (or head field) that points to it.  The
 operations the kernel uses are proved to be append and delete-anywhere on a sequence.
 */
module TailQueue {
  import opened Options
  import opened Queues
  import opened Semaphores

  /** The address of a `struct proc *` field: the head's first field, or an element's next. */
  datatype Link = Nowhere | FirstOf(q: RunQueue) | NextOf(p: Proc)

  /** A process; every queue it can be on uses the same two link fields. */
  class Proc {
    var next: Proc?
    var prev: Link
    var status: Status
    var waitSem: Option<Sem>
    var ax: int

    /** A process structure cleared by memset. */
    constructor ()
      ensures status == Unused && waitSem == None && ax == 0
    {
      next, prev, status, waitSem, ax := null, Nowhere, Unused, None, 0;
    }
  }

  /** What the field in front of element `i` of queue contents `s` holds. */
  ghost function ElemAt(s: seq<Proc>, i: nat): Proc? { if i < |s| then s[i] else null }

  /** The field that points to element `i` of queue contents `s`. */
  ghost function LinkTo(q: RunQueue, s: seq<Proc>, i: nat): Link
    requires i <= |s|
  {
    if i == 0 then FirstOf(q) else NextOf(s[i - 1])
  }

  /** The link fields of element `i`. */
  ghost predicate Linked(q: RunQueue, s: seq<Proc>, i: nat)
    requires i < |s|
    reads {s[i]}`next, {s[i]}`prev
  {
    s[i].next == ElemAt(s, i + 1) && s[i].prev == LinkTo(q, s, i)
  }

  /** The link fields of element `j` when its neighbours point past element `i`. */
  ghost predicate Bypasses(q: RunQueue, s: seq<Proc>, i: nat, j: nat)
    requires i < |s| && j < |s|
    reads {s[j]}`next, {s[j]}`prev
  {
    && s[j].next == (if j + 1 == i then ElemAt(s, i + 1) else ElemAt(s, j + 1))
    && s[j].prev == (if j == i + 1 then LinkTo(q, s, i) else LinkTo(q, s, j))
  }

  lemma WithoutLinked(q: RunQueue, s: seq<Proc>, i: nat, k: nat)
    requires i < |s| && k < |s| - 1 && Bypasses(q, s, i, if k < i then k else k + 1)
    ensures Linked(q, Without(s, i), k)
  {
  }

  /** Once the neighbours of element `i` point past it, the rest is a valid queue. */
  lemma WithoutValid(q: RunQueue, s: seq<Proc>, i: nat)
    requires i < |s| && NoDup(Without(s, i)) && q.elems == Without(s, i)
    requires q.first == ElemAt(q.elems, 0) && q.last == LinkTo(q, q.elems, |q.elems|)
    requires forall j :: 0 <= j < |s| && j != i ==> Bypasses(q, s, i, j)
    ensures q.Valid()
  {
    forall k | 0 <= k < |q.elems| ensures Linked(q, q.elems, k) {
      WithoutLinked(q, s, i, k);
    }
  }

  class RunQueue {
    var first: Proc?
    var last: Link
    ghost var elems: seq<Proc>

    ghost predicate Valid()
      reads this, (set p | p in elems)`next, (set p | p in elems)`prev
    {
      && NoDup(elems)
      && first == ElemAt(elems, 0)
      && last == LinkTo(this, elems, |elems|)
      && forall i :: 0 <= i < |elems| ==> Linked(this, elems, i)
    }

    /** TAILQ_INIT */
    constructor ()
      ensures Valid() && elems == []
    {
      first := null;
      elems := [];
      new;
      last := FirstOf(this);
    }

    /** TAILQ_FIRST */
    method First() returns (p: Proc?)
      requires Valid()
      ensures p == if elems == [] then null else elems[0]
    {
      p := first;
    }

    /** TAILQ_INSERT_TAIL */
    method InsertTail(p: Proc)
      requires Valid() && p !in elems
      modifies this, p`next, p`prev, (set q | q in elems)`next
      ensures Valid() && elems == old(elems) + [p]
    {
      ghost var s := elems;
      ghost var n := |s|;
      assert n > 0 ==> Linked(this, s, n - 1);
      p.next := null;
      p.prev := last;
      match last {
        case FirstOf(q) => q.first := p;
        case NextOf(e) => e.next := p;
      }
      last := NextOf(p);
      elems := s + [p];
      forall k | 0 <= k < |elems| ensures Linked(this, elems, k) {
        if k < n { assert old(Linked(this, s, k)); }
      }
    }

    /** TAILQ_REMOVE */
    method Remove(p: Proc)
      requires Valid() && p in elems
      modifies this, (set q | q in elems)`next, (set q | q in elems)`prev
      ensures Valid() && elems == Minus(old(elems), p)
    {
      hide Minus;
      hide NoDup;
      hide Bypasses;
      hide Linked;
      ghost var s := elems;
      ghost var i :| 0 <= i < |s| && s[i] == p;
      MinusAt(s, i);
      MinusFacts(s, p);
      Bypass(p, i);
      elems := Without(s, i);
      WithoutValid(this, s, i);
    }

    /** The pointer assignments of TAILQ_REMOVE: the neighbours of `p` now point past it. */
    method Bypass(p: Proc, ghost i: nat)
      requires Valid() && i < |elems| && elems[i] == p
      modifies this`first, this`last, (set q | q in elems)`next, (set q | q in elems)`prev
      ensures first == ElemAt(Without(elems, i), 0)
      ensures last == LinkTo(this, Without(elems, i), |elems| - 1)
      ensures forall j :: 0 <= j < |elems| && j != i ==> Bypasses(this, elems, i, j)
    {
      assert Linked(this, elems, i);
      assert forall j :: 0 <= j < |elems| ==> old(Linked(this, elems, j));
      if p.next != null {
        p.next.prev := p.prev;
      } else {
        last := p.prev;
      }
      match p.prev {
        case FirstOf(q) => q.first := p.next;
        case NextOf(e) => e.next := p.next;
      }
      forall j | 0 <= j < |elems| && j != i ensures Bypasses(this, elems, i, j) {
        assert old(Linked(this, elems, j));
      }
    }
  }

  class Sem {
    var value: nat
    const waiters: RunQueue

    /** sem_init */
    constructor (initValue: nat)
      requires initValue < BYTE
      ensures value == initValue && fresh(waiters) && waiters.Valid() && waiters.elems == []
    {
      value := initValue;
      waiters := new RunQueue();
    }
  }
}
