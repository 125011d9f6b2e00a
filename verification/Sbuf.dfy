/** The bounded buffer of hw/hw9/sbuf.c: a ring of n cells, two counting semaphores and a lock. */
module Sbuf {
  import opened Arithmetic

  /** The value of an `sbuf_t`: its semaphores appear as their current counts. */
  datatype Ring = Ring(
    n: nat, buf: seq<nat>, front: nat, rear: nat,
    mutex: nat, slots: nat, items: nat)

  ghost predicate WellFormed(r: Ring) {
    && 0 < r.n == |r.buf|
    && r.front <= r.rear <= r.front + r.n
  }

  /** The live cells, oldest first: (front+1) .. rear modulo n. */
  function Live(r: Ring): (q: seq<nat>)
    requires WellFormed(r)
    ensures |q| == r.rear - r.front
  {
    seq(r.rear - r.front, k requires 0 <= k < r.rear - r.front => r.buf[(r.front + 1 + k) % r.n])
  }

  function Empty(n: nat): Ring {
    Ring(n, seq(n, _ => 0), 0, 0, 1, n, 0)
  }

  /** The ring after a whole `sbuf_insert` that nobody interrupts. */
  function Inserted(r: Ring, item: nat): Ring
    requires 0 < r.n == |r.buf| && 0 < r.slots
  {
    r.(rear := r.rear + 1, buf := r.buf[(r.rear + 1) % r.n := item], slots := r.slots - 1, items := r.items + 1)
  }

  /** The ring after a whole `sbuf_remove` that nobody interrupts. */
  function Removed(r: Ring): Ring
    requires 0 < r.items
  {
    r.(front := r.front + 1, slots := r.slots + 1, items := r.items - 1)
  }

  /** Inserting with room left appends at the rear and disturbs no live cell. */
  lemma InsertAppends(r: Ring, item: nat)
    requires WellFormed(r) && 0 < r.slots && r.rear - r.front < r.n
    ensures WellFormed(Inserted(r, item))
    ensures Live(Inserted(r, item)) == Live(r) + [item]
  {
    var r' := Inserted(r, item);
    forall k | 0 <= k < |Live(r)| ensures Live(r')[k] == Live(r)[k] {
      ModDiffers(r.front + 1 + k, r.rear + 1, r.n);
    }
    assert Live(r') == Live(r) + [item];
  }

  /** Removing from a non-empty buffer takes away the oldest item. */
  lemma RemoveTakesHead(r: Ring)
    requires WellFormed(r) && 0 < r.items && r.front < r.rear
    ensures WellFormed(Removed(r))
    ensures [r.buf[(r.front + 1) % r.n]] + Live(Removed(r)) == Live(r)
  {
    var h := [r.buf[(r.front + 1) % r.n]];
    assert |h + Live(Removed(r))| == |Live(r)|;
    forall k | 0 <= k < |Live(r)| ensures (h + Live(Removed(r)))[k] == Live(r)[k] {
      if k > 0 {
        assert Live(Removed(r))[k - 1] == r.buf[(r.front + 1 + 1 + (k - 1)) % r.n];
      }
    }
  }

  class SharedBuffer {
    var buf: array<nat>
    var n: nat
    var front: nat
    var rear: nat
    var mutex: nat
    var slots: nat
    var items: nat

    ghost function Value(): Ring
      reads this, buf
    {
      Ring(n, buf[..], front, rear, mutex, slots, items)
    }

    /** The state between calls: nobody is inside, so the two counters account for all n cells. */
    ghost predicate Quiet()
      reads this, buf
    {
      && WellFormed(Value())
      && mutex == 1
      && items == rear - front
      && slots + items == n
    }

    constructor (n: nat)
      requires 0 < n
      ensures fresh(buf)
      ensures Value() == Empty(n)
      ensures Quiet() && Live(Value()) == []
    {
      this.n := n;
      buf := new nat[n](_ => 0);
      front, rear := 0, 0;
      mutex, slots, items := 1, n, 0;
      new;
      assert buf[..] == seq(n, _ => 0);
    }

    /** `sbuf_insert` run without interruption; it may start only when P(&slots) does not block. */
    method Insert(item: nat)
      requires Quiet() && 0 < slots
      modifies this, buf
      ensures buf == old(buf) && Value() == Inserted(old(Value()), item)
      ensures Quiet()
      ensures Live(Value()) == old(Live(Value())) + [item]
    {
      ghost var before := Value();
      slots := slots - 1;
      mutex := mutex - 1;
      rear := rear + 1;
      buf[rear % n] := item;
      mutex := mutex + 1;
      items := items + 1;
      InsertAppends(before, item);
    }

    /** `sbuf_remove` run without interruption; it may start only when P(&items) does not block. */
    method Remove() returns (item: nat)
      requires Quiet() && 0 < items
      modifies this
      ensures buf == old(buf) && Value() == Removed(old(Value()))
      ensures Quiet()
      ensures [item] + Live(Value()) == old(Live(Value()))
    {
      ghost var before := Value();
      items := items - 1;
      mutex := mutex - 1;
      front := front + 1;
      item := buf[front % n];
      mutex := mutex + 1;
      slots := slots + 1;
      RemoveTakesHead(before);
    }
  }
}
