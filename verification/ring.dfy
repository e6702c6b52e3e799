/** The circular buffer of src/cb.c: a window onto a shared pool of packets. */
module Rings {
  import opened Types
  import opened Dongles

  /** An index that went round at most once. */
  function Wrapped(i: nat, size: nat): (r: nat)
    requires i < size + size
    ensures r < size
  {
    if i < size then i else i - size
  }

  lemma WrappedIsRemainder(i: nat, size: nat)
    requires i < size + size
    ensures i % size == Wrapped(i, size)
  {
  }

  class RingBuffer {
    ghost var contents: seq<Packet>  // what the ring holds, oldest first
    var size: nat
    var start: nat
    var count: nat
    var elems: array<Packet>
    var first: nat                   // where this ring's part of the pool begins

    ghost predicate Valid()
      reads this, elems
    {
      && first + size <= elems.Length && count <= size && (size > 0 ==> start < size)
      && |contents| == count
      && forall i :: 0 <= i < count ==> contents[i] == elems[first + Wrapped(start + i, size)]
    }

    constructor (pool: array<Packet>)
      ensures Valid() && size == 0 && first == 0 && elems == pool && contents == []
    {
      size, start, count, elems, first, contents := 0, 0, 0, pool, 0, [];
    }

    predicate IsFull()
      reads this
    {
      count == size
    }

    predicate IsEmpty()
      reads this
    {
      count == 0
    }

    /** Takes the oldest packet out; nothing happens to an empty ring. */
    method Read() returns (p: Option<Packet>)
      requires Valid()
      modifies this`start, this`count, this`contents
      ensures Valid() && contents == Rest(old(contents))
      ensures p == if old(contents) == [] then None else Some(old(contents)[0])
    {
      p := None;
      if !IsEmpty() {
        p := Some(elems[first + start]);
        assert contents[0] == elems[first + Wrapped(start + 0, size)];
        WrappedIsRemainder(start + 1, size);
        start := (start + 1) % size;
        count := count - 1;
        contents := contents[1..];
      }
    }

    method Peek() returns (p: Option<Packet>)
      requires Valid()
      ensures p == if contents == [] then None else Some(contents[0])
    {
      p := None;
      if !IsEmpty() {
        p := Some(elems[first + start]);
        assert contents[0] == elems[first + Wrapped(start + 0, size)];
      }
    }

    /** Opens a slot at the end, dropping the oldest packet when the ring is full.
        The slot still holds what the pool had there; the caller fills it. */
    method GetSlot() returns (slot: nat)
      requires Valid() && size > 0
      modifies this`start, this`count, this`contents
      ensures Valid() && count > 0 && slot == first + Wrapped(start + (count - 1), size)
      ensures contents == PushDropping(old(contents), size, elems[slot])
      decreases IsFull()
    {
      if IsFull() {
        var _ := Read();
        slot := GetSlot();
      } else {
        WrappedIsRemainder(start + count, size);
        var end := (start + count) % size;
        slot := first + end;
        count := count + 1;
        contents := contents + [elems[slot]];
      }
    }

    /** The caller's part: the newest slot gets its packet. */
    method Fill(slot: nat, p: Packet)
      requires Valid() && count > 0 && slot == first + Wrapped(start + (count - 1), size)
      modifies elems, this`contents
      ensures Valid() && contents == old(contents)[..count - 1] + [p]
      ensures elems[..] == old(elems[..])[slot := p]
    {
      elems[slot] := p;
      contents := contents[..count - 1] + [p];
    }

    method Flush()
      requires Valid()
      modifies this`count, this`contents
      ensures Valid() && contents == []
    {
      count := 0;
      contents := [];
    }
  }
}

/** Two rings over one pool, as the firmware keeps them when ack payloads are on. */
module SharedPool {
  import opened Types
  import opened Dongles
  import opened Rings

  ghost predicate Apart(a: RingBuffer, b: RingBuffer)
    reads a, b, a.elems, b.elems
  {
    && a != b && a.elems == b.elems && a.Valid() && b.Valid()
    && (a.first + a.size <= b.first || b.first + b.size <= a.first || a.size == 0 || b.size == 0)
  }

  /** The two steps every caller takes, open a slot and fill it; the neighbouring ring stays as it is. */
  method Put(a: RingBuffer, b: RingBuffer, p: Packet)
    requires Apart(a, b) && a.size > 0
    modifies a`start, a`count, a`contents, a.elems
    ensures Apart(a, b) && a.contents == PushDropping(old(a.contents), a.size, p) && b.contents == old(b.contents)
  {
    var slot := a.GetSlot();
    a.Fill(slot, p);
    assert a.elems[..][slot] == p;
    assert forall i :: 0 <= i < a.elems.Length && i != slot ==> a.elems[i] == a.elems[..][i] == old(a.elems[..])[i];
  }

  datatype Op = Store(packet: Packet) | Read | Peek | Flush

  /** What a list of operations makes of a bounded, dropping queue. */
  function RunQueue(q: seq<Packet>, size: nat, ops: seq<Op>): seq<Packet>
    requires 0 < size
  {
    if ops == [] then q
    else
      var r := RunQueue(q, size, ops[..|ops| - 1]);
      match ops[|ops| - 1]
      case Store(p) => PushDropping(r, size, p)
      case Read => Rest(r)
      case Peek => r
      case Flush => []
  }

  lemma {:induction false} QueueStaysBounded(q: seq<Packet>, size: nat, ops: seq<Op>)
    requires 0 < size && |q| <= size
    ensures |RunQueue(q, size, ops)| <= size
  {
    if ops != [] {
      QueueStaysBounded(q, size, ops[..|ops| - 1]);
    }
  }

  /** Any run of operations on one ring acts on its queue alone. */
  method RunOn(a: RingBuffer, b: RingBuffer, ops: seq<Op>)
    requires Apart(a, b) && a.size > 0
    modifies a`start, a`count, a`contents, a.elems
    ensures Apart(a, b) && a.contents == RunQueue(old(a.contents), a.size, ops) && b.contents == old(b.contents)
  {
    for k := 0 to |ops|
      invariant Apart(a, b)
      invariant a.contents == RunQueue(old(a.contents), a.size, ops[..k])
    {
      assert ops[..k + 1][..k] == ops[..k];
      match ops[k]
      case Store(p) => Put(a, b, p);
      case Read => var _ := a.Read();
      case Peek => var _ := a.Peek();
      case Flush => a.Flush();
    }
    assert ops[..|ops|] == ops;
  }
}
