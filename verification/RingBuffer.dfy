/** The ring as an object: what push, pop and approx_size do when no other thread interferes. */
module RingBuffer {
  import opened Options
  import opened SpscRing

  /** The slot k places after the tail. */
  function SlotAt(tail: nat, k: nat, slots: nat): (i: nat)
    requires slots > 0
    ensures i < slots
  {
    (tail + k) % slots
  }

  class SpscRingBuffer<T> {
    const slots: nat
    const buffer: array<Option<T>>
    var head: nat
    var tail: nat
    ghost var contents: seq<T>

    /** contents[k] sits k slots after the tail, and the head is the slot after the last item. */
    ghost predicate Valid()
      reads this, buffer
      ensures Valid() ==> |contents| < slots
    {
      && slots > 0 && buffer.Length == slots
      && head < slots && tail < slots && |contents| < slots
      && head == SlotAt(tail, |contents|, slots)
      && forall k: nat | k < |contents| :: buffer[SlotAt(tail, k, slots)] == Some(contents[k])
    }

    constructor (capacity: nat)
      ensures Valid() && contents == [] && slots == capacity + 1 && fresh(buffer)
    {
      slots := capacity + 1;
      buffer := new Option<T>[capacity + 1](_ => None);
      head, tail, contents := 0, 0, [];
      new;
      OwnResidue(0, slots);
    }

    method Push(item: T) returns (ok: bool)
      requires Valid()
      modifies this`head, this`contents, buffer
      ensures Valid()
      ensures ok <==> |old(contents)| < slots - 1
      ensures contents == if ok then old(contents) + [item] else old(contents)
    {
      var next := Increment(head, slots);
      NextSlot(tail + |contents|, slots);
      FullTest(tail, |contents|, slots);
      if next == tail {
        return false;
      }
      forall k: nat | k < |contents|
        ensures SlotAt(tail, k, slots) != head
      {
        DistinctSlots(tail, k, |contents|, slots);
      }
      buffer[head] := Some(item);
      head := next;
      contents := contents + [item];
      return true;
    }

    method Pop() returns (result: Option<T>)
      requires Valid()
      modifies this`tail, this`contents, buffer
      ensures Valid()
      ensures old(contents) == [] ==> result == None && contents == []
      ensures old(contents) != [] ==> result == Some(old(contents)[0]) && contents == old(contents)[1..]
    {
      EmptyTest(tail, |contents|, slots);
      if tail == head {
        return None;
      }
      ReleaseFirst(tail, |contents|, slots);
      assert buffer[SlotAt(tail, 0, slots)] == Some(contents[0]);
      result := buffer[tail];
      buffer[tail] := None;
      ghost var rest := contents[1..];
      assert forall k: nat | k < |rest| :: buffer[SlotAt(tail, k + 1, slots)] == Some(rest[k]);
      tail := Increment(tail, slots);
      contents := rest;
    }

    method Size() returns (size: nat)
      requires Valid()
      ensures size == |contents|
    {
      OwnResidue(tail, slots);
      ApproxSizeOfPositions(tail + |contents|, tail, slots);
      size := if head >= tail then head - tail else slots - (tail - head);
    }
  }

  lemma NextSlot(a: nat, n: nat)
    requires n > 0
    ensures Increment(a % n, n) == (a + 1) % n
  {
    NextResidue(a, n);
  }

  lemma FullTest(tail: nat, count: nat, n: nat)
    requires tail < n && count < n
    ensures (tail + count + 1) % n == tail <==> count == n - 1
  {
    OwnResidue(tail, n);
    if count == n - 1 {
      Wrap(tail, n);
    } else if (tail + count + 1) % n == tail % n {
      SameResidue(tail, tail + count + 1, n);
    }
  }

  lemma EmptyTest(tail: nat, count: nat, n: nat)
    requires tail < n && count < n
    ensures (tail + count) % n == tail <==> count == 0
  {
    OwnResidue(tail, n);
    if (tail + count) % n == tail % n {
      SameResidue(tail, tail + count, n);
    }
  }

  lemma Wrap(a: nat, n: nat)
    requires a < n
    ensures (a + n) % n == a
  {
    var q := Residue(a + n, n);
    Powers.MulAtLeast(q - 1, n);
    assert (q - 1) * n == a - (a + n) % n;
  }

  lemma DistinctSlots(tail: nat, j: nat, k: nat, n: nat)
    requires n > 0 && j < k < j + n
    ensures SlotAt(tail, j, n) != SlotAt(tail, k, n)
  {
    if (tail + j) % n == (tail + k) % n {
      SameResidue(tail + j, tail + k, n);
    }
  }

  /** Counting from the next slot is counting one further from this one. */
  lemma ShiftedSlot(tail: nat, k: nat, n: nat)
    requires tail < n && k < n
    ensures SlotAt(Increment(tail, n), k, n) == SlotAt(tail, k + 1, n)
  {
    if tail + 1 < n {
      OwnResidue(tail + 1, n);
    } else {
      Wrap(0, n);
      OwnResidue(k, n);
      Wrap(k, n);
    }
  }

  /** Releasing the first of count items leaves the other slots and the head where they were. */
  lemma ReleaseFirst(tail: nat, count: nat, n: nat)
    requires tail < n && 0 < count < n
    ensures SlotAt(tail, 0, n) == tail
    ensures forall k: nat | k < count :: SlotAt(Increment(tail, n), k, n) == SlotAt(tail, k + 1, n)
    ensures forall k: nat | 0 < k < count :: SlotAt(tail, k, n) != tail
  {
    OwnResidue(tail, n);
    forall k: nat | k < count
      ensures SlotAt(Increment(tail, n), k, n) == SlotAt(tail, k + 1, n)
    {
      ShiftedSlot(tail, k, n);
    }
    forall k: nat | 0 < k < count
      ensures SlotAt(tail, k, n) != tail
    {
      DistinctSlots(tail, 0, k, n);
    }
  }
}
