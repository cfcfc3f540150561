/** The proxy's bounded queue of connection descriptors
    (Labs/Lab08-proxy/blockqueue.c, blockqueue.h): a ring buffer of `n` ints
    with `front` and `rear` kept modulo `n`.

    The `slots` and `items` semaphores become ghost counters, and each
    blocking `P` on them becomes a precondition; the `mutex` and `V` calls
    are left out, so each operation is one atomic step. */
module BlockQueue {

  /** For `0 <= x < 2n`, `x % n` is a single conditional subtraction. */
  lemma ModOnce(x: int, n: int)
    requires 0 < n && 0 <= x < 2 * n
    ensures x % n == if x < n then x else x - n
  {
    if x >= n {
      assert x - n == 0 * n + (x - n);
    }
  }

  /** The `count` values stored from cell `front` on, wrapping at the end of `buf`. */
  function RingItems(buf: seq<int>, front: nat, count: nat): (r: seq<int>)
    requires 0 < |buf| && front < |buf| && count <= |buf|
    ensures |r| == count
  {
    seq(count, k requires 0 <= k < count => buf[(front + k) % |buf|])
  }

  /** Writing the cell just past the stored values appends one value. */
  lemma RingAdd(buf: seq<int>, front: nat, count: nat, v: int)
    requires 0 < |buf| && front < |buf| && count < |buf|
    ensures RingItems(buf[(front + count) % |buf| := v], front, count + 1)
         == RingItems(buf, front, count) + [v]
  {
    var n := |buf|;
    var w := (front + count) % n;
    var after := RingItems(buf[w := v], front, count + 1);
    var before := RingItems(buf, front, count) + [v];
    forall k | 0 <= k < count + 1 ensures after[k] == before[k] {
      ModOnce(front + k, n);
      ModOnce(front + count, n);
      if k < count {
        assert (front + k) % n != w;
      }
    }
  }

  /** Advancing `front` by one drops the oldest value. */
  lemma RingGet(buf: seq<int>, front: nat, count: nat)
    requires 0 < |buf| && front < |buf| && 0 < count <= |buf|
    ensures (front + 1) % |buf| < |buf|
    ensures RingItems(buf, (front + 1) % |buf|, count - 1) == RingItems(buf, front, count)[1..]
  {
    var n := |buf|;
    var f := (front + 1) % n;
    ModOnce(front + 1, n);
    var after := RingItems(buf, f, count - 1);
    var before := RingItems(buf, front, count)[1..];
    forall k | 0 <= k < count - 1 ensures after[k] == before[k] {
      ModOnce(f + k, n);
      ModOnce(front + k + 1, n);
    }
  }

  /** The `BlockQueue` record (blockqueue.h). */
  class Queue {
    var buf: array<int>
    const n: int
    var front: int
    var rear: int
    ghost var slots: int
    ghost var items: int

    /** `buf[front % n]` is the oldest stored value and `buf[(rear - 1) % n]`
        the newest; `items` values are stored and `slots` cells are free. */
    ghost predicate Valid()
      reads this
    {
      && 0 < n && buf.Length == n
      && 0 <= front < n && 0 <= rear < n
      && 0 <= items <= n && items + slots == n
      && rear == (front + items) % n
    }

    /** The stored values, oldest first. */
    ghost function Contents(): seq<int>
      reads this, buf
      requires Valid()
    {
      RingItems(buf[..], front, items)
    }

    /** `bq_init(n)`: an empty queue over a fresh buffer of `n` cells. */
    constructor (n: int)
      requires n > 0
      ensures Valid() && fresh(buf)
      ensures this.n == n && buf.Length == n && front == 0 && rear == 0
      ensures slots == n && items == 0 && Contents() == []
    {
      this.n := n;
      buf := new int[n];
      front, rear := 0, 0;
      slots, items := n, 0;
    }

    /** `bq_get`: take the oldest value; `P(items)` becomes `items > 0`. */
    method Get() returns (t: int)
      requires Valid() && items > 0
      modifies this
      ensures Valid() && buf == old(buf) && buf[..] == old(buf[..])
      ensures t == old(buf[front % n]) && t == old(Contents())[0]
      ensures Contents() == old(Contents())[1..]
      ensures front == (old(front) + 1) % n && rear == old(rear)
      ensures items == old(items) - 1 && slots == old(slots) + 1
    {
      RingGet(buf[..], front, items);
      ModOnce(front, n);
      ModOnce(front + 1, n);
      ModOnce(front + items, n);
      ModOnce((front + 1) % n + items - 1, n);
      t := buf[front % n];
      front := (front + 1) % n;
      items, slots := items - 1, slots + 1;
    }

    /** `bq_add`: store `val` after the newest value; `P(slots)` becomes `slots > 0`. */
    method Add(val: int)
      requires Valid() && slots > 0
      modifies this, buf
      ensures Valid() && buf == old(buf)
      ensures buf[old(rear)] == val
      ensures forall i :: 0 <= i < n && i != old(rear) ==> buf[i] == old(buf[i])
      ensures Contents() == old(Contents()) + [val]
      ensures rear == (old(rear) + 1) % n && front == old(front)
      ensures items == old(items) + 1 && slots == old(slots) - 1
    {
      RingAdd(buf[..], front, items, val);
      buf[rear] := val;
      assert buf[..] == old(buf[..])[rear := val];
      rear := (rear + 1) % n;
      items, slots := items + 1, slots - 1;
      ModOnce(old(rear) + 1, n);
      ModOnce(front + old(items), n);
      ModOnce(front + items, n);
    }
  }
}
