/**
 A ring of n places as AltSoftSerial.cpp keeps it: head is the place written last, tail the place read last, and the
 bytes in between wait.  One place stays empty.
 */
module Rings {

  /** The size of both buffers; the transmitter uses only some places of its own. */
  const RX_BUFFER_SIZE := 80

  function Next(i: nat, n: nat): (j: nat)
    requires i < n
    ensures j < n
  {
    if i + 1 >= n then 0 else i + 1
  }

  function Count(head: nat, tail: nat, n: nat): (c: nat)
    requires head < n && tail < n
    ensures c < n
  {
    if head >= tail then head - tail else n + head - tail
  }

  /** The place of waiting element i. */
  function Place(tail: nat, i: nat, n: nat): (p: nat)
    requires tail < n && i + 1 < n
    ensures p < n
  {
    if tail + 1 + i >= n then tail + 1 + i - n else tail + 1 + i
  }

  ghost predicate IsRing<T>(buffer: seq<T>, head: nat, tail: nat, n: nat) {
    head < n && tail < n <= |buffer|
  }

  /** The waiting elements, the oldest first. */
  function Waiting<T>(buffer: seq<T>, head: nat, tail: nat, n: nat): (queue: seq<T>)
    requires IsRing(buffer, head, tail, n)
    ensures |queue| == Count(head, tail, n)
  {
    seq(Count(head, tail, n), i requires 0 <= i < Count(head, tail, n) => buffer[Place(tail, i, n)])
  }

  lemma IsFull(head: nat, tail: nat, n: nat)
    requires head < n && tail < n
    ensures Next(head, n) == tail <==> Count(head, tail, n) == n - 1
  {
  }

  lemma IsEmpty(head: nat, tail: nat, n: nat)
    requires head < n && tail < n
    ensures head == tail <==> Count(head, tail, n) == 0
  {
  }

  lemma Push<T>(buffer: seq<T>, head: nat, tail: nat, n: nat, x: T)
    requires IsRing(buffer, head, tail, n) && Next(head, n) != tail
    ensures Waiting(buffer[Next(head, n) := x], Next(head, n), tail, n) == Waiting(buffer, head, tail, n) + [x]
  {
    var h, b := Next(head, n), buffer[Next(head, n) := x];
    var c := Count(head, tail, n);
    assert Count(h, tail, n) == c + 1 && Place(tail, c, n) == h;
    forall i | 0 <= i < c
      ensures b[Place(tail, i, n)] == buffer[Place(tail, i, n)]
    {
    }
  }

  lemma Pop<T>(buffer: seq<T>, head: nat, tail: nat, n: nat)
    requires IsRing(buffer, head, tail, n) && head != tail
    ensures
      var queue := Waiting(buffer, head, tail, n);
      queue != [] && queue[0] == buffer[Next(tail, n)] && Waiting(buffer, head, Next(tail, n), n) == queue[1..]
  {
    var c := Count(head, tail, n);
    assert Count(head, Next(tail, n), n) == c - 1 && Place(tail, 0, n) == Next(tail, n);
    forall i | 0 <= i < c - 1
      ensures Place(Next(tail, n), i, n) == Place(tail, i + 1, n)
    {
    }
  }
}
