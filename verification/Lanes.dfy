/**
 The union _buffer of sha256.h: 64 bytes that are also 16 words.  The words are little-endian, so storing byte j of
 a block at index j ^ 3 makes the words big-endian.  T is the type of bytes, W that of words, and join puts a word
 together from its bytes, most significant first.
 */
module Lanes {

  const BLOCK_LENGTH := 64

  /** j ^ 3: the index with its two lowest bits complemented. */
  function Lane(j: nat): (k: nat)
    requires j < BLOCK_LENGTH
    ensures k < BLOCK_LENGTH
  {
    j + 3 - 2 * (j % 4)
  }

  lemma LaneOf(i: nat, m: nat)
    requires i < 16 && m < 4
    ensures Lane(4 * i + m) == 4 * i + 3 - m
  {
  }

  lemma LaneInjective(j: nat, k: nat)
    requires j < BLOCK_LENGTH && k < BLOCK_LENGTH && Lane(j) == Lane(k)
    ensures j == k
  {
    var c, d := j / 4, k / 4;
    LaneOf(c, j % 4);
    LaneOf(d, k % 4);
    assert j == 4 * c + j % 4 && k == 4 * d + k % 4;
  }

  /** The word view of the buffer. */
  function Words<T, W>(join: (T, T, T, T) -> W, b: seq<T>): (w: seq<W>)
    requires |b| == BLOCK_LENGTH
    ensures |w| == 16
  {
    seq(16, i requires 0 <= i < 16 => join(b[4 * i + 3], b[4 * i + 2], b[4 * i + 1], b[4 * i]))
  }

  /** The words of a block of bytes in message order. */
  function BlockWords<T, W>(join: (T, T, T, T) -> W, c: seq<T>): (w: seq<W>)
    requires |c| == BLOCK_LENGTH
    ensures |w| == 16
  {
    seq(16, i requires 0 <= i < 16 => join(c[4 * i], c[4 * i + 1], c[4 * i + 2], c[4 * i + 3]))
  }

  /** The bytes of tail are in their lanes. */
  ghost predicate Filled<T>(b: seq<T>, tail: seq<T>) {
    |tail| <= BLOCK_LENGTH == |b| && forall j :: 0 <= j < |tail| ==> b[Lane(j)] == tail[j]
  }

  /** A full buffer, read as words, is the block in message order. */
  lemma FullBuffer<T, W>(join: (T, T, T, T) -> W, b: seq<T>, tail: seq<T>)
    requires |tail| == BLOCK_LENGTH && Filled(b, tail)
    ensures Words(join, b) == BlockWords(join, tail)
  {
    forall i | 0 <= i < 16
      ensures Words(join, b)[i] == BlockWords(join, tail)[i]
    {
      LaneOf(i, 0);
      LaneOf(i, 1);
      LaneOf(i, 2);
      LaneOf(i, 3);
      assert b[Lane(4 * i)] == tail[4 * i] && b[Lane(4 * i + 1)] == tail[4 * i + 1];
      assert b[Lane(4 * i + 2)] == tail[4 * i + 2] && b[Lane(4 * i + 3)] == tail[4 * i + 3];
    }
  }

  /** Storing one more byte. */
  method Store<T>(b: array<T>, off: nat, x: T, ghost tail: seq<T>)
    requires b.Length == BLOCK_LENGTH && off == |tail| < BLOCK_LENGTH && Filled(b[..], tail)
    modifies b
    ensures Filled(b[..], tail + [x])
  {
    forall j | 0 <= j < off
      ensures Lane(j) != Lane(off)
    {
      if Lane(j) == Lane(off) {
        LaneInjective(j, off);
      }
    }
    b[Lane(off)] := x;
  }

  /** Writing word i through its bytes, given most significant first. */
  method PutWord<T, W>(b: array<T>, i: nat, bytes: seq<T>, ghost join: (T, T, T, T) -> W)
    requires b.Length == BLOCK_LENGTH && i < 16 && |bytes| == 4
    modifies b
    ensures Words(join, b[..]) == old(Words(join, b[..]))[i := join(bytes[0], bytes[1], bytes[2], bytes[3])]
  {
    b[4 * i], b[4 * i + 1], b[4 * i + 2], b[4 * i + 3] := bytes[3], bytes[2], bytes[1], bytes[0];
  }
}
