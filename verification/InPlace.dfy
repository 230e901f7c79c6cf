/**
 The loops and permutations with which AES.cpp changes its buffers in place (lines 126-184, 201-204, 222-225 and
 319-331), for entries of any type and any table or combining operation.
 */
module InPlace {
  import opened StateLayout

  /** One row of shift_sub_rows or inv_shift_sub_rows; the C++ passes its first entry through a temporary. */
  method RotateRow<T>(st: array<T>, box: T -> T, i: nat, j: nat, k: nat, l: nat, ghost u: seq<T>)
    requires st.Length == |u| == 16 && i < 16 && j < 16 && k < 16 && l < 16
    requires i != j && i != k && i != l && j != k && j != l && k != l
    requires u[i] == box(st[j]) && u[j] == box(st[k]) && u[k] == box(st[l]) && u[l] == box(st[i])
    modifies st
    ensures st[i] == u[i] && st[j] == u[j] && st[k] == u[k] && st[l] == u[l]
    ensures forall n :: 0 <= n < 16 && n != i && n != j && n != k && n != l ==> st[n] == old(st[n])
  {
    var tt := st[i];
    st[i] := box(st[j]);
    st[j] := box(st[k]);
    st[k] := box(st[l]);
    st[l] := box(tt);
  }

  method SwapRow2<T>(st: array<T>, box: T -> T, ghost u: seq<T>)
    requires st.Length == |u| == 16
    requires u[2] == box(st[10]) && u[10] == box(st[2]) && u[6] == box(st[14]) && u[14] == box(st[6])
    modifies st
    ensures st[2] == u[2] && st[6] == u[6] && st[10] == u[10] && st[14] == u[14]
    ensures forall n :: 0 <= n < 16 && n != 2 && n != 6 && n != 10 && n != 14 ==> st[n] == old(st[n])
  {
    var tt := st[2];
    st[2] := box(st[10]);
    st[10] := box(tt);
    tt := st[6];
    st[6] := box(st[14]);
    st[14] := box(tt);
  }

  method MapRow0<T>(st: array<T>, box: T -> T, ghost u: seq<T>)
    requires st.Length == |u| == 16
    requires u[0] == box(st[0]) && u[4] == box(st[4]) && u[8] == box(st[8]) && u[12] == box(st[12])
    modifies st
    ensures st[0] == u[0] && st[4] == u[4] && st[8] == u[8] && st[12] == u[12]
    ensures forall n :: 0 <= n < 16 && n != 0 && n != 4 && n != 8 && n != 12 ==> st[n] == old(st[n])
  {
    st[0] := box(st[0]);
    st[4] := box(st[4]);
    st[8] := box(st[8]);
    st[12] := box(st[12]);
  }

  /** shift_sub_rows. */
  method ShiftMapRows<T>(st: array<T>, box: T -> T)
    requires st.Length == 16
    modifies st
    ensures st[..] == ShiftRows(Map(box, old(st[..])))
  {
    ghost var u := ShiftRows(Map(box, st[..]));
    MapRow0(st, box, u);
    RotateRow(st, box, 1, 5, 9, 13, u);
    SwapRow2(st, box, u);
    RotateRow(st, box, 3, 15, 11, 7, u);
  }

  /** inv_shift_sub_rows. */
  method InvShiftMapRows<T>(st: array<T>, box: T -> T)
    requires st.Length == 16
    modifies st
    ensures st[..] == Map(box, InvShiftRows(old(st[..])))
  {
    ghost var u := Map(box, InvShiftRows(st[..]));
    MapRow0(st, box, u);
    RotateRow(st, box, 1, 13, 9, 5, u);
    SwapRow2(st, box, u);
    RotateRow(st, box, 3, 7, 11, 15, u);
  }

  /** d holds the first i entries of its final contents u and is otherwise still o. */
  ghost predicate Prefilled<T>(d: seq<T>, i: nat, u: seq<T>, o: seq<T>)
    requires |d| == |u| == |o| && i <= |d|
  {
    (forall n :: 0 <= n < i ==> d[n] == u[n]) && forall n :: i <= n < |d| ==> d[n] == o[n]
  }

  /** One assignment of the unrolled loops. */
  method Put<T>(d: array<T>, i: nat, x: T, ghost u: seq<T>, ghost o: seq<T>)
    requires i < d.Length == |u| == |o| && Prefilled(d[..], i, u, o) && x == u[i]
    modifies d
    ensures Prefilled(d[..], i + 1, u, o)
  {
    d[i] := x;
  }

  /** Four consecutive assignments. */
  method PutFour<T>(d: array<T>, i: nat, w: seq<T>)
    requires |w| == 4 && i + 4 <= d.Length
    modifies d
    ensures d[..] == Splice(old(d[..]), i, w)
  {
    d[i], d[i + 1], d[i + 2], d[i + 3] := w[0], w[1], w[2], w[3];
  }

  /** The loop of copy_and_key and xor_block: d receives the combination of s and k, four entries at a time. */
  method ZipInto<T>(op: (T, T) -> T, d: array<T>, dOff: nat, s: array<T>, sOff: nat, k: array<T>, kOff: nat)
    requires dOff + 16 <= d.Length && sOff + 16 <= s.Length && kOff + 16 <= k.Length
    requires d == s ==> dOff == sOff
    requires d != k
    modifies d
    ensures d[..] == Splice(old(d[..]), dOff, Zip(op, old(s[sOff..sOff + 16]), k[kOff..kOff + 16]))
  {
    ghost var o := d[..];
    ghost var a := s[sOff..sOff + 16];
    ghost var u := Splice(o, dOff, Zip(op, a, k[kOff..kOff + 16]));
    var i := 0;
    while i < 16
      invariant i == 0 || i == 4 || i == 8 || i == 12 || i == 16
      invariant Prefilled(d[..], dOff + i, u, o)
      decreases 16 - i
    {
      ZipOne(op, d, dOff, s, sOff, k, kOff, i, u, o, a);
      ZipOne(op, d, dOff, s, sOff, k, kOff, i + 1, u, o, a);
      ZipOne(op, d, dOff, s, sOff, k, kOff, i + 2, u, o, a);
      ZipOne(op, d, dOff, s, sOff, k, kOff, i + 3, u, o, a);
      i := i + 4;
    }
  }

  method ZipOne<T>(op: (T, T) -> T, d: array<T>, dOff: nat, s: array<T>, sOff: nat, k: array<T>, kOff: nat, i: nat,
                   ghost u: seq<T>, ghost o: seq<T>, ghost a: seq<T>)
    requires i < 16 && dOff + 16 <= d.Length && sOff + 16 <= s.Length && kOff + 16 <= k.Length
    requires d == s ==> dOff == sOff
    requires d != k
    requires |o| == d.Length && |a| == 16
    requires u == Splice(o, dOff, Zip(op, a, k[kOff..kOff + 16]))
    requires if d == s then a == o[sOff..sOff + 16] else a == s[sOff..sOff + 16]
    requires Prefilled(d[..], dOff + i, u, o)
    modifies d
    ensures Prefilled(d[..], dOff + i + 1, u, o)
  {
    assert s[sOff + i] == a[i];
    Put(d, dOff + i, op(s[sOff + i], k[kOff + i]), u, o);
  }

  /** copy_n_bytes: four entries at a time, then one at a time. */
  method CopyBytes<T>(d: array<T>, dOff: nat, s: array<T>, sOff: nat, nn: nat)
    requires dOff + nn <= d.Length && sOff + nn <= s.Length && d != s
    modifies d
    ensures d[..] == Splice(old(d[..]), dOff, s[sOff..sOff + nn])
  {
    ghost var o := d[..];
    ghost var u := Splice(o, dOff, s[sOff..sOff + nn]);
    var i, left := 0, nn;
    while left >= 4
      invariant i + left == nn
      invariant Prefilled(d[..], dOff + i, u, o)
    {
      Put(d, dOff + i, s[sOff + i], u, o);
      Put(d, dOff + i + 1, s[sOff + i + 1], u, o);
      Put(d, dOff + i + 2, s[sOff + i + 2], u, o);
      Put(d, dOff + i + 3, s[sOff + i + 3], u, o);
      i, left := i + 4, left - 4;
    }
    while left > 0
      invariant i + left == nn
      invariant Prefilled(d[..], dOff + i, u, o)
    {
      Put(d, dOff + i, s[sOff + i], u, o);
      i, left := i + 1, left - 1;
    }
  }

  // Buffers of 16-entry blocks

  /** The first n blocks of s. */
  function Blocks<T>(s: seq<T>, n: nat): (b: seq<seq<T>>)
    requires 16 * n <= |s|
    ensures |b| == n && forall j :: 0 <= j < n ==> |b[j]| == 16
  {
    seq(n, j requires 0 <= j < n => s[16 * j..16 * j + 16])
  }

  /** s starts with the first i of the given blocks and is otherwise still o. */
  ghost predicate Overwritten<T>(s: seq<T>, o: seq<T>, blocks: seq<seq<T>>, i: nat)
    requires i <= |blocks| && 16 * |blocks| <= |s| == |o|
  {
    (forall j :: 0 <= j < i ==> s[16 * j..16 * j + 16] == blocks[j]) && s[16 * i..] == o[16 * i..]
  }

  lemma OverwriteBlock<T>(s: seq<T>, o: seq<T>, blocks: seq<seq<T>>, i: nat, off: nat)
    requires i < |blocks| && 16 * |blocks| <= |s| == |o| && Overwritten(s, o, blocks, i)
    requires |blocks[i]| == 16 && off == 16 * i
    ensures Overwritten(Splice(s, off, blocks[i]), o, blocks, i + 1)
    ensures s[off..off + 16] == o[off..off + 16]
  {
    var t := Splice(s, off, blocks[i]);
    forall j | 0 <= j < i
      ensures t[16 * j..16 * j + 16] == s[16 * j..16 * j + 16]
    {
    }
    assert t[off..off + 16] == blocks[i];
    assert t[off + 16..] == s[off..][16..] == o[off + 16..];
    assert s[off..off + 16] == s[off..][..16];
  }

  /** The block to be overwritten next still has its old contents. */
  lemma NotYet<T>(s: seq<T>, o: seq<T>, blocks: seq<seq<T>>, i: nat, off: nat)
    requires i < |blocks| && 16 * |blocks| <= |s| == |o| && Overwritten(s, o, blocks, i) && off == 16 * i
    ensures s[off..off + 16] == Blocks(o, |blocks|)[i]
  {
    assert s[off..off + 16] == s[off..][..16] && o[off..off + 16] == o[off..][..16];
  }

  lemma AllOverwritten<T>(s: seq<T>, o: seq<T>, blocks: seq<seq<T>>)
    requires 16 * |blocks| <= |s| == |o| && Overwritten(s, o, blocks, |blocks|)
    requires forall j :: 0 <= j < |blocks| ==> |blocks[j]| == 16
    ensures Blocks(s, |blocks|) == blocks && s[16 * |blocks|..] == o[16 * |blocks|..]
  {
  }

  // Storing into a state buffer whose final contents are to be u

  method PutColumn<T>(dt: array<T>, i: nat, p: T, q: T, r: T, t: T, ghost u: seq<T>)
    requires i + 4 <= dt.Length == |u| && dt[..i] == u[..i]
    requires u[i] == p && u[i + 1] == q && u[i + 2] == r && u[i + 3] == t
    modifies dt
    ensures dt[..i + 4] == u[..i + 4]
  {
    dt[i], dt[i + 1], dt[i + 2], dt[i + 3] := p, q, r, t;
  }

  /** The entries of u whose origin is one of the columns before i are in place. */
  ghost predicate ScatteredBefore<T>(s: seq<T>, i: nat, u: seq<T>)
    requires |s| == |u| == 16
  {
    forall n :: 0 <= n < 16 && InvShiftIndex(n) < i ==> s[n] == u[n]
  }

  method ScatterColumn<T>(dt: array<T>, i: nat, p: T, q: T, r: T, t: T, ghost u: seq<T>)
    requires dt.Length == |u| == 16 && i < 16 && i % 4 == 0 && ScatteredBefore(dt[..], i, u)
    requires u[i] == p && u[Wrap(i + 5)] == q && u[Wrap(i + 10)] == r && u[Wrap(i + 15)] == t
    modifies dt
    ensures ScatteredBefore(dt[..], i + 4, u)
  {
    dt[i], dt[Wrap(i + 5)], dt[Wrap(i + 10)], dt[Wrap(i + 15)] := p, q, r, t;
    forall n | 0 <= n < 16
      ensures InvShiftIndex(n) < i + 4 ==> dt[n] == u[n]
    {
      ScatteredIndices(i, n);
    }
  }

  lemma AllScattered<T>(s: seq<T>, u: seq<T>)
    requires |s| == |u| == 16 && ScatteredBefore(s, 16, u)
    ensures s == u
  {
    forall n | 0 <= n < 16
      ensures s[n] == u[n]
    {
      assert InvShiftIndex(n) < 16;
    }
  }
}
