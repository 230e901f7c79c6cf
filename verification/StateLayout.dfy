/**
 The 4 x 4 state of AES as a sequence of 16 entries, row r of column c at index r + 4c, and the ways in which
 the cipher moves entries about.  Nothing here depends on what the entries are.
 */
module StateLayout {

  function Map<T>(f: T -> T, s: seq<T>): (t: seq<T>)
    requires |s| == 16
    ensures |t| == 16
  {
    seq(16, i requires 0 <= i < 16 => f(s[i]))
  }

  /** x modulo 16, for the sums of two indices. */
  function Wrap(x: int): (j: nat)
    requires -16 <= x < 32
    ensures j < 16
  {
    if x < 0 then x + 16 else if x < 16 then x else x - 16
  }

  /** Stepping an index from one column to the next, as the code does with "& 15". */
  lemma WrapStep(i: nat, d: nat)
    requires i < 12 && d < 16
    ensures (Wrap(i + d) + 4) % 16 == Wrap(i + 4 + d)
  {
  }

  /** Row r = i % 4 is rotated left by r columns: entry i comes from r columns to the right. */
  function ShiftIndex(i: nat): (j: nat)
    requires i < 16
    ensures j < 16
  {
    Wrap(i + 4 * (i % 4))
  }

  /** Row r is rotated right by r columns. */
  function InvShiftIndex(i: nat): (j: nat)
    requires i < 16
    ensures j < 16
  {
    Wrap(i - 4 * (i % 4))
  }

  function ShiftRows<T>(s: seq<T>): (t: seq<T>)
    requires |s| == 16
    ensures |t| == 16
  {
    seq(16, i requires 0 <= i < 16 => s[ShiftIndex(i)])
  }

  function InvShiftRows<T>(s: seq<T>): (t: seq<T>)
    requires |s| == 16
    ensures |t| == 16
  {
    seq(16, i requires 0 <= i < 16 => s[InvShiftIndex(i)])
  }

  /** The index k places below i in the column of i, cyclically. */
  function Below(i: nat, k: nat): (j: nat)
    requires i < 16
    ensures j < 16
  {
    i - i % 4 + (i + k) % 4
  }

  /** Every entry becomes f of its column, read downwards from the entry itself. */
  function MapColumns<T>(f: (T, T, T, T) -> T, s: seq<T>): (t: seq<T>)
    requires |s| == 16
    ensures |t| == 16
  {
    seq(16, i requires 0 <= i < 16 => f(s[i], s[Below(i, 1)], s[Below(i, 2)], s[Below(i, 3)]))
  }

  function Zip<T>(op: (T, T) -> T, s: seq<T>, k: seq<T>): (t: seq<T>)
    requires |s| == |k| == 16
    ensures |t| == 16
  {
    seq(16, i requires 0 <= i < 16 => op(s[i], k[i]))
  }

  // Inverses

  lemma ZipInverse<T(!new)>(op: (T, T) -> T, s: seq<T>, k: seq<T>)
    requires |s| == |k| == 16
    requires forall x, y :: op(op(x, y), y) == x
    ensures Zip(op, Zip(op, s, k), k) == s
  {
  }

  lemma MapInverse<T(!new)>(f: T -> T, g: T -> T, s: seq<T>)
    requires |s| == 16
    requires forall x :: g(f(x)) == x
    ensures Map(g, Map(f, s)) == s
  {
  }

  lemma ShiftIndexInverse(i: nat)
    requires i < 16
    ensures ShiftIndex(InvShiftIndex(i)) == i
  {
    var r := i % 4;
    SameRow(i, -r);
    SameRow(i, 4 - r);
  }

  /** Steps of four stay in the row. */
  lemma SameRow(i: int, c: int)
    ensures (i + 4 * c) % 4 == i % 4
  {
  }

  lemma ShiftRowsInverse<T>(s: seq<T>)
    requires |s| == 16
    ensures InvShiftRows(ShiftRows(s)) == s
  {
    forall i | 0 <= i < 16
      ensures InvShiftRows(ShiftRows(s))[i] == s[i]
    {
      ShiftIndexInverse(i);
    }
  }

  lemma BelowBelow(i: nat, k: nat, n: nat)
    requires i < 16
    ensures Below(Below(i, k), n) == Below(i, k + n)
    ensures Below(i, 0) == Below(i, 4) == i
  {
    var column := i / 4;
    assert i == 4 * column + i % 4;
    SameRow((i + k) % 4, column);
    SameRow((i + k) % 4 + n, column);
    SameRow((i + k) % 4 + n, (i + k) / 4);
    SameRow(i, 1);
  }

  lemma MapColumnsInverseAt<T(!new)>(f: (T, T, T, T) -> T, g: (T, T, T, T) -> T, s: seq<T>, i: nat)
    requires |s| == 16 && i < 16
    requires forall a, b, c, d :: g(f(a, b, c, d), f(b, c, d, a), f(c, d, a, b), f(d, a, b, c)) == a
    ensures MapColumns(g, MapColumns(f, s))[i] == s[i]
  {
    var t := MapColumns(f, s);
    var a, b, c, d := s[i], s[Below(i, 1)], s[Below(i, 2)], s[Below(i, 3)];
    BelowBelow(i, 1, 1);
    BelowBelow(i, 1, 2);
    BelowBelow(i, 1, 3);
    BelowBelow(i, 2, 1);
    BelowBelow(i, 2, 2);
    BelowBelow(i, 2, 3);
    BelowBelow(i, 3, 1);
    BelowBelow(i, 3, 2);
    BelowBelow(i, 3, 3);
    BelowPeriod(i, 1);
    BelowPeriod(i, 2);
    assert t[i] == f(a, b, c, d);
    assert t[Below(i, 1)] == f(b, c, d, a);
    assert t[Below(i, 2)] == f(c, d, a, b);
    assert t[Below(i, 3)] == f(d, a, b, c);
  }

  lemma BelowPeriod(i: nat, k: nat)
    requires i < 16
    ensures Below(i, k + 4) == Below(i, k)
  {
  }

  lemma MapColumnsInverse<T(!new)>(f: (T, T, T, T) -> T, g: (T, T, T, T) -> T, s: seq<T>)
    requires |s| == 16
    requires forall a, b, c, d :: g(f(a, b, c, d), f(b, c, d, a), f(c, d, a, b), f(d, a, b, c)) == a
    ensures MapColumns(g, MapColumns(f, s)) == s
  {
    forall i | 0 <= i < 16
      ensures MapColumns(g, MapColumns(f, s))[i] == s[i]
    {
      MapColumnsInverseAt(f, g, s, i);
    }
  }

  // The fused steps of AES.cpp work on the column that starts at i, a multiple of four; entry m of that column
  // is exchanged with the entry 5m further on

  lemma FusedIndices(i: nat, m: nat)
    requires i < 16 && i % 4 == 0 && m < 4
    ensures ShiftIndex(i + m) == Wrap(i + 5 * m)
    ensures InvShiftIndex(Wrap(i + 5 * m)) == i + m
  {
    assert (i + m) % 4 == m;
    assert Wrap(i + 5 * m) % 4 == m;
  }

  /** The entries that come from the column at i are those that the column's values are scattered to. */
  lemma ScatteredIndices(i: nat, n: nat)
    requires i < 16 && i % 4 == 0 && n < 16
    ensures i <= InvShiftIndex(n) < i + 4 <==> n == i || n == Wrap(i + 5) || n == Wrap(i + 10) || n == Wrap(i + 15)
  {
    FusedIndices(i, 0);
    FusedIndices(i, 1);
    FusedIndices(i, 2);
    FusedIndices(i, 3);
    ShiftIndexInverse(n);
    var m := InvShiftIndex(n) - i;
    assert 0 <= m < 4 ==> m == 0 || m == 1 || m == 2 || m == 3;
  }

  lemma BelowInColumn(i: nat, m: nat, k: nat)
    requires i < 16 && i % 4 == 0 && m < 4 && k < 4
    ensures Below(i + m, k) == i + Row(m + k)
  {
    var column := i / 4;
    assert i == 4 * column;
    SameRow(m, column);
    SameRow(m + k, column);
    assert (m + 4 * column) % 4 == m;
    assert (m + k + 4 * column) % 4 == Row(m + k);
  }

  /** The row that a sum of two leads to. */
  function Row(m: nat): (r: nat)
    requires m < 8
    ensures r < 4
  {
    if m < 4 then m else m - 4
  }

  /** The column of MapColumns(f, s) that starts at i. */
  lemma MappedColumn<T>(f: (T, T, T, T) -> T, s: seq<T>, i: nat)
    requires |s| == 16 && i < 16 && i % 4 == 0
    ensures
      var t := MapColumns(f, s);
      && t[i] == f(s[i], s[i + 1], s[i + 2], s[i + 3])
      && t[i + 1] == f(s[i + 1], s[i + 2], s[i + 3], s[i])
      && t[i + 2] == f(s[i + 2], s[i + 3], s[i], s[i + 1])
      && t[i + 3] == f(s[i + 3], s[i], s[i + 1], s[i + 2])
  {
    MappedEntry(f, s, i, 0);
    MappedEntry(f, s, i, 1);
    MappedEntry(f, s, i, 2);
    MappedEntry(f, s, i, 3);
  }

  lemma MappedEntry<T>(f: (T, T, T, T) -> T, s: seq<T>, i: nat, m: nat)
    requires |s| == 16 && i < 16 && i % 4 == 0 && m < 4
    ensures MapColumns(f, s)[i + m] == f(s[i + m], s[i + Row(m + 1)], s[i + Row(m + 2)], s[i + Row(m + 3)])
  {
    BelowInColumn(i, m, 1);
    BelowInColumn(i, m, 2);
    BelowInColumn(i, m, 3);
  }

  /** One column of substitution, row shift and column mixing done in one pass. */
  lemma FusedColumn<T>(g: T -> T, f: (T, T, T, T) -> T, s: seq<T>, i: nat)
    requires |s| == 16 && i < 16 && i % 4 == 0
    ensures
      var t := MapColumns(f, ShiftRows(Map(g, s)));
      var a, b, c, d := g(s[i]), g(s[Wrap(i + 5)]), g(s[Wrap(i + 10)]), g(s[Wrap(i + 15)]);
      t[i] == f(a, b, c, d) && t[i + 1] == f(b, c, d, a) && t[i + 2] == f(c, d, a, b) && t[i + 3] == f(d, a, b, c)
  {
    FusedIndices(i, 0);
    FusedIndices(i, 1);
    FusedIndices(i, 2);
    FusedIndices(i, 3);
    var u := ShiftRows(Map(g, s));
    assert u[i] == g(s[i]) && u[i + 1] == g(s[Wrap(i + 5)]);
    assert u[i + 2] == g(s[Wrap(i + 10)]) && u[i + 3] == g(s[Wrap(i + 15)]);
    MappedColumn(f, u, i);
  }

  /** One column of inverse column mixing, row shift and substitution: where its four entries end up. */
  lemma ScatteredColumn<T>(g: T -> T, f: (T, T, T, T) -> T, s: seq<T>, i: nat)
    requires |s| == 16 && i < 16 && i % 4 == 0
    ensures
      var t := Map(g, InvShiftRows(MapColumns(f, s)));
      && t[i] == g(f(s[i], s[i + 1], s[i + 2], s[i + 3]))
      && t[Wrap(i + 5)] == g(f(s[i + 1], s[i + 2], s[i + 3], s[i]))
      && t[Wrap(i + 10)] == g(f(s[i + 2], s[i + 3], s[i], s[i + 1]))
      && t[Wrap(i + 15)] == g(f(s[i + 3], s[i], s[i + 1], s[i + 2]))
  {
    FusedIndices(i, 0);
    FusedIndices(i, 1);
    FusedIndices(i, 2);
    FusedIndices(i, 3);
    var u := MapColumns(f, s);
    var t := InvShiftRows(u);
    assert t[i] == u[i] && t[Wrap(i + 5)] == u[i + 1] && t[Wrap(i + 10)] == u[i + 2] && t[Wrap(i + 15)] == u[i + 3];
    MappedColumn(f, s, i);
  }

  /** s with the entries from index i on replaced by those of t. */
  function Splice<T>(s: seq<T>, i: nat, t: seq<T>): (u: seq<T>)
    requires i + |t| <= |s|
    ensures |u| == |s|
    ensures |t| == |s| ==> u == t
  {
    s[..i] + t + s[i + |t|..]
  }

  lemma SpliceTwice<T>(s: seq<T>, i: nat, t: seq<T>, u: seq<T>)
    requires |t| == |u| && i + |t| <= |s|
    ensures Splice(s, i, t)[i..i + |t|] == t && Splice(Splice(s, i, t), i, u) == Splice(s, i, u)
  {
  }

  lemma SpliceAll<T>(s: seq<T>, t: seq<T>)
    requires |t| == |s|
    ensures Splice(s, 0, t) == t
  {
  }

  /** s starts with the first n of the given words of four entries. */
  ghost predicate HasWords<T>(s: seq<T>, words: seq<seq<T>>, n: nat)
    requires n <= |words| && 4 * n <= |s|
  {
    forall i :: 0 <= i < n ==> s[4 * i..4 * i + 4] == words[i]
  }

  lemma WordAt<T>(s: seq<T>, words: seq<seq<T>>, n: nat, i: nat, from: nat)
    requires n <= |words| && 4 * n <= |s| && HasWords(s, words, n) && i < n && from == 4 * i
    ensures s[from..from + 4] == words[i]
  {
  }

  /** The word before the one at cc = 4n, and the one nk before it. */
  lemma WordsBefore<T>(s: seq<T>, words: seq<seq<T>>, n: nat, cc: nat, nk: nat, len: nat)
    requires cc == 4 * n && len == 4 * nk && 1 <= nk <= n <= |words| && cc <= |s| && HasWords(s, words, n)
    ensures s[cc - 4..cc - 4 + 4] == words[n - 1]
    ensures s[cc - len..cc - len + 4] == words[n - nk]
  {
    WordAt(s, words, n, n - 1, cc - 4);
    WordAt(s, words, n, n - nk, cc - len);
  }

  lemma AddWord<T>(s: seq<T>, words: seq<seq<T>>, n: nat, at: nat)
    requires n < |words| && at == 4 * n && at + 4 <= |s| && HasWords(s, words, n) && |words[n]| == 4
    ensures HasWords(Splice(s, at, words[n]), words, n + 1)
  {
    var t := Splice(s, at, words[n]);
    forall i | 0 <= i < n
      ensures t[4 * i..4 * i + 4] == s[4 * i..4 * i + 4]
    {
    }
    assert t[at..at + 4] == words[n];
  }

  lemma WordsOfPrefix<T>(s: seq<T>, prefix: seq<T>, words: seq<seq<T>>, n: nat)
    requires prefix <= s && n <= |words| && 4 * n <= |prefix| && HasWords(prefix, words, n)
    ensures HasWords(s, words, n)
  {
    forall i | 0 <= i < n
      ensures s[4 * i..4 * i + 4] == prefix[4 * i..4 * i + 4]
    {
    }
  }

  /** Each entry is obtained from those before it. */
  ghost predicate IsUnfolding<T>(s: seq<T>, step: seq<T> -> T) {
    forall i :: 0 <= i < |s| ==> s[i] == step(s[..i])
  }

  function Unfold<T>(step: seq<T> -> T, n: nat): (s: seq<T>)
    ensures |s| == n && IsUnfolding(s, step)
  {
    if n == 0 then []
    else
      var s := Unfold(step, n - 1);
      assert forall i :: 0 <= i < n - 1 ==> (s + [step(s)])[..i] == s[..i];
      assert (s + [step(s)])[..n - 1] == s;
      s + [step(s)]
  }
}
