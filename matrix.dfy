/**
  The integer matrices of the Hill cipher: `detNxN` (Laplace expansion along the
  first row, with the 1x1 and 2x2 cases written out), `adjugateNxN`,
  `matVecMulN` and the key layout of `hillDeterminant`.
*/
module Matrix {
  import opened Modular
  import opened Sums

  type Mat = seq<seq<int>>

  /** Every row is as long as the matrix is tall. */
  predicate SquareMat(m: Mat)
  {
    forall i :: 0 <= i < |m| ==> |m[i]| == |m|
  }

  /** Position `i` of a sequence with index `k` removed, as a position of the original. */
  function Skip(i: int, k: int): int
  {
    if i < k then i else i + 1
  }

  /** `[...s.slice(0, k), ...s.slice(k + 1)]`, or `s.filter((_, x) => x !== k)`: `s` without index `k`. */
  function RemoveAt<T>(s: seq<T>, k: int): (r: seq<T>)
    requires 0 <= k < |s|
    ensures |r| == |s| - 1
    ensures forall i :: 0 <= i < |r| ==> r[i] == s[Skip(i, k)]
  {
    s[..k] + s[k + 1..]
  }

  /** The matrix without row `r` and column `c`. */
  function Minor(m: Mat, r: int, c: int): (mm: Mat)
    requires SquareMat(m) && 0 <= r < |m| && 0 <= c < |m|
    ensures |mm| == |m| - 1 && SquareMat(mm)
  {
    var rows := RemoveAt(m, r);
    seq(|rows|, i requires 0 <= i < |rows| => RemoveAt(rows[i], c))
  }

  /** Entry (i, j) of a minor is the entry of the matrix that is left there once row `r` and column `c` are gone. */
  lemma MinorEntries(m: Mat, r: int, c: int)
    requires SquareMat(m) && 0 <= r < |m| && 0 <= c < |m|
    ensures forall i, j :: 0 <= i < |m| - 1 && 0 <= j < |m| - 1 ==> Minor(m, r, c)[i][j] == m[Skip(i, r)][Skip(j, c)]
  {
  }

  /** `(k % 2 === 0 ? 1 : -1)`. */
  function Sign(k: int): (s: int)
    ensures s == 1 || s == -1
  {
    if k % 2 == 0 then 1 else -1
  }

  lemma SignNext(k: int)
    ensures Sign(k + 1) == -Sign(k)
  {
  }

  lemma SignAdd(a: int, b: int)
    ensures Sign(a + b) == Sign(a) * Sign(b)
  {
    var qa, qb := a / 2, b / 2;
    assert a == 2 * qa + a % 2 && b == 2 * qb + b % 2;
    if a % 2 == 1 && b % 2 == 1 {
      ModUnique(a + b, 2, qa + qb + 1, 0);
    } else {
      ModUnique(a + b, 2, qa + qb, a % 2 + b % 2);
    }
  }

  // ---------------------------------------------------------------- determinant

  /** `detNxN`: 1x1 and 2x2 written out, otherwise expansion along row 0 (the empty matrix gives 0). */
  function Det(m: Mat): int
    requires SquareMat(m)
    decreases |m|, 1
  {
    if |m| == 1 then m[0][0]
    else if |m| == 2 then m[0][0] * m[1][1] - m[0][1] * m[1][0]
    else Sum(DetTerms(m))
  }

  /** The terms `sign(j) * m[0][j] * detNxN(minor)` that the loop of `detNxN` adds up. */
  function DetTerms(m: Mat): (ts: seq<int>)
    requires SquareMat(m)
    decreases |m|, 0
  {
    seq(|m|, j requires 0 <= j < |m| => Sign(j) * m[0][j] * Det(Minor(m, 0, j)))
  }

  /**
    The determinant as the textbook defines it by cofactor expansion along the first
    row, with determinant 1 for the empty matrix.
  */
  function Laplace(m: Mat): int
    requires SquareMat(m)
    decreases |m|, 2
  {
    if |m| == 0 then 1 else Sum(RowTerms(m))
  }

  /**
    The cofactor terms of the first row. Each term is a function of its own, so that
    the products inside it come into a proof only where that proof names the term.
  */
  function RowTerms(m: Mat): (ts: seq<int>)
    requires SquareMat(m)
    ensures |ts| == |m|
    decreases |m|, 1
  {
    seq(|m|, j requires 0 <= j < |m| => RowTerm(m, j))
  }

  function RowTerm(m: Mat, j: int): int
    requires SquareMat(m) && 0 <= j < |m|
    decreases |m|, 0
  {
    Sign(j) * m[0][j] * Laplace(Minor(m, 0, j))
  }

  /** The cofactor terms of column `c`. */
  function ColTerms(m: Mat, c: int): (ts: seq<int>)
    requires SquareMat(m) && 0 <= c < |m|
    ensures |ts| == |m|
  {
    seq(|m|, i requires 0 <= i < |m| => ColTerm(m, i, c))
  }

  function ColTerm(m: Mat, i: int, c: int): int
    requires SquareMat(m) && 0 <= i < |m| && 0 <= c < |m|
  {
    Sign(i + c) * m[i][c] * Laplace(Minor(m, i, c))
  }

  /** On every non-empty matrix `detNxN` computes the textbook determinant. */
  lemma {:induction false} DetIsLaplace(m: Mat)
    requires SquareMat(m) && |m| >= 1
    ensures Det(m) == Laplace(m)
    decreases |m|
  {
    var n := |m|;
    var ts := RowTerms(m);
    if n == 1 {
      LaplaceOne(m);
    } else if n == 2 {
      var a, b := Minor(m, 0, 0), Minor(m, 0, 1);
      MinorEntries(m, 0, 0);
      MinorEntries(m, 0, 1);
      LaplaceOne(a);
      LaplaceOne(b);
      assert ts[0] == RowTerm(m, 0) && ts[1] == RowTerm(m, 1);
      assert ts[0] == m[0][0] * m[1][1] && ts[1] == -(m[0][1] * m[1][0]);
      SumFirst(ts);
      SumOne(ts[1..], 0);
    } else {
      forall j | 0 <= j < n ensures DetTerms(m)[j] == ts[j] {
        assert ts[j] == RowTerm(m, j);
        DetIsLaplace(Minor(m, 0, j));
      }
      SumEq(DetTerms(m), ts);
    }
  }

  /** The determinant of a 1x1 matrix is its entry. */
  lemma LaplaceOne(m: Mat)
    requires SquareMat(m) && |m| == 1
    ensures Laplace(m) == m[0][0]
  {
    assert Minor(m, 0, 0) == [];
    assert Laplace(Minor(m, 0, 0)) == 1;
    var ts := RowTerms(m);
    assert ts[0] == RowTerm(m, 0) == Sign(0) * m[0][0] * 1;
    SumOne(ts, 0);
  }

  // ---------------------------------------------------------------- adjugate

  /** `adjugateNxN` as written: entry (i, j) is `sign(i + j) * detNxN(minor_ji)`. */
  function AdjugateAsWritten(m: Mat): (adj: Mat)
    requires SquareMat(m)
    ensures |adj| == |m| && SquareMat(adj)
  {
    seq(|m|, i requires 0 <= i < |m| =>
      seq(|m|, j requires 0 <= j < |m| => Sign(i + j) * Det(Minor(m, j, i))))
  }

  /** The classical adjugate: entry (i, j) is the cofactor of entry (j, i). */
  function Adjugate(m: Mat): (adj: Mat)
    requires SquareMat(m)
    ensures |adj| == |m| && SquareMat(adj)
    ensures forall i, j :: 0 <= i < |m| && 0 <= j < |m| ==> adj[i][j] == Sign(i + j) * Laplace(Minor(m, j, i))
  {
    seq(|m|, i requires 0 <= i < |m| =>
      seq(|m|, j requires 0 <= j < |m| => Sign(i + j) * Laplace(Minor(m, j, i))))
  }

  /** From 2x2 on, the minors are not empty and `adjugateNxN` is the classical adjugate. */
  lemma AdjugateAgrees(m: Mat)
    requires SquareMat(m) && |m| >= 2
    ensures AdjugateAsWritten(m) == Adjugate(m)
  {
    var n := |m|;
    forall i, j | 0 <= i < n && 0 <= j < n
      ensures AdjugateAsWritten(m)[i][j] == Adjugate(m)[i][j]
    {
      DetIsLaplace(Minor(m, j, i));
    }
    forall i | 0 <= i < n ensures AdjugateAsWritten(m)[i] == Adjugate(m)[i] {
    }
  }

  /**
    For a 1x1 key the only minor is the empty matrix, for which `detNxN` gives 0,
    so `adjugateNxN([[a]])` is `[[0]]` instead of `[[1]]`.
  */
  lemma AdjugateOfOne(a: int)
    ensures AdjugateAsWritten([[a]]) == [[0]]
    ensures Adjugate([[a]]) == [[1]]
  {
    var m := [[a]];
    assert Minor(m, 0, 0) == [];
    assert DetTerms([]) == [];
    assert Det(Minor(m, 0, 0)) == 0;
    assert AdjugateAsWritten(m)[0] == [0];
    assert Adjugate(m)[0] == [1];
  }

  // ---------------------------------------------------------------- products

  /** The products `row[j] * v[j]`. */
  function DotTerms(row: seq<int>, v: seq<int>): (ts: seq<int>)
    requires |row| == |v|
    ensures |ts| == |row| && forall j :: 0 <= j < |row| ==> ts[j] == row[j] * v[j]
  {
    seq(|row|, j requires 0 <= j < |row| => row[j] * v[j])
  }

  /** `row.reduce((sum, val, j) => sum + val * v[j], 0)`. */
  function Dot(row: seq<int>, v: seq<int>): int
    requires |row| == |v|
  {
    Sum(DotTerms(row, v))
  }

  /** `matVecMulN`: each row's dot product with `v`, reduced by `posMod(_, 26)`. */
  function MatVecMul(m: Mat, v: seq<int>): (r: seq<int>)
    requires forall i :: 0 <= i < |m| ==> |m[i]| == |v|
    ensures |r| == |m| && forall i :: 0 <= i < |m| ==> 0 <= r[i] < 26 && r[i] == Dot(m[i], v) % 26
  {
    seq(|m|, i requires 0 <= i < |m| => PosMod(Dot(m[i], v), 26))
  }

  /** The terms `a[i][j] * b[j][k]` of entry (i, k) of the integer product of two square matrices. */
  function ProductTerms(a: Mat, b: Mat, i: int, k: int): (ts: seq<int>)
    requires SquareMat(a) && SquareMat(b) && |a| == |b| && 0 <= i < |a| && 0 <= k < |a|
    ensures |ts| == |a| && forall j :: 0 <= j < |a| ==> ts[j] == a[i][j] * b[j][k]
  {
    seq(|a|, j requires 0 <= j < |a| => a[i][j] * b[j][k])
  }

  // ---------------------------------------------------------------- key layout

  /** `Array.from({ length: n }, (_, i) => flatKey.slice(i * n, (i + 1) * n))`. */
  function KeyMatrix(flatKey: seq<int>, n: nat): (m: Mat)
    requires |flatKey| == n * n
    ensures |m| == n && SquareMat(m)
  {
    seq(n, i requires 0 <= i < n => RowSlice(flatKey, n, i))
  }

  /** `flatKey.slice(i * n, (i + 1) * n)`. */
  function RowSlice(flatKey: seq<int>, n: nat, i: int): (row: seq<int>)
    requires |flatKey| == n * n && 0 <= i < n
    ensures |row| == n
  {
    RowBounds(n, i);
    flatKey[i * n..i * n + n]
  }

  /** The rows of a table, laid end to end. */
  function Concat(rows: seq<seq<int>>): seq<int>
  {
    if rows == [] then [] else Concat(rows[..|rows| - 1]) + rows[|rows| - 1]
  }

  /** Laying the rows of the key matrix end to end gives back the flat key: no entry is lost or moved. */
  lemma KeyMatrixFlat(flatKey: seq<int>, n: nat)
    requires |flatKey| == n * n
    ensures Concat(KeyMatrix(flatKey, n)) == flatKey
  {
    var m := KeyMatrix(flatKey, n);
    KeyRowsFlat(flatKey, n, n);
    assert m[..n] == m;
    assert flatKey[..n * n] == flatKey;
  }

  lemma {:induction false} KeyRowsFlat(flatKey: seq<int>, n: nat, k: nat)
    requires |flatKey| == n * n && k <= n
    ensures k * n <= n * n
    ensures Concat(KeyMatrix(flatKey, n)[..k]) == flatKey[..k * n]
    decreases k
  {
    var m := KeyMatrix(flatKey, n);
    if k == 0 {
      assert m[..0] == [];
    } else {
      KeyRowsFlat(flatKey, n, k - 1);
      RowBounds(n, k - 1);
      assert (k - 1) * n + n == k * n;
      assert m[..k][..k - 1] == m[..k - 1];
      assert m[k - 1] == flatKey[(k - 1) * n..k * n];
      assert flatKey[..k * n] == flatKey[..(k - 1) * n] + flatKey[(k - 1) * n..k * n];
    }
  }

  lemma RowBounds(n: nat, i: int)
    requires 0 <= i < n
    ensures 0 <= i * n && i * n + n <= n * n
  {
    var k := n - 1 - i;
    assert k >= 0;
    assert k * n >= 0;
    assert n * n == (i + k + 1) * n;
    assert (i + k + 1) * n == i * n + k * n + n;
  }

  /** `hillDeterminant(flatKey, n)`: the determinant of the key matrix, reduced to [0, 26). */
  function HillDeterminant(flatKey: seq<int>, n: nat): (d: int)
    requires |flatKey| == n * n
    ensures 0 <= d < 26
    ensures d == Det(KeyMatrix(flatKey, n)) % 26
  {
    PosMod(Det(KeyMatrix(flatKey, n)), 26)
  }
}
