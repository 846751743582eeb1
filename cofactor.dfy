/**
  Cofactor expansion theory over the integers: exchanging two columns negates the
  determinant, a matrix with two equal columns has determinant 0, the determinant
  can be expanded along any column, and so the classical adjugate times the matrix
  is the determinant times the identity. This is what makes the decryption key of
  the Hill cipher the inverse of its encryption key.
*/
module Cofactor {
  import opened Sums
  import opened Matrix

  /** Two square matrices of one size with equal entries are equal. */
  lemma MatEq(a: Mat, b: Mat)
    requires SquareMat(a) && SquareMat(b) && |a| == |b|
    requires forall i, j :: 0 <= i < |a| && 0 <= j < |a| ==> a[i][j] == b[i][j]
    ensures a == b
  {
    forall i | 0 <= i < |a| ensures a[i] == b[i] {
      assert |a[i]| == |b[i]|;
    }
  }

  // ---------------------------------------------------------------- column exchanges

  /** The column that lands at position `k` when columns `c` and `c + 1` change places. */
  function Swapped(k: int, c: int): int
  {
    if k == c then c + 1 else if k == c + 1 then c else k
  }

  function SwapCols(m: Mat, c: int): (r: Mat)
    requires SquareMat(m) && 0 <= c < |m| - 1
    ensures |r| == |m| && SquareMat(r)
  {
    seq(|m|, i requires 0 <= i < |m| =>
      seq(|m|, k requires 0 <= k < |m| => m[i][Swapped(k, c)]))
  }

  /** The entries of `SwapCols(m, c)`. */
  lemma SwapEntries(m: Mat, c: int)
    requires SquareMat(m) && 0 <= c < |m| - 1
    ensures forall i, k :: 0 <= i < |m| && 0 <= k < |m| ==> SwapCols(m, c)[i][k] == m[i][Swapped(k, c)]
  {
  }

  lemma MinorSwapLow(m: Mat, c: int, j: int)
    requires SquareMat(m) && 0 <= j < c < |m| - 1
    ensures Minor(SwapCols(m, c), 0, j) == SwapCols(Minor(m, 0, j), c - 1)
  {
    SwapEntries(m, c);
    SwapEntries(Minor(m, 0, j), c - 1);
    MinorEntries(SwapCols(m, c), 0, j);
    MinorEntries(m, 0, j);
    MatEq(Minor(SwapCols(m, c), 0, j), SwapCols(Minor(m, 0, j), c - 1));
  }

  lemma MinorSwapHigh(m: Mat, c: int, j: int)
    requires SquareMat(m) && 0 <= c && c + 1 < j < |m|
    ensures Minor(SwapCols(m, c), 0, j) == SwapCols(Minor(m, 0, j), c)
  {
    SwapEntries(m, c);
    SwapEntries(Minor(m, 0, j), c);
    MinorEntries(SwapCols(m, c), 0, j);
    MinorEntries(m, 0, j);
    MatEq(Minor(SwapCols(m, c), 0, j), SwapCols(Minor(m, 0, j), c));
  }

  lemma MinorSwapPair(m: Mat, c: int)
    requires SquareMat(m) && 0 <= c < |m| - 1
    ensures Minor(SwapCols(m, c), 0, c) == Minor(m, 0, c + 1)
    ensures Minor(SwapCols(m, c), 0, c + 1) == Minor(m, 0, c)
  {
    SwapEntries(m, c);
    MinorEntries(SwapCols(m, c), 0, c);
    MinorEntries(SwapCols(m, c), 0, c + 1);
    MinorEntries(m, 0, c);
    MinorEntries(m, 0, c + 1);
    MatEq(Minor(SwapCols(m, c), 0, c), Minor(m, 0, c + 1));
    MatEq(Minor(SwapCols(m, c), 0, c + 1), Minor(m, 0, c));
  }

  /** Exchanging two neighbouring columns negates the determinant. */
  lemma {:induction false} SwapNegates(m: Mat, c: int)
    requires SquareMat(m) && 0 <= c < |m| - 1
    ensures Laplace(SwapCols(m, c)) == -Laplace(m)
    decreases |m|, 1
  {
    SwapEntries(m, c);
    var n := |m|;
    var s := SwapCols(m, c);
    var ts, us := RowTerms(m), RowTerms(s);
    forall j | 0 <= j < n && j != c && j != c + 1 ensures us[j] == -ts[j] {
      SwapTerm(m, c, j);
    }
    MinorSwapPair(m, c);
    SignNext(c);
    assert us[c] == RowTerm(s, c) && ts[c + 1] == RowTerm(m, c + 1);
    assert us[c + 1] == RowTerm(s, c + 1) && ts[c] == RowTerm(m, c);
    assert us[c] == -ts[c + 1];
    assert us[c + 1] == -ts[c];
    var neg := seq(n, j requires 0 <= j < n => -ts[j]);
    SumScale(-1, ts, neg);
    SumSwap(neg, us, c);
  }

  /** A first-row term away from the exchanged columns changes sign, by the exchange in its minor. */
  lemma {:induction false} SwapTerm(m: Mat, c: int, j: int)
    requires SquareMat(m) && 0 <= c < |m| - 1 && 0 <= j < |m| && j != c && j != c + 1
    ensures RowTerms(SwapCols(m, c))[j] == -RowTerms(m)[j]
    decreases |m|, 0
  {
    SwapEntries(m, c);
    var s, mm := SwapCols(m, c), Minor(m, 0, j);
    var c' := if j < c then c - 1 else c;
    if j < c {
      MinorSwapLow(m, c, j);
    } else {
      MinorSwapHigh(m, c, j);
    }
    var x, y := Minor(s, 0, j), SwapCols(mm, c');
    assert x == y;
    SwapNegates(mm, c');
    assert Laplace(x) == -Laplace(mm);
    assert s[0][j] == m[0][j];
    NegProduct(Sign(j) * m[0][j], Laplace(mm), Laplace(Minor(s, 0, j)));
  }

  lemma NegProduct(x: int, l: int, l': int)
    requires l' == -l
    ensures x * l' == -(x * l)
  {
  }

  /** The column that lands at position `k` when column `b` is moved left to position `t`. */
  function Moved(k: int, b: int, t: int): int
  {
    if k < t then k else if k == t then b else if k <= b then k - 1 else k
  }

  function MoveCols(m: Mat, b: int, t: int): (r: Mat)
    requires SquareMat(m) && 0 <= t <= b < |m|
    ensures |r| == |m| && SquareMat(r)
  {
    seq(|m|, i requires 0 <= i < |m| =>
      seq(|m|, k requires 0 <= k < |m| => m[i][Moved(k, b, t)]))
  }

  /** The entries of `MoveCols(m, b, t)`. */
  lemma MoveEntries(m: Mat, b: int, t: int)
    requires SquareMat(m) && 0 <= t <= b < |m|
    ensures forall i, k :: 0 <= i < |m| && 0 <= k < |m| ==> MoveCols(m, b, t)[i][k] == m[i][Moved(k, b, t)]
  {
  }

  /** Moving a column `b - t` places left is `b - t` neighbour exchanges. */
  lemma {:induction false} MoveSign(m: Mat, b: int, t: int)
    requires SquareMat(m) && 0 <= t <= b < |m|
    ensures Laplace(MoveCols(m, b, t)) == Sign(b - t) * Laplace(m)
    decreases b - t
  {
    if b == t {
      MoveEntries(m, b, t);
      MatEq(MoveCols(m, b, t), m);
      assert Sign(b - t) == 1;
      assert Laplace(MoveCols(m, b, t)) == Laplace(m);
    } else {
      var s := SwapCols(m, b - 1);
      MoveStep(m, b, t);
      MoveSign(s, b - 1, t);
      SwapNegates(m, b - 1);
      SignNext(b - 1 - t);
      NegProduct(Sign(b - 1 - t), Laplace(m), Laplace(s));
      assert Laplace(MoveCols(m, b, t)) == Sign(b - 1 - t) * Laplace(s);
      assert Laplace(MoveCols(m, b, t)) == -(Sign(b - 1 - t) * Laplace(m));
    }
  }

  /** Moving column `b` to `t` is exchanging columns `b - 1` and `b`, then moving column `b - 1` to `t`. */
  lemma MoveStep(m: Mat, b: int, t: int)
    requires SquareMat(m) && 0 <= t < b < |m|
    ensures MoveCols(m, b, t) == MoveCols(SwapCols(m, b - 1), b - 1, t)
  {
    MoveEntries(m, b, t);
    SwapEntries(m, b - 1);
    MoveEntries(SwapCols(m, b - 1), b - 1, t);
    MatEq(MoveCols(m, b, t), MoveCols(SwapCols(m, b - 1), b - 1, t));
  }

  /** A matrix with two equal columns has determinant 0. */
  lemma EqualColumns(m: Mat, a: int, b: int)
    requires SquareMat(m) && 0 <= a < b < |m|
    requires forall i :: 0 <= i < |m| ==> m[i][a] == m[i][b]
    ensures Laplace(m) == 0
  {
    MoveEntries(m, b, a + 1);
    SwapEntries(MoveCols(m, b, a + 1), a);
    var mv := MoveCols(m, b, a + 1);
    MatEq(SwapCols(mv, a), mv);
    SwapNegates(mv, a);
    MoveSign(m, b, a + 1);
  }

  // ---------------------------------------------------------------- column expansion

  /** One entry of a minor, as `MinorEntries` states for all of them. */
  lemma MinorAt(m: Mat, r: int, c: int, i: int, j: int)
    requires SquareMat(m) && 0 <= r < |m| && 0 <= c < |m|
    requires 0 <= i < |m| - 1 && 0 <= j < |m| - 1
    ensures Minor(m, r, c)[i][j] == m[Skip(i, r)][Skip(j, c)]
  {
    MinorEntries(m, r, c);
  }

  lemma MinorMinorRow(m: Mat, p: int, q: int)
    requires SquareMat(m) && 0 <= p < |m| - 1 && 0 <= q < |m| - 1
    ensures Minor(Minor(m, 0, q + 1), p, 0) == Minor(Minor(m, 0, 0), p, q)
  {
    var a, b := Minor(Minor(m, 0, q + 1), p, 0), Minor(Minor(m, 0, 0), p, q);
    forall i, j | 0 <= i < |a| && 0 <= j < |a| ensures a[i][j] == b[i][j] {
      MinorAt(Minor(m, 0, q + 1), p, 0, i, j);
      MinorAt(m, 0, q + 1, Skip(i, p), j + 1);
      MinorAt(Minor(m, 0, 0), p, q, i, j);
      MinorAt(m, 0, 0, Skip(i, p), Skip(j, q));
    }
    MatEq(a, b);
  }

  lemma MinorMinorCol(m: Mat, p: int, q: int)
    requires SquareMat(m) && 0 <= p < |m| - 1 && 0 <= q < |m| - 1
    ensures Minor(Minor(m, p + 1, 0), 0, q) == Minor(Minor(m, 0, 0), p, q)
  {
    var a, b := Minor(Minor(m, p + 1, 0), 0, q), Minor(Minor(m, 0, 0), p, q);
    forall i, j | 0 <= i < |a| && 0 <= j < |a| ensures a[i][j] == b[i][j] {
      MinorAt(Minor(m, p + 1, 0), 0, q, i, j);
      MinorAt(m, p + 1, 0, i + 1, Skip(j, q));
      MinorAt(Minor(m, 0, 0), p, q, i, j);
      MinorAt(m, 0, 0, Skip(i, p), Skip(j, q));
    }
    MatEq(a, b);
  }

  /**
    The products that both expansions of a determinant add up, beyond the corner term:
    entry (p, q) pairs entry (0, q + 1) with entry (p + 1, 0).
  */
  function Table(m: Mat): (h: seq<seq<int>>)
    requires SquareMat(m) && |m| >= 1
    ensures |h| == |m| - 1 && Rect(h, |m| - 1)
  {
    seq(|m| - 1, p requires 0 <= p < |m| - 1 =>
      seq(|m| - 1, q requires 0 <= q < |m| - 1 => Pairing(m, p, q)))
  }

  lemma TableEntry(m: Mat, p: int, q: int)
    requires SquareMat(m) && 0 <= p < |m| - 1 && 0 <= q < |m| - 1
    ensures Table(m)[p][q] == Pairing(m, p, q)
  {
  }

  /** One entry of `Table`. */
  function Pairing(m: Mat, p: int, q: int): int
    requires SquareMat(m) && 0 <= p < |m| - 1 && 0 <= q < |m| - 1
  {
    (Sign(q + 1) * m[0][q + 1]) * (Sign(p) * m[p + 1][0] * Laplace(Minor(Minor(m, 0, 0), p, q)))
  }

  /** Entry (p, q) of the table is a term of the first-column expansion of minor (0, q + 1). */
  lemma RowSideEntry(m: Mat, p: int, q: int)
    requires SquareMat(m) && 0 <= p < |m| - 1 && 0 <= q < |m| - 1
    ensures Pairing(m, p, q) == (Sign(q + 1) * m[0][q + 1]) * ColTerms(Minor(m, 0, q + 1), 0)[p]
  {
    var a := Minor(m, 0, q + 1);
    MinorMinorRow(m, p, q);
    MinorEntries(m, 0, q + 1);
    var l := Laplace(Minor(Minor(m, 0, 0), p, q));
    assert a[p][0] == m[p + 1][0];
    assert ColTerms(a, 0)[p] == Sign(p) * m[p + 1][0] * l;
  }

  lemma RowSide(m: Mat, q: int)
    requires SquareMat(m) && 0 <= q < |m| - 1
    requires Sum(ColTerms(Minor(m, 0, q + 1), 0)) == Laplace(Minor(m, 0, q + 1))
    ensures RowTerms(m)[q + 1] == Sum(Column(Table(m), |m| - 1, q))
  {
    var a := Minor(m, 0, q + 1);
    var x := Sign(q + 1) * m[0][q + 1];
    var col := Column(Table(m), |m| - 1, q);
    forall p | 0 <= p < |m| - 1 ensures col[p] == x * ColTerms(a, 0)[p] {
      TableEntry(m, p, q);
      RowSideEntry(m, p, q);
    }
    SumScale(x, ColTerms(a, 0), col);
    assert RowTerms(m)[q + 1] == RowTerm(m, q + 1);
  }

  lemma Rearrange(sp: int, sq: int, a: int, b: int, l: int)
    ensures ((-sq) * a) * (sp * b * l) == ((-sp) * b) * (sq * a * l)
  {
  }

  /** Entry (p, q) of the table is a term of the first-row expansion of minor (p + 1, 0). */
  lemma ColSideEntry(m: Mat, p: int, q: int)
    requires SquareMat(m) && 0 <= p < |m| - 1 && 0 <= q < |m| - 1
    ensures Pairing(m, p, q) == (Sign(p + 1) * m[p + 1][0]) * RowTerms(Minor(m, p + 1, 0))[q]
  {
    var b := Minor(m, p + 1, 0);
    MinorEntries(m, p + 1, 0);
    MinorMinorCol(m, p, q);
    SignNext(p);
    SignNext(q);
    assert RowTerms(b)[q] == RowTerm(b, q);
    Rearrange(Sign(p), Sign(q), m[0][q + 1], m[p + 1][0], Laplace(Minor(b, 0, q)));
  }

  lemma ColSide(m: Mat, p: int)
    requires SquareMat(m) && 0 <= p < |m| - 1
    ensures ColTerms(m, 0)[p + 1] == Sum(Table(m)[p])
  {
    var b := Minor(m, p + 1, 0);
    var y := Sign(p + 1) * m[p + 1][0];
    var row := Table(m)[p];
    forall q | 0 <= q < |m| - 1 ensures row[q] == y * RowTerms(b)[q] {
      TableEntry(m, p, q);
      ColSideEntry(m, p, q);
    }
    SumScale(y, RowTerms(b), row);
    assert ColTerms(m, 0)[p + 1] == ColTerm(m, p + 1, 0);
  }

  /** Expanding along the first column gives the same determinant as along the first row. */
  lemma {:induction false} ColumnZero(m: Mat)
    requires SquareMat(m) && |m| >= 1
    ensures Sum(ColTerms(m, 0)) == Laplace(m)
    decreases |m|
  {
    var n := |m|;
    var cs, rs := ColTerms(m, 0), RowTerms(m);
    assert cs[0] == ColTerm(m, 0, 0) == RowTerm(m, 0) == rs[0];
    if n == 1 {
      SumEq(cs, rs);
    } else {
      var h, k := Table(m), n - 1;
      assert Sum(rs[1..]) == Sum(ColTotals(h, k)) by {
        forall q | 0 <= q < k ensures rs[q + 1] == ColTotals(h, k)[q] {
          ColumnZero(Minor(m, 0, q + 1));
          RowSide(m, q);
        }
        SumEq(rs[1..], ColTotals(h, k));
      }
      assert Sum(cs[1..]) == Sum(RowTotals(h)) by {
        forall p | 0 <= p < k ensures cs[p + 1] == RowTotals(h)[p] {
          ColSide(m, p);
        }
        SumEq(cs[1..], RowTotals(h));
      }
      SumTable(h, k);
      SumFirst(cs);
      SumFirst(rs);
    }
  }

  lemma MinorMoved(m: Mat, c: int, i: int)
    requires SquareMat(m) && 0 <= c < |m| && 0 <= i < |m|
    ensures Minor(MoveCols(m, c, 0), i, 0) == Minor(m, i, c)
  {
    MoveEntries(m, c, 0);
    MinorEntries(MoveCols(m, c, 0), i, 0);
    MinorEntries(m, i, c);
    MatEq(Minor(MoveCols(m, c, 0), i, 0), Minor(m, i, c));
  }

  lemma SignSwap(sa: int, sb: int, x: int, l: int)
    ensures (sa * sb) * x * l == sb * (sa * x * l)
  {
  }

  /** A term of column `c` is a term of column 0 once column `c` is moved to the front, up to the sign of `c`. */
  lemma MovedTerm(m: Mat, c: int, i: int)
    requires SquareMat(m) && 0 <= c < |m| && 0 <= i < |m|
    ensures ColTerms(m, c)[i] == Sign(c) * ColTerms(MoveCols(m, c, 0), 0)[i]
  {
    var mv := MoveCols(m, c, 0);
    MoveEntries(m, c, 0);
    MinorMoved(m, c, i);
    SignAdd(i, c);
    assert ColTerms(m, c)[i] == ColTerm(m, i, c);
    assert ColTerms(mv, 0)[i] == ColTerm(mv, i, 0);
    assert mv[i][0] == m[i][c];
    SignSwap(Sign(i), Sign(c), m[i][c], Laplace(Minor(m, i, c)));
  }

  lemma SignTwice(s: int, x: int)
    requires s == 1 || s == -1
    ensures s * (s * x) == x
  {
  }

  /** The determinant can be expanded along any column. */
  lemma ColumnExpansion(m: Mat, c: int)
    requires SquareMat(m) && 0 <= c < |m|
    ensures Sum(ColTerms(m, c)) == Laplace(m)
  {
    var mv := MoveCols(m, c, 0);
    var cs, zs := ColTerms(m, c), ColTerms(mv, 0);
    forall i | 0 <= i < |m| ensures cs[i] == Sign(c) * zs[i] {
      MovedTerm(m, c, i);
    }
    SumScale(Sign(c), zs, cs);
    ColumnZero(mv);
    MoveSign(m, c, 0);
    SignTwice(Sign(c), Laplace(m));
  }

  // ---------------------------------------------------------------- adjugate

  /** The matrix with column `i` replaced by a copy of column `k`. */
  function ReplaceCol(m: Mat, i: int, k: int): (r: Mat)
    requires SquareMat(m) && 0 <= i < |m| && 0 <= k < |m|
    ensures |r| == |m| && SquareMat(r)
  {
    seq(|m|, a requires 0 <= a < |m| =>
      seq(|m|, b requires 0 <= b < |m| => if b == i then m[a][k] else m[a][b]))
  }

  /** The entries of `ReplaceCol(m, i, k)`. */
  lemma ReplaceEntries(m: Mat, i: int, k: int)
    requires SquareMat(m) && 0 <= i < |m| && 0 <= k < |m|
    ensures forall a, b :: 0 <= a < |m| && 0 <= b < |m| ==> ReplaceCol(m, i, k)[a][b] == if b == i then m[a][k] else m[a][b]
  {
  }

  lemma MinorReplaced(m: Mat, i: int, k: int, j: int)
    requires SquareMat(m) && 0 <= i < |m| && 0 <= k < |m| && 0 <= j < |m|
    ensures Minor(ReplaceCol(m, i, k), j, i) == Minor(m, j, i)
  {
    ReplaceEntries(m, i, k);
    MinorEntries(ReplaceCol(m, i, k), j, i);
    MinorEntries(m, j, i);
    MatEq(Minor(ReplaceCol(m, i, k), j, i), Minor(m, j, i));
  }

  lemma Commute(s: int, l: int, a: int)
    ensures (s * l) * a == s * a * l
  {
  }

  /** A term of the product of the adjugate with the matrix is a column-`i` term of the replaced matrix. */
  lemma AdjugateTerm(m: Mat, i: int, k: int, j: int)
    requires SquareMat(m) && 0 <= i < |m| && 0 <= k < |m| && 0 <= j < |m|
    ensures ProductTerms(Adjugate(m), m, i, k)[j] == ColTerms(ReplaceCol(m, i, k), i)[j]
  {
    var r := ReplaceCol(m, i, k);
    ReplaceEntries(m, i, k);
    MinorReplaced(m, i, k, j);
    assert ColTerms(r, i)[j] == ColTerm(r, j, i);
    assert Adjugate(m)[i][j] == Sign(i + j) * Laplace(Minor(m, j, i));
    Commute(Sign(i + j), Laplace(Minor(m, j, i)), m[j][k]);
  }

  /** Entry (i, k) of the adjugate times the matrix expands the matrix with column `i` replaced by column `k`. */
  lemma ProductIsReplaced(m: Mat, i: int, k: int)
    requires SquareMat(m) && 0 <= i < |m| && 0 <= k < |m|
    ensures Sum(ProductTerms(Adjugate(m), m, i, k)) == Laplace(ReplaceCol(m, i, k))
  {
    var r := ReplaceCol(m, i, k);
    var ps, cs := ProductTerms(Adjugate(m), m, i, k), ColTerms(r, i);
    forall j | 0 <= j < |m| ensures ps[j] == cs[j] {
      AdjugateTerm(m, i, k, j);
    }
    SumEq(ps, cs);
    ColumnExpansion(r, i);
  }

  /** Replacing a column by itself changes nothing; by another column, it makes two columns equal. */
  lemma ReplacedDet(m: Mat, i: int, k: int)
    requires SquareMat(m) && 0 <= i < |m| && 0 <= k < |m|
    ensures Laplace(ReplaceCol(m, i, k)) == if i == k then Laplace(m) else 0
  {
    var r := ReplaceCol(m, i, k);
    ReplaceEntries(m, i, k);
    if i == k {
      MatEq(r, m);
    } else if i < k {
      EqualColumns(r, i, k);
    } else {
      EqualColumns(r, k, i);
    }
  }

  /**
    The classical adjugate times the matrix is the determinant times the identity:
    entry (i, k) of the product is the determinant on the diagonal and 0 elsewhere.
  */
  lemma AdjugateTimes(m: Mat, i: int, k: int)
    requires SquareMat(m) && 0 <= i < |m| && 0 <= k < |m|
    ensures Sum(ProductTerms(Adjugate(m), m, i, k)) == if i == k then Laplace(m) else 0
  {
    ProductIsReplaced(m, i, k);
    ReplacedDet(m, i, k);
  }
}
