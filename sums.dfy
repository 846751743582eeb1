/**
  Sums of integer sequences, the `reduce((sum, x) => sum + x, 0)` of the cipher
  library, and the rearrangements of sums that the determinant theory needs.
*/
module Sums {
  import opened Modular

  /** Left-to-right sum, as a `reduce` starting from 0 computes it. */
  function Sum(s: seq<int>): int
  {
    if s == [] then 0 else Sum(s[..|s| - 1]) + s[|s| - 1]
  }

  lemma {:induction false} SumAppend(a: seq<int>, b: seq<int>)
    ensures Sum(a + b) == Sum(a) + Sum(b)
    decreases |b|
  {
    if b == [] {
      assert a + b == a;
    } else {
      var b' := b[..|b| - 1];
      assert (a + b)[..|a + b| - 1] == a + b';
      SumAppend(a, b');
    }
  }

  /** The sum is the first element plus the sum of the rest. */
  lemma SumFirst(s: seq<int>)
    requires |s| > 0
    ensures Sum(s) == s[0] + Sum(s[1..])
  {
    assert s == [s[0]] + s[1..];
    SumAppend([s[0]], s[1..]);
    assert [s[0]][..0] == [];
    assert Sum([s[0]]) == s[0];
  }

  /** Sums of pointwise equal sequences are equal; stated for sequences built apart. */
  lemma SumEq(s: seq<int>, t: seq<int>)
    requires |s| == |t| && forall k :: 0 <= k < |s| ==> s[k] == t[k]
    ensures Sum(s) == Sum(t)
  {
    assert s == t;
  }

  /** Summing a pointwise sum: Σ (a + b) == Σ a + Σ b. */
  lemma {:induction false} SumPlus(a: seq<int>, b: seq<int>, c: seq<int>)
    requires |a| == |b| == |c| && forall k :: 0 <= k < |c| ==> c[k] == a[k] + b[k]
    ensures Sum(c) == Sum(a) + Sum(b)
    decreases |c|
  {
    if c != [] {
      var n := |c| - 1;
      SumPlus(a[..n], b[..n], c[..n]);
    }
  }

  /** A common factor comes out of the sum: Σ (x * s) == x * Σ s. */
  lemma {:induction false} SumScale(x: int, s: seq<int>, t: seq<int>)
    requires |s| == |t| && forall k :: 0 <= k < |t| ==> t[k] == x * s[k]
    ensures Sum(t) == x * Sum(s)
    decreases |t|
  {
    if t != [] {
      var n := |t| - 1;
      SumScale(x, s[..n], t[..n]);
      assert Sum(t) == x * Sum(s[..n]) + x * s[n];
    }
  }

  /** A sequence of zeros sums to 0. */
  lemma {:induction false} SumZero(s: seq<int>)
    requires forall k :: 0 <= k < |s| ==> s[k] == 0
    ensures Sum(s) == 0
    decreases |s|
  {
    if s != [] {
      SumZero(s[..|s| - 1]);
    }
  }

  /** A sequence that is zero except at index `i` sums to its element at `i`. */
  lemma SumOne(s: seq<int>, i: int)
    requires 0 <= i < |s| && forall k :: 0 <= k < |s| && k != i ==> s[k] == 0
    ensures Sum(s) == s[i]
  {
    assert s == s[..i] + [s[i]] + s[i + 1..];
    SumAppend(s[..i] + [s[i]], s[i + 1..]);
    SumAppend(s[..i], [s[i]]);
    SumZero(s[..i]);
    SumZero(s[i + 1..]);
    assert [s[i]][..0] == [];
  }

  /** Exchanging two neighbouring elements does not change the sum. */
  lemma SumSwap(s: seq<int>, t: seq<int>, c: int)
    requires 0 <= c < |s| - 1 && |t| == |s|
    requires t[c] == s[c + 1] && t[c + 1] == s[c]
    requires forall k :: 0 <= k < |s| && k != c && k != c + 1 ==> t[k] == s[k]
    ensures Sum(t) == Sum(s)
  {
    var pre, post := s[..c], s[c + 2..];
    assert s == pre + [s[c], s[c + 1]] + post;
    assert t == pre + [s[c + 1], s[c]] + post;
    SumAppend(pre + [s[c], s[c + 1]], post);
    SumAppend(pre, [s[c], s[c + 1]]);
    SumAppend(pre + [s[c + 1], s[c]], post);
    SumAppend(pre, [s[c + 1], s[c]]);
    assert [s[c], s[c + 1]][..1] == [s[c]];
    assert [s[c + 1], s[c]][..1] == [s[c + 1]];
    assert [s[c]][..0] == [] && [s[c + 1]][..0] == [];
  }

  // ---------------------------------------------------------------- tables

  /** Every row of the table has `k` entries. */
  predicate Rect(t: seq<seq<int>>, k: nat)
  {
    forall i :: 0 <= i < |t| ==> |t[i]| == k
  }

  /** The sum of each row. */
  function RowTotals(t: seq<seq<int>>): (r: seq<int>)
    ensures |r| == |t| && forall i :: 0 <= i < |t| ==> r[i] == Sum(t[i])
  {
    seq(|t|, i requires 0 <= i < |t| => Sum(t[i]))
  }

  /** Column `j` of a table whose rows have `k` entries. */
  function Column(t: seq<seq<int>>, k: nat, j: int): (col: seq<int>)
    requires Rect(t, k) && 0 <= j < k
    ensures |col| == |t| && forall i :: 0 <= i < |t| ==> col[i] == t[i][j]
  {
    seq(|t|, i requires 0 <= i < |t| => t[i][j])
  }

  /** The sum of each column. */
  function ColTotals(t: seq<seq<int>>, k: nat): (r: seq<int>)
    requires Rect(t, k)
    ensures |r| == k && forall j :: 0 <= j < k ==> r[j] == Sum(Column(t, k, j))
  {
    seq(k, j requires 0 <= j < k => Sum(Column(t, k, j)))
  }

  /** Summing a table row by row or column by column gives the same total. */
  lemma {:induction false} SumTable(t: seq<seq<int>>, k: nat)
    requires Rect(t, k)
    ensures Sum(RowTotals(t)) == Sum(ColTotals(t, k))
    decreases |t|
  {
    if t == [] {
      SumZero(ColTotals(t, k));
    } else {
      var n := |t| - 1;
      var t' := t[..n];
      SumTable(t', k);
      assert RowTotals(t)[..n] == RowTotals(t');
      forall j | 0 <= j < k ensures ColTotals(t, k)[j] == ColTotals(t', k)[j] + t[n][j] {
        assert Column(t, k, j)[..n] == Column(t', k, j);
      }
      SumPlus(ColTotals(t', k), t[n], ColTotals(t, k));
    }
  }

  // ---------------------------------------------------------------- residues

  /** Pointwise congruent sequences have congruent sums. */
  lemma {:induction false} SumMod(s: seq<int>, t: seq<int>, m: int)
    requires m > 0 && |s| == |t| && forall k :: 0 <= k < |s| ==> s[k] % m == t[k] % m
    ensures Sum(s) % m == Sum(t) % m
    decreases |s|
  {
    if s != [] {
      var n := |s| - 1;
      SumMod(s[..n], t[..n], m);
      AddMod(Sum(s[..n]), s[n], Sum(t[..n]), t[n], m);
    }
  }

  /** Congruence is kept by addition. */
  lemma AddMod(a: int, b: int, c: int, d: int, m: int)
    requires m > 0 && a % m == c % m && b % m == d % m
    ensures (a + b) % m == (c + d) % m
  {
    var qa, qb, qc, qd := a / m, b / m, c / m, d / m;
    assert a + b == (qa + qb) * m + (a % m + b % m);
    assert c + d == (qc + qd) * m + (a % m + b % m);
    var r := (a % m + b % m) % m;
    var q := (a % m + b % m) / m;
    assert a + b == (qa + qb + q) * m + r;
    assert c + d == (qc + qd + q) * m + r;
    ModUnique(a + b, m, qa + qb + q, r);
    ModUnique(c + d, m, qc + qd + q, r);
  }
}
