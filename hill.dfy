/**
  Hill cipher on n x n keys: the flat key is laid out row by row, the key must be
  invertible modulo 26, the text is reduced to letters and padded with 'X' to a
  multiple of n, and every block of n letters is multiplied by the key matrix
  (encryption) or by adj(K) * det(K)⁻¹ mod 26 (decryption).
*/
module Hill {
  import opened Results
  import opened Text
  import opened Modular
  import opened Sums
  import opened Matrix
  import opened Cofactor

  /** One trace record: 1-based block number, input block, output block. */
  datatype Step = Step(i: nat, input: string, output: string)

  // ---------------------------------------------------------------- blocks and letters

  /** `clean.charCodeAt(i + j) - 65` for the letters of a block. */
  function Values(block: string): (v: seq<int>)
    requires AllUpper(block)
    ensures |v| == |block| && forall j :: 0 <= j < |v| ==> 0 <= v[j] < 26
  {
    seq(|block|, j requires 0 <= j < |block| => ChrOrd(block[j]); Ord(block[j]))
  }

  /** `enc.map((x) => String.fromCharCode(x + 65)).join("")`. */
  function Letters(v: seq<int>): (s: string)
    requires forall j :: 0 <= j < |v| ==> 0 <= v[j] < 26
    ensures |s| == |v| && AllUpper(s)
  {
    seq(|v|, j requires 0 <= j < |v| => Chr(v[j]))
  }

  /** Turning letters into numbers and back loses nothing, in both directions. */
  lemma LettersValues(block: string)
    requires AllUpper(block)
    ensures Letters(Values(block)) == block
  {
    forall j | 0 <= j < |block| ensures Letters(Values(block))[j] == block[j] {
      ChrOrd(block[j]);
    }
  }

  lemma ValuesLetters(v: seq<int>)
    requires forall j :: 0 <= j < |v| ==> 0 <= v[j] < 26
    ensures Values(Letters(v)) == v
  {
  }

  /** `k` copies of the letter 'X'. */
  function Xs(k: nat): (s: string)
    ensures |s| == k && forall j :: 0 <= j < k ==> s[j] == 'X'
  {
    seq(k, j => 'X')
  }

  /** The text padded with 'X' up to the next multiple of `n`. */
  function Padded(clean: string, n: nat): (p: string)
    requires n > 0
    ensures |p| % n == 0 && Whole(|p|, n) && |clean| <= |p| < |clean| + n
    ensures p[..|clean|] == clean && forall j :: |clean| <= j < |p| ==> p[j] == 'X'
  {
    var r := |clean| % n;
    var k := if r == 0 then 0 else n - r;
    PadLength(|clean|, n, k);
    WholeMod(|clean| + k, n);
    clean + Xs(k)
  }

  lemma PadLength(len: nat, n: nat, k: nat)
    requires n > 0 && k == (if len % n == 0 then 0 else n - len % n)
    ensures (len + k) % n == 0
  {
    var q := len / n;
    if len % n == 0 {
    } else {
      assert len + k == (q + 1) * n;
      ModUnique(len + k, n, q + 1, 0);
    }
  }

  /** Padding keeps letters letters. */
  lemma PaddedUpper(clean: string, n: nat)
    requires n > 0 && AllUpper(clean)
    ensures AllUpper(Padded(clean, n))
  {
  }

  /** `len` is a whole number of blocks of `n` letters: 0, n, 2n, ... */
  predicate Whole(len: int, n: int)
    requires n > 0
    decreases len
  {
    len == 0 || (len >= n && Whole(len - n, n))
  }

  /** A whole number of blocks is exactly a length that `% n` leaves no remainder of. */
  lemma {:induction false} WholeMod(len: int, n: int)
    requires n > 0 && len >= 0
    ensures Whole(len, n) <==> len % n == 0
    decreases len
  {
    if len == 0 {
    } else if len < n {
      ModUnique(len, n, 0, len);
    } else {
      WholeMod(len - n, n);
      ModShift(len - n, 1, n);
    }
  }

  /** Dropping the last block leaves one block fewer. */
  lemma DropBlock(len: int, n: int)
    requires n > 0 && len > 0 && Whole(len, n)
    ensures len >= n && Whole(len - n, n) && (len - n) / n + 1 == len / n
  {
    WholeMod(len - n, n);
    var q := (len - n) / n;
    assert len - n == q * n;
    assert len == (q + 1) * n;
    ModUnique(len, n, q + 1, 0);
  }

  /** A key that is an n x n matrix. */
  predicate KeyShape(key: Mat, n: nat)
  {
    |key| == n && SquareMat(key)
  }

  /** One block through `matVecMulN`, as letters. */
  function BlockOut(key: Mat, block: string): (c: string)
    requires SquareMat(key) && |block| == |key| && AllUpper(block)
    ensures |c| == |block| && AllUpper(c)
  {
    Letters(MatVecMul(key, Values(block)))
  }

  /** The cipher text of padded text: each block of `n` letters through the key matrix. */
  function Blocks(p: string, key: Mat, n: nat): (c: string)
    requires n > 0 && KeyShape(key, n) && AllUpper(p) && Whole(|p|, n)
    ensures |c| == |p| && AllUpper(c)
    decreases |p|
  {
    if p == [] then []
    else
      Blocks(p[..|p| - n], key, n) + BlockOut(key, p[|p| - n..])
  }

  /** The step records of the blocks, numbered from 1. */
  function Trace(p: string, key: Mat, n: nat): (ss: seq<Step>)
    requires n > 0 && KeyShape(key, n) && AllUpper(p) && Whole(|p|, n)
    decreases |p|
  {
    if p == [] then []
    else
      var pre := Trace(p[..|p| - n], key, n);
      pre + [Step(|pre| + 1, p[|p| - n..], BlockOut(key, p[|p| - n..]))]
  }

  /** The number of blocks in a whole number of blocks. */
  function Count(len: int, n: int): (k: nat)
    requires n > 0 && Whole(len, n)
    decreases len
  {
    if len == 0 then 0 else Count(len - n, n) + 1
  }

  lemma {:induction false} CountIsQuotient(len: int, n: int)
    requires n > 0 && len >= 0 && Whole(len, n)
    ensures Count(len, n) == len / n
    decreases len
  {
    if len != 0 {
      DropBlock(len, n);
      CountIsQuotient(len - n, n);
    }
  }

  /** One step record per block. */
  lemma {:induction false} TraceLength(p: string, key: Mat, n: nat)
    requires n > 0 && KeyShape(key, n) && AllUpper(p) && Whole(|p|, n)
    ensures |Trace(p, key, n)| == Count(|p|, n)
    decreases |p|
  {
    if p != [] {
      UpperParts(p, |p| - n);
      TraceLength(p[..|p| - n], key, n);
    }
  }

  // ---------------------------------------------------------------- keys

  /** `m.map((row) => row.map((v) => posMod(v * x, 26)))`. */
  function ScaleMod(a: Mat, x: int): (k: Mat)
    requires SquareMat(a)
    ensures |k| == |a| && SquareMat(k)
  {
    seq(|a|, i requires 0 <= i < |a| =>
      seq(|a|, j requires 0 <= j < |a| => PosMod(a[i][j] * x, 26)))
  }

  lemma ScaleEntries(a: Mat, x: int)
    requires SquareMat(a)
    ensures forall i, j :: 0 <= i < |a| && 0 <= j < |a| ==>
      0 <= ScaleMod(a, x)[i][j] < 26 && ScaleMod(a, x)[i][j] == (a[i][j] * x) % 26
  {
  }

  /** The decryption key: the classical adjugate scaled by the inverse determinant, mod 26. */
  function DecryptKey(m: Mat, inv: int): (k: Mat)
    requires SquareMat(m)
    ensures |k| == |m| && SquareMat(k)
  {
    ScaleMod(Adjugate(m), inv)
  }

  /** The decryption key exactly as `hill` builds it, from `adjugateNxN`. */
  function DecryptKeyAsWritten(m: Mat, inv: int): (k: Mat)
    requires SquareMat(m)
    ensures |k| == |m| && SquareMat(k)
  {
    ScaleMod(AdjugateAsWritten(m), inv)
  }

  /** From 2x2 on, the key `hill` builds is the corrected one. */
  lemma DecryptKeyAgrees(m: Mat, inv: int)
    requires SquareMat(m) && |m| >= 2
    ensures DecryptKeyAsWritten(m, inv) == DecryptKey(m, inv)
  {
    AdjugateAgrees(m);
  }

  // ---------------------------------------------------------------- block round trip

  /** Row `i` of the decryption key times the encrypted block, before any reduction of the inner sums. */
  function Weighted(a: Mat, m: Mat, v: seq<int>, inv: int, i: int): (ws: seq<int>)
    requires SquareMat(a) && SquareMat(m) && |a| == |m| == |v| && 0 <= i < |m|
    ensures |ws| == |m| && forall j :: 0 <= j < |m| ==> ws[j] == (inv * a[i][j]) * Dot(m[j], v)
  {
    seq(|m|, j requires 0 <= j < |m| => (inv * a[i][j]) * Dot(m[j], v))
  }

  lemma ReduceTerm(kd: int, w: int, c: int, d: int)
    requires 0 <= kd < 26 && 0 <= w < 26 && kd == c % 26 && w == d % 26
    ensures (kd * w) % 26 == (c * d) % 26
  {
    MulMod(c, d, 26);
    ModUnique(kd, 26, 0, kd);
    ModUnique(w, 26, 0, w);
    MulMod(kd, w, 26);
  }

  /** Reducing the key entries and the encrypted block modulo 26 does not change the result modulo 26. */
  lemma ReduceRow(a: Mat, m: Mat, v: seq<int>, inv: int, i: int)
    requires SquareMat(a) && SquareMat(m) && |a| == |m| == |v| && 0 <= i < |m|
    ensures Dot(ScaleMod(a, inv)[i], MatVecMul(m, v)) % 26 == Sum(Weighted(a, m, v, inv, i)) % 26
  {
    var kd, w := ScaleMod(a, inv), MatVecMul(m, v);
    var ts, ws := DotTerms(kd[i], w), Weighted(a, m, v, inv, i);
    ScaleEntries(a, inv);
    forall j | 0 <= j < |m| ensures ts[j] % 26 == ws[j] % 26 {
      assert a[i][j] * inv == inv * a[i][j];
      ReduceTerm(kd[i][j], w[j], inv * a[i][j], Dot(m[j], v));
    }
    SumMod(ts, ws, 26);
  }

  /** The double sum behind `Weighted`: entry (j, k) is `inv * a[i][j] * m[j][k] * v[k]`. */
  function Spread(a: Mat, m: Mat, v: seq<int>, inv: int, i: int): (t: seq<seq<int>>)
    requires SquareMat(a) && SquareMat(m) && |a| == |m| == |v| && 0 <= i < |m|
    ensures |t| == |m| && Rect(t, |m|)
    ensures forall j, k :: 0 <= j < |m| && 0 <= k < |m| ==> t[j][k] == (inv * a[i][j]) * (m[j][k] * v[k])
  {
    seq(|m|, j requires 0 <= j < |m| =>
      seq(|m|, k requires 0 <= k < |m| => (inv * a[i][j]) * (m[j][k] * v[k])))
  }

  lemma SpreadRows(a: Mat, m: Mat, v: seq<int>, inv: int, i: int)
    requires SquareMat(a) && SquareMat(m) && |a| == |m| == |v| && 0 <= i < |m|
    ensures Sum(Weighted(a, m, v, inv, i)) == Sum(RowTotals(Spread(a, m, v, inv, i)))
  {
    var t, ws := Spread(a, m, v, inv, i), Weighted(a, m, v, inv, i);
    forall j | 0 <= j < |m| ensures ws[j] == RowTotals(t)[j] {
      SumScale(inv * a[i][j], DotTerms(m[j], v), t[j]);
    }
    SumEq(ws, RowTotals(t));
  }

  lemma Regroup(x: int, y: int, p: int, q: int)
    ensures (x * y) * (p * q) == (x * q) * (y * p)
  {
  }

  lemma SpreadColumn(a: Mat, m: Mat, v: seq<int>, inv: int, i: int, k: int)
    requires SquareMat(a) && SquareMat(m) && |a| == |m| == |v| && 0 <= i < |m| && 0 <= k < |m|
    ensures ColTotals(Spread(a, m, v, inv, i), |m|)[k] == (inv * v[k]) * Sum(ProductTerms(a, m, i, k))
  {
    var t := Spread(a, m, v, inv, i);
    var col, ps := Column(t, |m|, k), ProductTerms(a, m, i, k);
    forall j | 0 <= j < |m| ensures col[j] == (inv * v[k]) * ps[j] {
      Regroup(inv, a[i][j], m[j][k], v[k]);
    }
    SumScale(inv * v[k], ps, col);
  }

  /** With the adjugate, only the diagonal column of the double sum survives. */
  lemma SpreadTotal(m: Mat, v: seq<int>, inv: int, i: int)
    requires SquareMat(m) && |m| == |v| && 0 <= i < |m|
    ensures Sum(Weighted(Adjugate(m), m, v, inv, i)) == (inv * v[i]) * Laplace(m)
  {
    var a := Adjugate(m);
    var t := Spread(a, m, v, inv, i);
    var cs := ColTotals(t, |m|);
    forall k | 0 <= k < |m| ensures cs[k] == if k == i then (inv * v[i]) * Laplace(m) else 0 {
      SpreadColumn(a, m, v, inv, i, k);
      AdjugateTimes(m, i, k);
    }
    SumOne(cs, i);
    SpreadRows(a, m, v, inv, i);
    SumTable(t, |m|);
  }

  lemma FinalResidue(inv: int, x: int, l: int)
    requires 0 <= x < 26 && (l * inv) % 26 == 1
    ensures ((inv * x) * l) % 26 == x
  {
    assert (inv * x) * l == (l * inv) * x;
    MulMod(l * inv, x, 26);
    ModUnique(x, 26, 0, x);
  }

  /** The decryption key undoes the encryption key on every block of residues. */
  lemma BlockRoundTrip(m: Mat, inv: int, v: seq<int>)
    requires SquareMat(m) && |v| == |m| && forall j :: 0 <= j < |v| ==> 0 <= v[j] < 26
    requires (Laplace(m) * inv) % 26 == 1
    ensures MatVecMul(DecryptKey(m, inv), MatVecMul(m, v)) == v
  {
    var u := MatVecMul(DecryptKey(m, inv), MatVecMul(m, v));
    forall i | 0 <= i < |m| ensures u[i] == v[i] {
      ReduceRow(Adjugate(m), m, v, inv, i);
      SpreadTotal(m, v, inv, i);
      FinalResidue(inv, v[i], Laplace(m));
    }
  }

  // ---------------------------------------------------------------- text round trip

  /** Decrypting the cipher text of padded text block by block gives back the padded text. */
  lemma BlocksRoundTrip(p: string, m: Mat, inv: int, n: nat)
    requires n > 0 && KeyShape(m, n) && AllUpper(p) && Whole(|p|, n)
    requires (Laplace(m) * inv) % 26 == 1
    ensures Blocks(Blocks(p, m, n), DecryptKey(m, inv), n) == p
  {
    DecryptUndoes(m, inv, n);
    BlocksUndone(p, m, DecryptKey(m, inv), n);
  }

  /** Key `d` takes every block enciphered with key `m` back to the block. */
  ghost predicate UndoesBlocks(m: Mat, d: Mat, n: nat)
  {
    && KeyShape(m, n) && KeyShape(d, n)
    && forall b: string {:trigger BlockOut(d, BlockOut(m, b))} :: |b| == n && AllUpper(b) ==> BlockOut(d, BlockOut(m, b)) == b
  }

  /** A key that undoes every block undoes the whole cipher text. */
  lemma {:induction false} BlocksUndone(p: string, m: Mat, d: Mat, n: nat)
    requires n > 0 && UndoesBlocks(m, d, n) && AllUpper(p) && Whole(|p|, n)
    ensures Blocks(Blocks(p, m, n), d, n) == p
    decreases |p|
  {
    if p != [] {
      var pre, last := p[..|p| - n], p[|p| - n..];
      assert p == pre + last;
      UpperParts(p, |p| - n);
      BlocksUndone(pre, m, d, n);
      var c := Blocks(p, m, n);
      BlocksLast(p, m, n);
      var x, y := Blocks(pre, m, n), BlockOut(m, last);
      SplitConcat(x, y);
      UpperParts(c, |c| - n);
      BlocksLast(c, d, n);
      UndoBlock(m, d, n, last);
    }
  }

  /** The last block of the cipher text is the last block of the text, enciphered. */
  lemma BlocksLast(p: string, key: Mat, n: nat)
    requires n > 0 && KeyShape(key, n) && AllUpper(p) && Whole(|p|, n) && p != []
    ensures |p| >= n && Whole(|p| - n, n)
    ensures Blocks(p, key, n) == Blocks(p[..|p| - n], key, n) + BlockOut(key, p[|p| - n..])
  {
    UpperParts(p, |p| - n);
  }

  /** The last step record is that of the last block, numbered after the others. */
  lemma TraceLast(p: string, key: Mat, n: nat)
    requires n > 0 && KeyShape(key, n) && AllUpper(p) && Whole(|p|, n) && p != []
    ensures |p| >= n && Whole(|p| - n, n)
    ensures var pre := Trace(p[..|p| - n], key, n);
      Trace(p, key, n) == pre + [Step(|pre| + 1, p[|p| - n..], BlockOut(key, p[|p| - n..]))]
  {
    UpperParts(p, |p| - n);
  }

  lemma UndoBlock(m: Mat, d: Mat, n: nat, b: string)
    requires UndoesBlocks(m, d, n) && |b| == n && AllUpper(b)
    ensures BlockOut(d, BlockOut(m, b)) == b
  {
  }

  lemma DecryptUndoes(m: Mat, inv: int, n: nat)
    requires KeyShape(m, n) && (Laplace(m) * inv) % 26 == 1
    ensures UndoesBlocks(m, DecryptKey(m, inv), n)
  {
    forall b: string | |b| == n && AllUpper(b) ensures BlockOut(DecryptKey(m, inv), BlockOut(m, b)) == b {
      BlockOutRoundTrip(m, inv, b);
    }
  }

  /** One block: decrypting the enciphered block gives it back. */
  lemma BlockOutRoundTrip(m: Mat, inv: int, block: string)
    requires SquareMat(m) && |block| == |m| && AllUpper(block)
    requires (Laplace(m) * inv) % 26 == 1
    ensures BlockOut(DecryptKey(m, inv), BlockOut(m, block)) == block
  {
    ValuesLetters(MatVecMul(m, Values(block)));
    BlockRoundTrip(m, inv, Values(block));
    LettersValues(block);
  }

  /** Two multiples of `n` less than `n` apart are equal. */
  lemma MultipleUnique(a: int, b: int, n: int)
    requires n > 0 && a % n == 0 && b % n == 0 && a <= b < a + n
    ensures a == b
  {
    var qa, qb := a / n, b / n;
    assert b - a == (qb - qa) * n;
    ModUnique(b - a, n, qb - qa, 0);
    ModUnique(b - a, n, 0, b - a);
  }

  /** Text whose length is already a multiple of `n` is not padded. */
  lemma PaddedExact(s: string, n: nat)
    requires n > 0 && |s| % n == 0
    ensures Padded(s, n) == s
  {
    MultipleUnique(|s|, |Padded(s, n)|, n);
    assert Padded(s, n)[..|s|] == Padded(s, n);
  }

  /** A 0x0 key has determinant 0, and gcd(0, 26) is 26: the gcd check rejects it. */
  lemma EmptyKeyRejected(flatKey: seq<int>)
    requires |flatKey| == 0
    ensures EuclidGcd(HillDeterminant(flatKey, 0), 26) == 26
  {
    var m := KeyMatrix(flatKey, 0);
    assert m == [];
    assert DetTerms(m) == [];
    assert Det(m) == 0;
    assert EuclidGcd(0, 26) == EuclidGcd(26, 0) == 26;
  }

  /** So every key that passes the gcd check has n >= 1. */
  lemma KeyNonEmpty(flatKey: seq<int>, n: nat)
    requires |flatKey| == n * n && EuclidGcd(HillDeterminant(flatKey, n), 26) == 1
    ensures n > 0
  {
    if n == 0 {
      EmptyKeyRejected(flatKey);
      assert false;
    }
  }

  /** The key matrix `hill` multiplies by: the key itself, or the decryption key `adj(K) * det⁻¹ mod 26`. */
  ghost function ModeKey(m: Mat, det: int, mode: Mode): (k: Mat)
    requires SquareMat(m) && 0 <= det < 26 && EuclidGcd(det, 26) == 1
    ensures |k| == |m| && SquareMat(k)
  {
    if mode == Encrypt then m
    else
      DetInverse(det);
      DecryptKey(m, InverseMod(det, 26))
  }

  /** A residue coprime with 26 has an inverse modulo 26. */
  lemma DetInverse(det: int)
    requires 0 <= det < 26 && EuclidGcd(det, 26) == 1
    ensures exists x :: 1 <= x < 26 && IsInverse(det, x, 26)
  {
    CoprimeHasInverse(det, 26);
    ModUnique(det, 26, 0, det);
    assert PosMod(det, 26) == det;
  }

  /**
    What `hill(text, flatKey, n, mode)` returns or throws: a key of the wrong length,
    then a key whose determinant is not coprime with 26, then empty text are errors;
    otherwise the blocks of the padded text go through the key matrix of the mode.
  */
  ghost function HillSpec(text: string, flatKey: seq<int>, n: nat, mode: Mode): Result<(string, seq<Step>)>
  {
    if |flatKey| != n * n then Err(KeyLength(n))
    else
      var det := HillDeterminant(flatKey, n);
      if EuclidGcd(det, 26) != 1 then Err(SingularMatrix(det))
      else if ToAlpha(text) == [] then Err(EmptyInput)
      else
        KeyNonEmpty(flatKey, n);
        PaddedUpper(ToAlpha(text), n);
        var p := Padded(ToAlpha(text), n);
        var key := ModeKey(KeyMatrix(flatKey, n), det, mode);
        Ok((Blocks(p, key, n), Trace(p, key, n)))
  }

  /** An accepted text comes out as long as its letters padded to a multiple of `n`, one step per block. */
  lemma HillLength(text: string, flatKey: seq<int>, n: nat, mode: Mode)
    requires HillSpec(text, flatKey, n, mode).Ok?
    ensures n > 0
    ensures var out := HillSpec(text, flatKey, n, mode).value;
      && |out.0| % n == 0 && |ToAlpha(text)| <= |out.0| < |ToAlpha(text)| + n
      && |out.0| == |Padded(ToAlpha(text), n)| && |out.1| == |out.0| / n
  {
    KeyNonEmpty(flatKey, n);
    PaddedUpper(ToAlpha(text), n);
    var p := Padded(ToAlpha(text), n);
    TraceLength(p, ModeKey(KeyMatrix(flatKey, n), HillDeterminant(flatKey, n), mode), n);
    CountIsQuotient(|p|, n);
  }

  lemma ResidueOfProduct(d: int, l: int, inv: int)
    requires d == l % 26 && (d * inv) % 26 == 1
    ensures (l * inv) % 26 == 1
  {
    assert d * inv == inv * d && l * inv == inv * l;
    MulModRight(inv, l, 26);
  }

  /** Decrypting upper-case text whose length is a multiple of `n` neither drops nor pads anything. */
  lemma DecryptOfCipher(c: string, flatKey: seq<int>, n: nat)
    requires |flatKey| == n * n && n > 0 && EuclidGcd(HillDeterminant(flatKey, n), 26) == 1
    requires AllUpper(c) && c != [] && Whole(|c|, n)
    ensures HillSpec(c, flatKey, n, Decrypt).Ok?
    ensures HillSpec(c, flatKey, n, Decrypt).value.0
      == Blocks(c, ModeKey(KeyMatrix(flatKey, n), HillDeterminant(flatKey, n), Decrypt), n)
  {
    ToAlphaOfUpper(c);
    WholeMod(|c|, n);
    PaddedExact(c, n);
  }

  /** Decrypting the cipher text with the same key gives back the letters of the text, padded with 'X'. */
  lemma HillRoundTrip(text: string, flatKey: seq<int>, n: nat)
    requires HillSpec(text, flatKey, n, Encrypt).Ok?
    ensures var c := HillSpec(text, flatKey, n, Encrypt).value.0;
      && n > 0
      && HillSpec(c, flatKey, n, Decrypt).Ok?
      && HillSpec(c, flatKey, n, Decrypt).value.0 == Padded(ToAlpha(text), n)
  {
    KeyNonEmpty(flatKey, n);
    var clean := ToAlpha(text);
    PaddedUpper(clean, n);
    var p := Padded(clean, n);
    var m := KeyMatrix(flatKey, n);
    var c := Blocks(p, m, n);
    assert HillSpec(text, flatKey, n, Encrypt).value.0 == c;
    var det := HillDeterminant(flatKey, n);
    DetInverse(det);
    var inv := InverseMod(det, 26);
    assert ModeKey(m, det, Decrypt) == DecryptKey(m, inv);
    DecryptOfCipher(c, flatKey, n);
    assert Laplace(m) * inv % 26 == 1 by {
      DetIsLaplace(m);
      ResidueOfProduct(det, Laplace(m), inv);
    }
    BlocksRoundTrip(p, m, inv, n);
  }

  // ---------------------------------------------------------------- the hill method

  /** `while (clean.length % n !== 0) clean += "X"`. */
  method PadText(clean: string, n: nat) returns (p: string)
    requires n > 0
    ensures p == Padded(clean, n)
  {
    var target := Padded(clean, n);
    p := clean;
    while |p| % n != 0
      invariant |clean| <= |p| <= |target|
      invariant p == target[..|p|]
      decreases |target| - |p|
    {
      if |p| == |target| {
        assert false;
      }
      p := p + "X";
    }
    MultipleUnique(|p|, |target|, n);
    assert target[..|p|] == target;
  }

  /** A block that starts after whole blocks, inside a whole number of blocks, fits. */
  lemma BlockFits(i: int, n: int, len: int)
    requires n > 0 && 0 <= i < len && Whole(i, n) && Whole(len, n)
    ensures i + n <= len && Whole(i + n, n) && (i + n) / n == i / n + 1
  {
    WholeMod(i, n);
    WholeMod(len, n);
    var q := i / n;
    assert i + n == (q + 1) * n;
    ModUnique(i + n, n, q + 1, 0);
    if i + n > len {
      MultipleUnique(i, len, n);
    }
  }

  lemma PrefixBlock(p: string, key: Mat, n: nat, i: int)
    requires n > 0 && KeyShape(key, n) && AllUpper(p) && 0 <= i && i + n <= |p|
    requires Whole(i, n) && Whole(i + n, n)
    ensures Blocks(p[..i + n], key, n) == Blocks(p[..i], key, n) + BlockOut(key, p[i..i + n])
    ensures Trace(p[..i + n], key, n) == Trace(p[..i], key, n) + [Step(|Trace(p[..i], key, n)| + 1, p[i..i + n], BlockOut(key, p[i..i + n]))]
  {
    var q := p[..i + n];
    assert q[..|q| - n] == p[..i];
    assert q[|q| - n..] == p[i..i + n];
    UpperParts(p, i + n);
    BlocksLast(q, key, n);
    TraceLast(q, key, n);
  }

  /** The block loop of `hill`: each block of `n` letters through `matVecMulN`, with its step record. */
  method EncipherBlocks(p: string, key: Mat, n: nat) returns (result: string, steps: seq<Step>)
    requires n > 0 && KeyShape(key, n) && AllUpper(p) && Whole(|p|, n)
    ensures result == Blocks(p, key, n) && steps == Trace(p, key, n)
  {
    result, steps := "", [];
    var i := 0;
    while i < |p|
      invariant 0 <= i <= |p| && Whole(i, n)
      invariant result == Blocks(p[..i], key, n) && steps == Trace(p[..i], key, n)
      invariant |steps| == i / n
      decreases |p| - i
    {
      BlockFits(i, n, |p|);
      var block := Values(p[i..i + n]);
      var enc := MatVecMul(key, block);
      var inStr := p[i..i + n];
      var outStr := Letters(enc);
      PrefixBlock(p, key, n, i);
      result := result + outStr;
      steps := steps + [Step(i / n + 1, inStr, outStr)];
      i := i + n;
    }
    assert p[..i] == p;
  }

  /** `hill(text, flatKey, n, mode)`. */
  method Hill(text: string, flatKey: seq<int>, n: nat, mode: Mode) returns (r: Result<(string, seq<Step>)>)
    ensures r == HillSpec(text, flatKey, n, mode)
  {
    if |flatKey| != n * n {
      return Err(KeyLength(n));
    }
    var m := KeyMatrix(flatKey, n);
    var det := HillDeterminant(flatKey, n);
    var g := Gcd(det, 26);
    if g != 1 {
      return Err(SingularMatrix(det));
    }
    var keyMatrix := m;
    if mode == Decrypt {
      CoprimeHasInverse(det, 26);
      var detInv := ModInverse(det, 26);
      if detInv.Err? {
        assert false;
      }
      InverseUnique(PosMod(det, 26), detInv.value, InverseMod(det, 26), 26);
      keyMatrix := DecryptKey(m, detInv.value);
    }
    var clean := ToAlpha(text);
    if clean == [] {
      return Err(EmptyInput);
    }
    KeyNonEmpty(flatKey, n);
    var padded := PadText(clean, n);
    PaddedUpper(clean, n);
    var result, steps := EncipherBlocks(padded, keyMatrix, n);
    return Ok((result, steps));
  }

  // ---------------------------------------------------------------- 1x1 keys

  /**
    With the 1x1 key [[1]] (determinant 1, inverse 1), the decryption key built from
    `adjugateNxN` is [[0]], so "B" encrypts to "B" and decrypts to "A".
  */
  lemma OneByOneAsWritten()
    ensures Blocks("B", [[1]], 1) == "B"
    ensures Blocks(Blocks("B", [[1]], 1), DecryptKeyAsWritten([[1]], 1), 1) == "A"
  {
    AdjugateOfOne(1);
    var v := Values("B");
    assert v == [1];
    assert Dot([1], v) == 1;
    assert MatVecMul([[1]], v) == [1];
    assert Letters([1]) == "B";
    assert "B"[..0] == [] && "B"[0..] == "B";
    var kd := DecryptKeyAsWritten([[1]], 1);
    ScaleEntries([[0]], 1);
    assert kd[0] == [0];
    assert kd == [[0]];
    assert Dot([0], v) == 0;
    assert MatVecMul(kd, v) == [0];
    assert Letters([0]) == "A";
  }

  /** With the corrected adjugate the same 1x1 key decrypts "B" back to "B". */
  lemma OneByOneCorrected()
    ensures Blocks(Blocks("B", [[1]], 1), DecryptKey([[1]], 1), 1) == "B"
  {
    var m: Mat := [[1]];
    assert KeyShape(m, 1);
    assert (Laplace(m) * 1) % 26 == 1 by {
      LaplaceOne(m);
    }
    BlocksRoundTrip("B", m, 1, 1);
  }
}
