/**
  Text normalisation shared by all ciphers: ASCII upper-casing and `toAlpha`,
  which keeps only the letters A..Z of the upper-cased text.
*/
module Text {

  predicate IsUpper(c: char) { 'A' <= c <= 'Z' }

  predicate IsLower(c: char) { 'a' <= c <= 'z' }

  /** Every character of `s` is one of A..Z. */
  predicate AllUpper(s: string) { forall i :: 0 <= i < |s| ==> IsUpper(s[i]) }

  /** `String.prototype.toUpperCase` restricted to one ASCII character. */
  function ToUpper(c: char): (u: char)
    ensures IsUpper(u) <==> IsUpper(c) || IsLower(c)
    ensures IsLower(c) ==> u as int == c as int - 32
    ensures !IsLower(c) ==> u == c
  {
    if IsLower(c) then (c as int - 32) as char else c
  }

  /** Letter index of an upper-case letter: A = 0, ..., Z = 25. */
  function Ord(c: char): int { c as int - 65 }

  /** Upper-case letter with index k: 0 = A, ..., 25 = Z. */
  function Chr(k: int): (c: char)
    requires 0 <= k < 26
    ensures IsUpper(c) && Ord(c) == k
  {
    (65 + k) as char
  }

  lemma ChrOrd(c: char)
    requires IsUpper(c)
    ensures 0 <= Ord(c) < 26 && Chr(Ord(c)) == c
  {
  }

  /** What `toAlpha` keeps of a single character. */
  function Kept(c: char): string
  {
    if IsUpper(ToUpper(c)) then [ToUpper(c)] else []
  }

  /** `toAlpha`: upper-case the text, then drop everything outside A..Z. */
  function ToAlpha(s: string): (r: string)
    ensures AllUpper(r)
    ensures |r| <= |s|
  {
    if s == [] then [] else Kept(s[0]) + ToAlpha(s[1..])
  }

  /** `toAlpha` distributes over concatenation, so it is determined by `Kept`. */
  lemma {:induction false} ToAlphaConcat(a: string, b: string)
    ensures ToAlpha(a + b) == ToAlpha(a) + ToAlpha(b)
  {
    if a == [] {
      assert a + b == b;
    } else {
      assert (a + b)[1..] == a[1..] + b;
      ToAlphaConcat(a[1..], b);
    }
  }

  /** Text that is already upper-case A..Z is left unchanged. */
  lemma {:induction false} ToAlphaOfUpper(s: string)
    requires AllUpper(s)
    ensures ToAlpha(s) == s
  {
    if s != [] {
      ToAlphaOfUpper(s[1..]);
    }
  }

  /** Normalising twice is the same as normalising once. */
  lemma ToAlphaIdempotent(s: string)
    ensures ToAlpha(ToAlpha(s)) == ToAlpha(s)
  {
    ToAlphaOfUpper(ToAlpha(s));
  }

  /** Every lower- or upper-case ASCII letter of the text survives, upper-cased. */
  lemma {:induction false} ToAlphaKeepsLetters(s: string)
    ensures |ToAlpha(s)| == |s| <==> forall i :: 0 <= i < |s| ==> IsUpper(s[i]) || IsLower(s[i])
  {
    if s != [] {
      ToAlphaKeepsLetters(s[1..]);
      assert forall i :: 1 <= i < |s| ==> s[i] == s[1..][i - 1];
    }
  }

  // ---------------------------------------------------------------- sequences

  /** No element occurs twice. */
  predicate Distinct<T(==)>(s: seq<T>)
  {
    forall i, j :: 0 <= i < j < |s| ==> s[i] != s[j]
  }

  /** `Array.prototype.indexOf` / `String.prototype.indexOf` of one element: an index holding it, or -1. */
  function IndexOf<T(==)>(s: seq<T>, x: T): (k: int)
    ensures -1 <= k < |s|
    ensures k == -1 <==> x !in s
    ensures k >= 0 ==> s[k] == x
  {
    if s == [] then -1
    else if s[0] == x then 0
    else
      var k := IndexOf(s[1..], x);
      if k == -1 then -1 else k + 1
  }

  /** The index `indexOf` returns is the first one holding the element. */
  lemma {:induction false} IndexOfFirst<T>(s: seq<T>, x: T)
    ensures IndexOf(s, x) >= 0 ==> x !in s[..IndexOf(s, x)]
  {
    if s != [] && s[0] != x {
      IndexOfFirst(s[1..], x);
      var k := IndexOf(s[1..], x);
      if k >= 0 {
        assert s[..k + 1] == [s[0]] + s[1..][..k];
      }
    }
  }

  /** Both pieces of upper-case text are upper-case. */
  lemma UpperParts(s: string, k: int)
    requires AllUpper(s) && 0 <= k <= |s|
    ensures AllUpper(s[..k]) && AllUpper(s[k..])
  {
  }

  /** A concatenation cut where its parts meet gives the parts back. */
  lemma SplitConcat<T>(x: seq<T>, y: seq<T>)
    ensures (x + y)[..|x|] == x && (x + y)[|x|..] == y
  {
  }

  lemma AppendAssoc<T>(x: seq<T>, y: seq<T>, z: seq<T>)
    ensures (x + y) + z == x + (y + z)
  {
  }

  /** In a sequence without repetitions, `indexOf` finds an element at its own position. */
  lemma IndexOfDistinct<T>(s: seq<T>, i: int)
    requires Distinct(s) && 0 <= i < |s|
    ensures IndexOf(s, s[i]) == i
  {
  }
}
