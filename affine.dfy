/**
  Affine cipher: encryption maps letter p to (a*p + b) mod 26, decryption maps
  c to a⁻¹*(c - b) mod 26; the multiplier must be coprime with 26.
*/
module Affine {
  import opened Results
  import opened Text
  import opened Modular

  /** One trace record: 1-based position, input letter, output letter. */
  datatype Step = Step(i: nat, input: char, output: char)

  /** Encryption of one letter. */
  function EncryptLetter(c: char, a: int, b: int): (r: char)
    requires IsUpper(c)
    ensures IsUpper(r)
  {
    Chr(PosMod(a * Ord(c) + b, 26))
  }

  /** Decryption of one letter with the inverse `aInv` of the multiplier. */
  function DecryptLetter(c: char, aInv: int, b: int): (r: char)
    requires IsUpper(c)
    ensures IsUpper(r)
  {
    Chr(PosMod(aInv * (Ord(c) - b), 26))
  }

  /** The inverse of the multiplier modulo 26, for a multiplier accepted by the gcd check. */
  ghost function MultiplierInverse(a: int): (x: int)
    requires EuclidGcd(a, 26) == 1
    ensures 1 <= x < 26 && IsInverse(PosMod(a, 26), x, 26)
  {
    CoprimeHasInverse(a, 26);
    InverseMod(PosMod(a, 26), 26)
  }

  /** The cipher text of normalised text under an accepted multiplier. */
  ghost function CipherText(clean: string, a: int, b: int, mode: Mode): (r: string)
    requires AllUpper(clean) && EuclidGcd(a, 26) == 1
  {
    seq(|clean|, i requires 0 <= i < |clean| =>
      if mode == Encrypt then EncryptLetter(clean[i], a, b)
      else DecryptLetter(clean[i], MultiplierInverse(a), b))
  }

  /** With `aInv` an inverse of `a` mod 26, letter decryption undoes letter encryption. */
  lemma LetterRoundTrip(c: char, a: int, b: int, aInv: int)
    requires IsUpper(c) && IsInverse(PosMod(a, 26), aInv, 26)
    ensures DecryptLetter(EncryptLetter(c, a, b), aInv, b) == c
  {
    var p := Ord(c);
    ChrOrd(c);
    var e := PosMod(a * p + b, 26);
    ShiftBack(a * p, b);
    MulCongruent(aInv, e - b, a * p);
    InverseCancels(a, aInv, p);
  }

  /** Undoing the shift: `((x + b) mod 26 - b) mod 26 == x mod 26`. */
  lemma ShiftBack(x: int, b: int)
    ensures ((x + b) % 26 - b) % 26 == x % 26
  {
    var q := (x + b) / 26;
    assert (x + b) % 26 - b == x + (-q) * 26;
    ModShift(x, -q, 26);
  }

  lemma MulCongruent(k: int, x: int, y: int)
    requires x % 26 == y % 26
    ensures (k * x) % 26 == (k * y) % 26
  {
    MulModRight(k, x, 26);
    MulModRight(k, y, 26);
  }

  /** Multiplying by `a` and then by its inverse gives a residue back. */
  lemma InverseCancels(a: int, aInv: int, p: int)
    requires IsInverse(PosMod(a, 26), aInv, 26) && 0 <= p < 26
    ensures (aInv * (a * p)) % 26 == p
  {
    assert aInv * (a * p) == (a * aInv) * p;
    assert (a * aInv) % 26 == 1 by {
      MulMod(a, aInv, 26);
      MulMod(PosMod(a, 26), aInv, 26);
      ModUnique(PosMod(a, 26), 26, 0, PosMod(a, 26));
    }
    MulMod(a * aInv, p, 26);
    ModUnique(p, 26, 0, p);
  }

  /**
    `affine(text, a, b, mode)`: fails unless `gcd(a, 26) == 1`; otherwise returns
    the cipher text of `toAlpha(text)` and one step per letter.
  */
  method Affine(text: string, a: int, b: int, mode: Mode) returns (r: Result<(string, seq<Step>)>)
    ensures r.Err? <==> EuclidGcd(a, 26) != 1
    ensures r.Err? ==> r.error == InvalidMultiplier(a)
    ensures r.Ok? ==> |r.value.0| == |ToAlpha(text)| && |r.value.1| == |ToAlpha(text)|
    ensures r.Ok? ==> r.value.0 == CipherText(ToAlpha(text), a, b, mode)
    ensures r.Ok? ==> forall i :: 0 <= i < |r.value.1| ==>
      r.value.1[i] == Step(i + 1, ToAlpha(text)[i], r.value.0[i])
  {
    var g := Gcd(a, 26);
    if g != 1 {
      return Err(InvalidMultiplier(a));
    }
    var clean := ToAlpha(text);
    CoprimeHasInverse(a, 26);
    var inv := ModInverse(a, 26);
    if inv.Err? {
      assert false;
    }
    var aInv := inv.value;
    InverseUnique(PosMod(a, 26), aInv, MultiplierInverse(a), 26);
    var result: string := "";
    var steps: seq<Step> := [];
    for i := 0 to |clean|
      invariant |result| == i && |steps| == i
      invariant forall j :: 0 <= j < i ==> result[j] == CipherText(clean, a, b, mode)[j]
      invariant forall j :: 0 <= j < i ==> steps[j] == Step(j + 1, clean[j], result[j])
    {
      var outChar := if mode == Encrypt then EncryptLetter(clean[i], a, b) else DecryptLetter(clean[i], aInv, b);
      result := result + [outChar];
      steps := steps + [Step(i + 1, clean[i], outChar)];
    }
    return Ok((result, steps));
  }

  /** Decrypting the cipher text with the same accepted key gives back `toAlpha(text)`. */
  lemma RoundTrip(text: string, a: int, b: int)
    requires EuclidGcd(a, 26) == 1
    ensures CipherText(ToAlpha(CipherText(ToAlpha(text), a, b, Encrypt)), a, b, Decrypt) == ToAlpha(text)
  {
    var p := ToAlpha(text);
    var c := CipherText(p, a, b, Encrypt);
    ToAlphaOfUpper(c);
    forall i | 0 <= i < |p| ensures CipherText(c, a, b, Decrypt)[i] == p[i] {
      LetterRoundTrip(p[i], a, b, MultiplierInverse(a));
    }
  }

  lemma Divisors26(g: int)
    requires 1 <= g <= 26 && 26 % g == 0
    ensures g == 1 || g == 2 || g == 13 || g == 26
  {
    if g == 3 {} else if g == 4 {} else if g == 5 {} else if g == 6 {} else if g == 7 {}
    else if g == 8 {} else if g == 9 {} else if g == 10 {} else if g == 11 {} else if g == 12 {}
    else if g == 14 {} else if g == 15 {} else if g == 16 {} else if g == 17 {} else if g == 18 {}
    else if g == 19 {} else if g == 20 {} else if g == 21 {} else if g == 22 {} else if g == 23 {}
    else if g == 24 {} else if g == 25 {}
  }

  lemma DivisorBound(g: int, r: int)
    requires g > 0 && r > 0 && Divides(g, r)
    ensures g <= r
  {
    assert r == (r / g) * g;
  }

  lemma NotMultipleOf13(r: int)
    requires 0 < r < 26 && r != 13
    ensures r % 13 != 0
  {
    if r < 13 {
      ModUnique(r, 13, 0, r);
    } else {
      ModUnique(r, 13, 1, r - 13);
    }
  }

  /** For a non-negative multiplier the gcd check accepts exactly the 12 values its message lists. */
  lemma ValidMultipliers(a: int)
    requires a >= 0
    ensures EuclidGcd(a, 26) == 1 <==> a % 26 in {1, 3, 5, 7, 9, 11, 15, 17, 19, 21, 23, 25}
  {
    var r := a % 26;
    assert EuclidGcd(a, 26) == EuclidGcd(26, r);
    CoprimeResidues(r);
    ListedResidues(r);
  }

  /** A residue is coprime with 26 exactly when it is odd and not 13. */
  lemma CoprimeResidues(r: int)
    requires 0 <= r < 26
    ensures EuclidGcd(26, r) == 1 <==> r % 2 == 1 && r != 13
  {
    if r == 0 {
      assert EuclidGcd(26, r) == 26;
    } else {
      EuclidGcdIsGcd(26, r);
      var g := EuclidGcd(26, r);
      if r % 2 == 0 {
        SharedFactor(g, r, 2);
      } else if r == 13 {
        SharedFactor(g, r, 13);
      } else {
        OddCoprime(g, r);
      }
    }
  }

  /** The odd residues other than 13 are the twelve the message lists. */
  lemma ListedResidues(r: int)
    requires 0 <= r < 26
    ensures r % 2 == 1 && r != 13 <==> r in {1, 3, 5, 7, 9, 11, 15, 17, 19, 21, 23, 25}
  {
  }

  /** A factor of 26 that also divides `r` divides the gcd, which is then not 1. */
  lemma SharedFactor(g: int, r: int, d: int)
    requires IsGcd(g, 26, r) && d > 1 && Divides(d, 26) && Divides(d, r)
    ensures g != 1
  {
    assert Divides(d, g);
    assert 1 % d == 1;
  }

  /** An odd residue other than 13 shares no factor with 26. */
  lemma OddCoprime(g: int, r: int)
    requires IsGcd(g, 26, r) && 0 < r < 26 && r % 2 == 1 && r != 13
    ensures g == 1
  {
    DivisorBound(g, r);
    Divisors26(g);
    NotMultipleOf13(r);
  }

  /**
    The truncating remainder makes the check sign-sensitive: -1 (which is 25 mod 26)
    is rejected because the loop ends on -1, while -5 is accepted.
  */
  lemma NegativeMultipliers()
    ensures EuclidGcd(-1, 26) == -1
    ensures EuclidGcd(-5, 26) == 1
  {
  }
}
