/**
  Vigenère cipher: letter i of the normalised text is shifted by key letter
  `i mod |key|`; encryption adds the shift, decryption subtracts it (mod 26).
*/
module Vigenere {
  import opened Results
  import opened Text
  import opened Modular

  /** One trace record: 1-based position, input, key letter used, output. */
  datatype Step = Step(i: nat, input: char, keyChar: char, output: char)

  /** One letter shifted forward (encrypt) or backward (decrypt) by the key letter. */
  function Shift(c: char, k: char, mode: Mode): (r: char)
    requires IsUpper(c) && IsUpper(k)
    ensures IsUpper(r)
  {
    Chr(if mode == Encrypt then PosMod(Ord(c) + Ord(k), 26) else PosMod(Ord(c) - Ord(k), 26))
  }

  /** Shifting back undoes shifting forward, and the other way round. */
  lemma ShiftInverse(c: char, k: char)
    requires IsUpper(c) && IsUpper(k)
    ensures Shift(Shift(c, k, Encrypt), k, Decrypt) == c
    ensures Shift(Shift(c, k, Decrypt), k, Encrypt) == c
  {
    ChrOrd(c);
    AddSub(Ord(c), Ord(k));
    SubAdd(Ord(c), Ord(k));
  }

  lemma AddSub(p: int, s: int)
    requires 0 <= p < 26 && 0 <= s < 26
    ensures ((p + s) % 26 - s) % 26 == p
  {
    if p + s < 26 {
      ModUnique(p + s, 26, 0, p + s);
      ModUnique(p, 26, 0, p);
    } else {
      ModUnique(p + s, 26, 1, p + s - 26);
      ModUnique(p - 26, 26, -1, p);
    }
  }

  lemma SubAdd(p: int, s: int)
    requires 0 <= p < 26 && 0 <= s < 26
    ensures ((p - s) % 26 + s) % 26 == p
  {
    if p - s >= 0 {
      ModUnique(p - s, 26, 0, p - s);
      ModUnique(p, 26, 0, p);
    } else {
      ModUnique(p - s, 26, -1, p - s + 26);
      ModUnique(p + 26, 26, 1, p);
    }
  }

  /** The cipher text of already normalised text under a normalised, non-empty key. */
  function CipherText(clean: string, key: string, mode: Mode): (r: string)
    requires AllUpper(clean) && AllUpper(key) && |key| > 0
  {
    seq(|clean|, i requires 0 <= i < |clean| => Shift(clean[i], key[i % |key|], mode))
  }

  /**
    `vigenere(text, key, mode)`: fails when the key has no letters; otherwise
    returns the cipher text of `toAlpha(text)` and one step per letter.
  */
  method Vigenere(text: string, key: string, mode: Mode) returns (r: Result<(string, seq<Step>)>)
    ensures r.Err? <==> ToAlpha(key) == []
    ensures r.Err? ==> r.error == EmptyKey
    ensures r.Ok? ==> |r.value.0| == |ToAlpha(text)| && |r.value.1| == |ToAlpha(text)|
    ensures r.Ok? ==> r.value.0 == CipherText(ToAlpha(text), ToAlpha(key), mode)
    ensures r.Ok? ==> forall i :: 0 <= i < |r.value.1| ==>
      r.value.1[i] == Step(i + 1, ToAlpha(text)[i], ToAlpha(key)[i % |ToAlpha(key)|], r.value.0[i])
  {
    var clean := ToAlpha(text);
    var cleanKey := ToAlpha(key);
    if cleanKey == [] {
      return Err(EmptyKey);
    }
    var result: string := "";
    var steps: seq<Step> := [];
    var len := |cleanKey|;
    for i := 0 to |clean|
      invariant |result| == i && |steps| == i
      invariant forall j :: 0 <= j < i ==> result[j] == Shift(clean[j], cleanKey[j % len], mode)
      invariant forall j :: 0 <= j < i ==> steps[j] == Step(j + 1, clean[j], cleanKey[j % len], result[j])
    {
      var keyChar := cleanKey[i % len];
      var outChar := Shift(clean[i], keyChar, mode);
      result := result + [outChar];
      steps := steps + [Step(i + 1, clean[i], keyChar, outChar)];
    }
    return Ok((result, steps));
  }

  /** Decrypting the cipher text with the same key gives back `toAlpha(text)`. */
  lemma RoundTrip(text: string, key: string)
    requires ToAlpha(key) != []
    ensures var k, p := ToAlpha(key), ToAlpha(text);
      CipherText(ToAlpha(CipherText(p, k, Encrypt)), k, Decrypt) == p
  {
    var k, p := ToAlpha(key), ToAlpha(text);
    var c := CipherText(p, k, Encrypt);
    ToAlphaOfUpper(c);
    forall i | 0 <= i < |p| ensures CipherText(c, k, Decrypt)[i] == p[i] {
      ShiftInverse(p[i], k[i % |k|]);
    }
  }

  /** Encrypting the decryption with the same key also gives back the normalised text. */
  lemma DecryptThenEncrypt(text: string, key: string)
    requires ToAlpha(key) != []
    ensures var k, c := ToAlpha(key), ToAlpha(text);
      CipherText(ToAlpha(CipherText(c, k, Decrypt)), k, Encrypt) == c
  {
    var k, c := ToAlpha(key), ToAlpha(text);
    var p := CipherText(c, k, Decrypt);
    ToAlphaOfUpper(p);
    forall i | 0 <= i < |c| ensures CipherText(p, k, Encrypt)[i] == c[i] {
      ShiftInverse(c[i], k[i % |k|]);
    }
  }
}
