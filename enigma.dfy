/**
  The Enigma M3 of the cipher library: three rotors from the catalog I..V, a
  reflector B or C, no plugboard and no ring settings. Before every letter the
  rotors step, with the double step of the middle rotor; the letter then runs
  right to left through the rotors, is reflected, and runs back. The machine is
  its own inverse and never maps a letter to itself.
*/
module Enigma {
  import opened Results
  import opened Text
  import opened Modular

  /** A catalog rotor: its wiring, and the position at which it turns its left neighbour. */
  datatype Rotor = Rotor(wiring: string, notch: int)

  /** The rotors, left to right, and the reflector that the caller named. */
  datatype Machine = Machine(left: Rotor, middle: Rotor, right: Rotor, reflector: string)

  /** The positions shown in the three windows, left to right (A = 0). */
  datatype Window = Window(left: int, middle: int, right: int)

  // ---------------------------------------------------------------- catalog

  const WIRING_I: string := "EKMFLGDQVZNTOWYHXUSPAIBRCJ"
  const WIRING_II: string := "AJDKSIRUXBLHWTMCQGZNPYFVOE"
  const WIRING_III: string := "BDFHJLCPRTXVZNYEIWGAKMUSQO"
  const WIRING_IV: string := "ESOVPZJAYQUIRHXLNFTGKDCMWB"
  const WIRING_V: string := "VZBRGITYUPSDNHLXAWMJQOFECK"

  /** `ROTOR_WIRINGS` together with `ROTOR_NOTCH`; a name outside the catalog is absent. */
  function CatalogRotor(name: string): Option<Rotor>
  {
    if name == "I" then Some(Rotor(WIRING_I, 16))
    else if name == "II" then Some(Rotor(WIRING_II, 4))
    else if name == "III" then Some(Rotor(WIRING_III, 21))
    else if name == "IV" then Some(Rotor(WIRING_IV, 9))
    else if name == "V" then Some(Rotor(WIRING_V, 25))
    else None
  }

  const REFLECTOR_B: string := "YRUHQSLDPXNGOKMIEBFZCWVJAT"
  const REFLECTOR_C: string := "FVPJIAOYEDRZXWGCTKUQSBNMHL"

  /** `REFLECTOR_WIRINGS`; a name outside the catalog is absent. */
  function CatalogReflector(name: string): Option<string>
  {
    if name == "B" then Some(REFLECTOR_B)
    else if name == "C" then Some(REFLECTOR_C)
    else None
  }

  // ---------------------------------------------------------------- wirings

  /** Cell `i` of wiring `w` and of its inverse `inv` agree: each leads back through the other. */
  predicate InverseCell(w: string, inv: string, i: int)
    requires |w| == 26 && |inv| == 26 && 0 <= i < 26
  {
    IsUpper(w[i]) && IsUpper(inv[i]) && Ord(inv[Ord(w[i])]) == i && Ord(w[Ord(inv[i])]) == i
  }

  /** `inv` is the inverse of the wiring `w`, letter by letter. */
  ghost predicate Inverts(w: string, inv: string)
  {
    |w| == 26 && |inv| == 26 && forall i :: 0 <= i < 26 ==> InverseCell(w, inv, i)
  }

  /** A rotor wiring: a permutation of the 26 letters. */
  ghost predicate IsWiring(w: string)
  {
    exists inv :: Inverts(w, inv)
  }

  /** Cell `i` of a reflector holds another letter, whose cell leads back to `i`. */
  predicate ReflectorCell(r: string, i: int)
    requires |r| == 26 && 0 <= i < 26
  {
    IsUpper(r[i]) && Ord(r[i]) != i && Ord(r[Ord(r[i])]) == i
  }

  /** A reflector wiring: an involution of the 26 letters without a fixed point. */
  ghost predicate IsReflector(r: string)
  {
    |r| == 26 && forall i :: 0 <= i < 26 ==> ReflectorCell(r, i)
  }

  // Each wiring is checked cell by cell against its inverse, in two lemmas of
  // 13 cells each: one obligation over all 26 cells is too costly for the solver.

  /** The inverse of rotor I: cell `k` holds the letter wired to letter `k`. */
  ghost const INVERSE_I: string := "UWYGADFPVZBECKMTHXSLRINQOJ"

  lemma RotorILow()
    ensures InverseCell(WIRING_I, INVERSE_I, 0)
      && InverseCell(WIRING_I, INVERSE_I, 1)
      && InverseCell(WIRING_I, INVERSE_I, 2)
      && InverseCell(WIRING_I, INVERSE_I, 3)
      && InverseCell(WIRING_I, INVERSE_I, 4)
      && InverseCell(WIRING_I, INVERSE_I, 5)
      && InverseCell(WIRING_I, INVERSE_I, 6)
      && InverseCell(WIRING_I, INVERSE_I, 7)
      && InverseCell(WIRING_I, INVERSE_I, 8)
      && InverseCell(WIRING_I, INVERSE_I, 9)
      && InverseCell(WIRING_I, INVERSE_I, 10)
      && InverseCell(WIRING_I, INVERSE_I, 11)
      && InverseCell(WIRING_I, INVERSE_I, 12)
  {
    assert InverseCell(WIRING_I, INVERSE_I, 0);
    assert InverseCell(WIRING_I, INVERSE_I, 1);
    assert InverseCell(WIRING_I, INVERSE_I, 2);
    assert InverseCell(WIRING_I, INVERSE_I, 3);
    assert InverseCell(WIRING_I, INVERSE_I, 4);
    assert InverseCell(WIRING_I, INVERSE_I, 5);
    assert InverseCell(WIRING_I, INVERSE_I, 6);
    assert InverseCell(WIRING_I, INVERSE_I, 7);
    assert InverseCell(WIRING_I, INVERSE_I, 8);
    assert InverseCell(WIRING_I, INVERSE_I, 9);
    assert InverseCell(WIRING_I, INVERSE_I, 10);
    assert InverseCell(WIRING_I, INVERSE_I, 11);
    assert InverseCell(WIRING_I, INVERSE_I, 12);
  }

  lemma RotorIHigh()
    ensures InverseCell(WIRING_I, INVERSE_I, 13)
      && InverseCell(WIRING_I, INVERSE_I, 14)
      && InverseCell(WIRING_I, INVERSE_I, 15)
      && InverseCell(WIRING_I, INVERSE_I, 16)
      && InverseCell(WIRING_I, INVERSE_I, 17)
      && InverseCell(WIRING_I, INVERSE_I, 18)
      && InverseCell(WIRING_I, INVERSE_I, 19)
      && InverseCell(WIRING_I, INVERSE_I, 20)
      && InverseCell(WIRING_I, INVERSE_I, 21)
      && InverseCell(WIRING_I, INVERSE_I, 22)
      && InverseCell(WIRING_I, INVERSE_I, 23)
      && InverseCell(WIRING_I, INVERSE_I, 24)
      && InverseCell(WIRING_I, INVERSE_I, 25)
  {
    assert InverseCell(WIRING_I, INVERSE_I, 13);
    assert InverseCell(WIRING_I, INVERSE_I, 14);
    assert InverseCell(WIRING_I, INVERSE_I, 15);
    assert InverseCell(WIRING_I, INVERSE_I, 16);
    assert InverseCell(WIRING_I, INVERSE_I, 17);
    assert InverseCell(WIRING_I, INVERSE_I, 18);
    assert InverseCell(WIRING_I, INVERSE_I, 19);
    assert InverseCell(WIRING_I, INVERSE_I, 20);
    assert InverseCell(WIRING_I, INVERSE_I, 21);
    assert InverseCell(WIRING_I, INVERSE_I, 22);
    assert InverseCell(WIRING_I, INVERSE_I, 23);
    assert InverseCell(WIRING_I, INVERSE_I, 24);
    assert InverseCell(WIRING_I, INVERSE_I, 25);
  }

  /** Rotor I is wired as a permutation. */
  lemma RotorIWiring()
    ensures Inverts(WIRING_I, INVERSE_I)
  {
    RotorILow();
    RotorIHigh();
    forall i | 0 <= i < 26
      ensures InverseCell(WIRING_I, INVERSE_I, i)
    {
      assert i == 0 || i == 1 || i == 2 || i == 3 || i == 4 || i == 5 || i == 6 || i == 7 || i == 8 || i == 9 || i == 10 || i == 11 || i == 12 || i == 13 || i == 14 || i == 15 || i == 16 || i == 17 || i == 18 || i == 19 || i == 20 || i == 21 || i == 22 || i == 23 || i == 24 || i == 25;
    }
  }

  /** The inverse of rotor II: cell `k` holds the letter wired to letter `k`. */
  ghost const INVERSE_II: string := "AJPCZWRLFBDKOTYUQGENHXMIVS"

  lemma RotorIILow()
    ensures InverseCell(WIRING_II, INVERSE_II, 0)
      && InverseCell(WIRING_II, INVERSE_II, 1)
      && InverseCell(WIRING_II, INVERSE_II, 2)
      && InverseCell(WIRING_II, INVERSE_II, 3)
      && InverseCell(WIRING_II, INVERSE_II, 4)
      && InverseCell(WIRING_II, INVERSE_II, 5)
      && InverseCell(WIRING_II, INVERSE_II, 6)
      && InverseCell(WIRING_II, INVERSE_II, 7)
      && InverseCell(WIRING_II, INVERSE_II, 8)
      && InverseCell(WIRING_II, INVERSE_II, 9)
      && InverseCell(WIRING_II, INVERSE_II, 10)
      && InverseCell(WIRING_II, INVERSE_II, 11)
      && InverseCell(WIRING_II, INVERSE_II, 12)
  {
    assert InverseCell(WIRING_II, INVERSE_II, 0);
    assert InverseCell(WIRING_II, INVERSE_II, 1);
    assert InverseCell(WIRING_II, INVERSE_II, 2);
    assert InverseCell(WIRING_II, INVERSE_II, 3);
    assert InverseCell(WIRING_II, INVERSE_II, 4);
    assert InverseCell(WIRING_II, INVERSE_II, 5);
    assert InverseCell(WIRING_II, INVERSE_II, 6);
    assert InverseCell(WIRING_II, INVERSE_II, 7);
    assert InverseCell(WIRING_II, INVERSE_II, 8);
    assert InverseCell(WIRING_II, INVERSE_II, 9);
    assert InverseCell(WIRING_II, INVERSE_II, 10);
    assert InverseCell(WIRING_II, INVERSE_II, 11);
    assert InverseCell(WIRING_II, INVERSE_II, 12);
  }

  lemma RotorIIHigh()
    ensures InverseCell(WIRING_II, INVERSE_II, 13)
      && InverseCell(WIRING_II, INVERSE_II, 14)
      && InverseCell(WIRING_II, INVERSE_II, 15)
      && InverseCell(WIRING_II, INVERSE_II, 16)
      && InverseCell(WIRING_II, INVERSE_II, 17)
      && InverseCell(WIRING_II, INVERSE_II, 18)
      && InverseCell(WIRING_II, INVERSE_II, 19)
      && InverseCell(WIRING_II, INVERSE_II, 20)
      && InverseCell(WIRING_II, INVERSE_II, 21)
      && InverseCell(WIRING_II, INVERSE_II, 22)
      && InverseCell(WIRING_II, INVERSE_II, 23)
      && InverseCell(WIRING_II, INVERSE_II, 24)
      && InverseCell(WIRING_II, INVERSE_II, 25)
  {
    assert InverseCell(WIRING_II, INVERSE_II, 13);
    assert InverseCell(WIRING_II, INVERSE_II, 14);
    assert InverseCell(WIRING_II, INVERSE_II, 15);
    assert InverseCell(WIRING_II, INVERSE_II, 16);
    assert InverseCell(WIRING_II, INVERSE_II, 17);
    assert InverseCell(WIRING_II, INVERSE_II, 18);
    assert InverseCell(WIRING_II, INVERSE_II, 19);
    assert InverseCell(WIRING_II, INVERSE_II, 20);
    assert InverseCell(WIRING_II, INVERSE_II, 21);
    assert InverseCell(WIRING_II, INVERSE_II, 22);
    assert InverseCell(WIRING_II, INVERSE_II, 23);
    assert InverseCell(WIRING_II, INVERSE_II, 24);
    assert InverseCell(WIRING_II, INVERSE_II, 25);
  }

  /** Rotor II is wired as a permutation. */
  lemma RotorIIWiring()
    ensures Inverts(WIRING_II, INVERSE_II)
  {
    RotorIILow();
    RotorIIHigh();
    forall i | 0 <= i < 26
      ensures InverseCell(WIRING_II, INVERSE_II, i)
    {
      assert i == 0 || i == 1 || i == 2 || i == 3 || i == 4 || i == 5 || i == 6 || i == 7 || i == 8 || i == 9 || i == 10 || i == 11 || i == 12 || i == 13 || i == 14 || i == 15 || i == 16 || i == 17 || i == 18 || i == 19 || i == 20 || i == 21 || i == 22 || i == 23 || i == 24 || i == 25;
    }
  }

  /** The inverse of rotor III: cell `k` holds the letter wired to letter `k`. */
  ghost const INVERSE_III: string := "TAGBPCSDQEUFVNZHYIXJWLRKOM"

  lemma RotorIIILow()
    ensures InverseCell(WIRING_III, INVERSE_III, 0)
      && InverseCell(WIRING_III, INVERSE_III, 1)
      && InverseCell(WIRING_III, INVERSE_III, 2)
      && InverseCell(WIRING_III, INVERSE_III, 3)
      && InverseCell(WIRING_III, INVERSE_III, 4)
      && InverseCell(WIRING_III, INVERSE_III, 5)
      && InverseCell(WIRING_III, INVERSE_III, 6)
      && InverseCell(WIRING_III, INVERSE_III, 7)
      && InverseCell(WIRING_III, INVERSE_III, 8)
      && InverseCell(WIRING_III, INVERSE_III, 9)
      && InverseCell(WIRING_III, INVERSE_III, 10)
      && InverseCell(WIRING_III, INVERSE_III, 11)
      && InverseCell(WIRING_III, INVERSE_III, 12)
  {
    assert InverseCell(WIRING_III, INVERSE_III, 0);
    assert InverseCell(WIRING_III, INVERSE_III, 1);
    assert InverseCell(WIRING_III, INVERSE_III, 2);
    assert InverseCell(WIRING_III, INVERSE_III, 3);
    assert InverseCell(WIRING_III, INVERSE_III, 4);
    assert InverseCell(WIRING_III, INVERSE_III, 5);
    assert InverseCell(WIRING_III, INVERSE_III, 6);
    assert InverseCell(WIRING_III, INVERSE_III, 7);
    assert InverseCell(WIRING_III, INVERSE_III, 8);
    assert InverseCell(WIRING_III, INVERSE_III, 9);
    assert InverseCell(WIRING_III, INVERSE_III, 10);
    assert InverseCell(WIRING_III, INVERSE_III, 11);
    assert InverseCell(WIRING_III, INVERSE_III, 12);
  }

  lemma RotorIIIHigh()
    ensures InverseCell(WIRING_III, INVERSE_III, 13)
      && InverseCell(WIRING_III, INVERSE_III, 14)
      && InverseCell(WIRING_III, INVERSE_III, 15)
      && InverseCell(WIRING_III, INVERSE_III, 16)
      && InverseCell(WIRING_III, INVERSE_III, 17)
      && InverseCell(WIRING_III, INVERSE_III, 18)
      && InverseCell(WIRING_III, INVERSE_III, 19)
      && InverseCell(WIRING_III, INVERSE_III, 20)
      && InverseCell(WIRING_III, INVERSE_III, 21)
      && InverseCell(WIRING_III, INVERSE_III, 22)
      && InverseCell(WIRING_III, INVERSE_III, 23)
      && InverseCell(WIRING_III, INVERSE_III, 24)
      && InverseCell(WIRING_III, INVERSE_III, 25)
  {
    assert InverseCell(WIRING_III, INVERSE_III, 13);
    assert InverseCell(WIRING_III, INVERSE_III, 14);
    assert InverseCell(WIRING_III, INVERSE_III, 15);
    assert InverseCell(WIRING_III, INVERSE_III, 16);
    assert InverseCell(WIRING_III, INVERSE_III, 17);
    assert InverseCell(WIRING_III, INVERSE_III, 18);
    assert InverseCell(WIRING_III, INVERSE_III, 19);
    assert InverseCell(WIRING_III, INVERSE_III, 20);
    assert InverseCell(WIRING_III, INVERSE_III, 21);
    assert InverseCell(WIRING_III, INVERSE_III, 22);
    assert InverseCell(WIRING_III, INVERSE_III, 23);
    assert InverseCell(WIRING_III, INVERSE_III, 24);
    assert InverseCell(WIRING_III, INVERSE_III, 25);
  }

  /** Rotor III is wired as a permutation. */
  lemma RotorIIIWiring()
    ensures Inverts(WIRING_III, INVERSE_III)
  {
    RotorIIILow();
    RotorIIIHigh();
    forall i | 0 <= i < 26
      ensures InverseCell(WIRING_III, INVERSE_III, i)
    {
      assert i == 0 || i == 1 || i == 2 || i == 3 || i == 4 || i == 5 || i == 6 || i == 7 || i == 8 || i == 9 || i == 10 || i == 11 || i == 12 || i == 13 || i == 14 || i == 15 || i == 16 || i == 17 || i == 18 || i == 19 || i == 20 || i == 21 || i == 22 || i == 23 || i == 24 || i == 25;
    }
  }

  /** The inverse of rotor IV: cell `k` holds the letter wired to letter `k`. */
  ghost const INVERSE_IV: string := "HZWVARTNLGUPXQCEJMBSKDYOIF"

  lemma RotorIVLow()
    ensures InverseCell(WIRING_IV, INVERSE_IV, 0)
      && InverseCell(WIRING_IV, INVERSE_IV, 1)
      && InverseCell(WIRING_IV, INVERSE_IV, 2)
      && InverseCell(WIRING_IV, INVERSE_IV, 3)
      && InverseCell(WIRING_IV, INVERSE_IV, 4)
      && InverseCell(WIRING_IV, INVERSE_IV, 5)
      && InverseCell(WIRING_IV, INVERSE_IV, 6)
      && InverseCell(WIRING_IV, INVERSE_IV, 7)
      && InverseCell(WIRING_IV, INVERSE_IV, 8)
      && InverseCell(WIRING_IV, INVERSE_IV, 9)
      && InverseCell(WIRING_IV, INVERSE_IV, 10)
      && InverseCell(WIRING_IV, INVERSE_IV, 11)
      && InverseCell(WIRING_IV, INVERSE_IV, 12)
  {
    assert InverseCell(WIRING_IV, INVERSE_IV, 0);
    assert InverseCell(WIRING_IV, INVERSE_IV, 1);
    assert InverseCell(WIRING_IV, INVERSE_IV, 2);
    assert InverseCell(WIRING_IV, INVERSE_IV, 3);
    assert InverseCell(WIRING_IV, INVERSE_IV, 4);
    assert InverseCell(WIRING_IV, INVERSE_IV, 5);
    assert InverseCell(WIRING_IV, INVERSE_IV, 6);
    assert InverseCell(WIRING_IV, INVERSE_IV, 7);
    assert InverseCell(WIRING_IV, INVERSE_IV, 8);
    assert InverseCell(WIRING_IV, INVERSE_IV, 9);
    assert InverseCell(WIRING_IV, INVERSE_IV, 10);
    assert InverseCell(WIRING_IV, INVERSE_IV, 11);
    assert InverseCell(WIRING_IV, INVERSE_IV, 12);
  }

  lemma RotorIVHigh()
    ensures InverseCell(WIRING_IV, INVERSE_IV, 13)
      && InverseCell(WIRING_IV, INVERSE_IV, 14)
      && InverseCell(WIRING_IV, INVERSE_IV, 15)
      && InverseCell(WIRING_IV, INVERSE_IV, 16)
      && InverseCell(WIRING_IV, INVERSE_IV, 17)
      && InverseCell(WIRING_IV, INVERSE_IV, 18)
      && InverseCell(WIRING_IV, INVERSE_IV, 19)
      && InverseCell(WIRING_IV, INVERSE_IV, 20)
      && InverseCell(WIRING_IV, INVERSE_IV, 21)
      && InverseCell(WIRING_IV, INVERSE_IV, 22)
      && InverseCell(WIRING_IV, INVERSE_IV, 23)
      && InverseCell(WIRING_IV, INVERSE_IV, 24)
      && InverseCell(WIRING_IV, INVERSE_IV, 25)
  {
    assert InverseCell(WIRING_IV, INVERSE_IV, 13);
    assert InverseCell(WIRING_IV, INVERSE_IV, 14);
    assert InverseCell(WIRING_IV, INVERSE_IV, 15);
    assert InverseCell(WIRING_IV, INVERSE_IV, 16);
    assert InverseCell(WIRING_IV, INVERSE_IV, 17);
    assert InverseCell(WIRING_IV, INVERSE_IV, 18);
    assert InverseCell(WIRING_IV, INVERSE_IV, 19);
    assert InverseCell(WIRING_IV, INVERSE_IV, 20);
    assert InverseCell(WIRING_IV, INVERSE_IV, 21);
    assert InverseCell(WIRING_IV, INVERSE_IV, 22);
    assert InverseCell(WIRING_IV, INVERSE_IV, 23);
    assert InverseCell(WIRING_IV, INVERSE_IV, 24);
    assert InverseCell(WIRING_IV, INVERSE_IV, 25);
  }

  /** Rotor IV is wired as a permutation. */
  lemma RotorIVWiring()
    ensures Inverts(WIRING_IV, INVERSE_IV)
  {
    RotorIVLow();
    RotorIVHigh();
    forall i | 0 <= i < 26
      ensures InverseCell(WIRING_IV, INVERSE_IV, i)
    {
      assert i == 0 || i == 1 || i == 2 || i == 3 || i == 4 || i == 5 || i == 6 || i == 7 || i == 8 || i == 9 || i == 10 || i == 11 || i == 12 || i == 13 || i == 14 || i == 15 || i == 16 || i == 17 || i == 18 || i == 19 || i == 20 || i == 21 || i == 22 || i == 23 || i == 24 || i == 25;
    }
  }

  /** The inverse of rotor V: cell `k` holds the letter wired to letter `k`. */
  ghost const INVERSE_V: string := "QCYLXWENFTZOSMVJUDKGIARPHB"

  lemma RotorVLow()
    ensures InverseCell(WIRING_V, INVERSE_V, 0)
      && InverseCell(WIRING_V, INVERSE_V, 1)
      && InverseCell(WIRING_V, INVERSE_V, 2)
      && InverseCell(WIRING_V, INVERSE_V, 3)
      && InverseCell(WIRING_V, INVERSE_V, 4)
      && InverseCell(WIRING_V, INVERSE_V, 5)
      && InverseCell(WIRING_V, INVERSE_V, 6)
      && InverseCell(WIRING_V, INVERSE_V, 7)
      && InverseCell(WIRING_V, INVERSE_V, 8)
      && InverseCell(WIRING_V, INVERSE_V, 9)
      && InverseCell(WIRING_V, INVERSE_V, 10)
      && InverseCell(WIRING_V, INVERSE_V, 11)
      && InverseCell(WIRING_V, INVERSE_V, 12)
  {
    assert InverseCell(WIRING_V, INVERSE_V, 0);
    assert InverseCell(WIRING_V, INVERSE_V, 1);
    assert InverseCell(WIRING_V, INVERSE_V, 2);
    assert InverseCell(WIRING_V, INVERSE_V, 3);
    assert InverseCell(WIRING_V, INVERSE_V, 4);
    assert InverseCell(WIRING_V, INVERSE_V, 5);
    assert InverseCell(WIRING_V, INVERSE_V, 6);
    assert InverseCell(WIRING_V, INVERSE_V, 7);
    assert InverseCell(WIRING_V, INVERSE_V, 8);
    assert InverseCell(WIRING_V, INVERSE_V, 9);
    assert InverseCell(WIRING_V, INVERSE_V, 10);
    assert InverseCell(WIRING_V, INVERSE_V, 11);
    assert InverseCell(WIRING_V, INVERSE_V, 12);
  }

  lemma RotorVHigh()
    ensures InverseCell(WIRING_V, INVERSE_V, 13)
      && InverseCell(WIRING_V, INVERSE_V, 14)
      && InverseCell(WIRING_V, INVERSE_V, 15)
      && InverseCell(WIRING_V, INVERSE_V, 16)
      && InverseCell(WIRING_V, INVERSE_V, 17)
      && InverseCell(WIRING_V, INVERSE_V, 18)
      && InverseCell(WIRING_V, INVERSE_V, 19)
      && InverseCell(WIRING_V, INVERSE_V, 20)
      && InverseCell(WIRING_V, INVERSE_V, 21)
      && InverseCell(WIRING_V, INVERSE_V, 22)
      && InverseCell(WIRING_V, INVERSE_V, 23)
      && InverseCell(WIRING_V, INVERSE_V, 24)
      && InverseCell(WIRING_V, INVERSE_V, 25)
  {
    assert InverseCell(WIRING_V, INVERSE_V, 13);
    assert InverseCell(WIRING_V, INVERSE_V, 14);
    assert InverseCell(WIRING_V, INVERSE_V, 15);
    assert InverseCell(WIRING_V, INVERSE_V, 16);
    assert InverseCell(WIRING_V, INVERSE_V, 17);
    assert InverseCell(WIRING_V, INVERSE_V, 18);
    assert InverseCell(WIRING_V, INVERSE_V, 19);
    assert InverseCell(WIRING_V, INVERSE_V, 20);
    assert InverseCell(WIRING_V, INVERSE_V, 21);
    assert InverseCell(WIRING_V, INVERSE_V, 22);
    assert InverseCell(WIRING_V, INVERSE_V, 23);
    assert InverseCell(WIRING_V, INVERSE_V, 24);
    assert InverseCell(WIRING_V, INVERSE_V, 25);
  }

  /** Rotor V is wired as a permutation. */
  lemma RotorVWiring()
    ensures Inverts(WIRING_V, INVERSE_V)
  {
    RotorVLow();
    RotorVHigh();
    forall i | 0 <= i < 26
      ensures InverseCell(WIRING_V, INVERSE_V, i)
    {
      assert i == 0 || i == 1 || i == 2 || i == 3 || i == 4 || i == 5 || i == 6 || i == 7 || i == 8 || i == 9 || i == 10 || i == 11 || i == 12 || i == 13 || i == 14 || i == 15 || i == 16 || i == 17 || i == 18 || i == 19 || i == 20 || i == 21 || i == 22 || i == 23 || i == 24 || i == 25;
    }
  }

  lemma ReflectorBLow()
    ensures ReflectorCell(REFLECTOR_B, 0)
      && ReflectorCell(REFLECTOR_B, 1)
      && ReflectorCell(REFLECTOR_B, 2)
      && ReflectorCell(REFLECTOR_B, 3)
      && ReflectorCell(REFLECTOR_B, 4)
      && ReflectorCell(REFLECTOR_B, 5)
      && ReflectorCell(REFLECTOR_B, 6)
      && ReflectorCell(REFLECTOR_B, 7)
      && ReflectorCell(REFLECTOR_B, 8)
      && ReflectorCell(REFLECTOR_B, 9)
      && ReflectorCell(REFLECTOR_B, 10)
      && ReflectorCell(REFLECTOR_B, 11)
      && ReflectorCell(REFLECTOR_B, 12)
  {
    assert ReflectorCell(REFLECTOR_B, 0);
    assert ReflectorCell(REFLECTOR_B, 1);
    assert ReflectorCell(REFLECTOR_B, 2);
    assert ReflectorCell(REFLECTOR_B, 3);
    assert ReflectorCell(REFLECTOR_B, 4);
    assert ReflectorCell(REFLECTOR_B, 5);
    assert ReflectorCell(REFLECTOR_B, 6);
    assert ReflectorCell(REFLECTOR_B, 7);
    assert ReflectorCell(REFLECTOR_B, 8);
    assert ReflectorCell(REFLECTOR_B, 9);
    assert ReflectorCell(REFLECTOR_B, 10);
    assert ReflectorCell(REFLECTOR_B, 11);
    assert ReflectorCell(REFLECTOR_B, 12);
  }

  lemma ReflectorBHigh()
    ensures ReflectorCell(REFLECTOR_B, 13)
      && ReflectorCell(REFLECTOR_B, 14)
      && ReflectorCell(REFLECTOR_B, 15)
      && ReflectorCell(REFLECTOR_B, 16)
      && ReflectorCell(REFLECTOR_B, 17)
      && ReflectorCell(REFLECTOR_B, 18)
      && ReflectorCell(REFLECTOR_B, 19)
      && ReflectorCell(REFLECTOR_B, 20)
      && ReflectorCell(REFLECTOR_B, 21)
      && ReflectorCell(REFLECTOR_B, 22)
      && ReflectorCell(REFLECTOR_B, 23)
      && ReflectorCell(REFLECTOR_B, 24)
      && ReflectorCell(REFLECTOR_B, 25)
  {
    assert ReflectorCell(REFLECTOR_B, 13);
    assert ReflectorCell(REFLECTOR_B, 14);
    assert ReflectorCell(REFLECTOR_B, 15);
    assert ReflectorCell(REFLECTOR_B, 16);
    assert ReflectorCell(REFLECTOR_B, 17);
    assert ReflectorCell(REFLECTOR_B, 18);
    assert ReflectorCell(REFLECTOR_B, 19);
    assert ReflectorCell(REFLECTOR_B, 20);
    assert ReflectorCell(REFLECTOR_B, 21);
    assert ReflectorCell(REFLECTOR_B, 22);
    assert ReflectorCell(REFLECTOR_B, 23);
    assert ReflectorCell(REFLECTOR_B, 24);
    assert ReflectorCell(REFLECTOR_B, 25);
  }

  /** Reflector B pairs the letters off. */
  lemma ReflectorBWiring()
    ensures IsReflector(REFLECTOR_B)
  {
    ReflectorBLow();
    ReflectorBHigh();
    forall i | 0 <= i < 26
      ensures ReflectorCell(REFLECTOR_B, i)
    {
      assert i == 0 || i == 1 || i == 2 || i == 3 || i == 4 || i == 5 || i == 6 || i == 7 || i == 8 || i == 9 || i == 10 || i == 11 || i == 12 || i == 13 || i == 14 || i == 15 || i == 16 || i == 17 || i == 18 || i == 19 || i == 20 || i == 21 || i == 22 || i == 23 || i == 24 || i == 25;
    }
  }

  lemma ReflectorCLow()
    ensures ReflectorCell(REFLECTOR_C, 0)
      && ReflectorCell(REFLECTOR_C, 1)
      && ReflectorCell(REFLECTOR_C, 2)
      && ReflectorCell(REFLECTOR_C, 3)
      && ReflectorCell(REFLECTOR_C, 4)
      && ReflectorCell(REFLECTOR_C, 5)
      && ReflectorCell(REFLECTOR_C, 6)
      && ReflectorCell(REFLECTOR_C, 7)
      && ReflectorCell(REFLECTOR_C, 8)
      && ReflectorCell(REFLECTOR_C, 9)
      && ReflectorCell(REFLECTOR_C, 10)
      && ReflectorCell(REFLECTOR_C, 11)
      && ReflectorCell(REFLECTOR_C, 12)
  {
    assert ReflectorCell(REFLECTOR_C, 0);
    assert ReflectorCell(REFLECTOR_C, 1);
    assert ReflectorCell(REFLECTOR_C, 2);
    assert ReflectorCell(REFLECTOR_C, 3);
    assert ReflectorCell(REFLECTOR_C, 4);
    assert ReflectorCell(REFLECTOR_C, 5);
    assert ReflectorCell(REFLECTOR_C, 6);
    assert ReflectorCell(REFLECTOR_C, 7);
    assert ReflectorCell(REFLECTOR_C, 8);
    assert ReflectorCell(REFLECTOR_C, 9);
    assert ReflectorCell(REFLECTOR_C, 10);
    assert ReflectorCell(REFLECTOR_C, 11);
    assert ReflectorCell(REFLECTOR_C, 12);
  }

  lemma ReflectorCHigh()
    ensures ReflectorCell(REFLECTOR_C, 13)
      && ReflectorCell(REFLECTOR_C, 14)
      && ReflectorCell(REFLECTOR_C, 15)
      && ReflectorCell(REFLECTOR_C, 16)
      && ReflectorCell(REFLECTOR_C, 17)
      && ReflectorCell(REFLECTOR_C, 18)
      && ReflectorCell(REFLECTOR_C, 19)
      && ReflectorCell(REFLECTOR_C, 20)
      && ReflectorCell(REFLECTOR_C, 21)
      && ReflectorCell(REFLECTOR_C, 22)
      && ReflectorCell(REFLECTOR_C, 23)
      && ReflectorCell(REFLECTOR_C, 24)
      && ReflectorCell(REFLECTOR_C, 25)
  {
    assert ReflectorCell(REFLECTOR_C, 13);
    assert ReflectorCell(REFLECTOR_C, 14);
    assert ReflectorCell(REFLECTOR_C, 15);
    assert ReflectorCell(REFLECTOR_C, 16);
    assert ReflectorCell(REFLECTOR_C, 17);
    assert ReflectorCell(REFLECTOR_C, 18);
    assert ReflectorCell(REFLECTOR_C, 19);
    assert ReflectorCell(REFLECTOR_C, 20);
    assert ReflectorCell(REFLECTOR_C, 21);
    assert ReflectorCell(REFLECTOR_C, 22);
    assert ReflectorCell(REFLECTOR_C, 23);
    assert ReflectorCell(REFLECTOR_C, 24);
    assert ReflectorCell(REFLECTOR_C, 25);
  }

  /** Reflector C pairs the letters off. */
  lemma ReflectorCWiring()
    ensures IsReflector(REFLECTOR_C)
  {
    ReflectorCLow();
    ReflectorCHigh();
    forall i | 0 <= i < 26
      ensures ReflectorCell(REFLECTOR_C, i)
    {
      assert i == 0 || i == 1 || i == 2 || i == 3 || i == 4 || i == 5 || i == 6 || i == 7 || i == 8 || i == 9 || i == 10 || i == 11 || i == 12 || i == 13 || i == 14 || i == 15 || i == 16 || i == 17 || i == 18 || i == 19 || i == 20 || i == 21 || i == 22 || i == 23 || i == 24 || i == 25;
    }
  }

  /** Every rotor of the catalog is wired as a permutation. */
  lemma CatalogRotorWiring(name: string)
    requires CatalogRotor(name).Some?
    ensures IsWiring(CatalogRotor(name).value.wiring)
  {
    if name == "I" {
      RotorIWiring();
    } else if name == "II" {
      RotorIIWiring();
    } else if name == "III" {
      RotorIIIWiring();
    } else if name == "IV" {
      RotorIVWiring();
    } else if name == "V" {
      RotorVWiring();
    }
  }

  /** Every reflector of the catalog is an involution without a fixed point. */
  lemma CatalogReflectorWiring(name: string)
    requires CatalogReflector(name).Some?
    ensures IsReflector(CatalogReflector(name).value)
  {
    if name == "B" {
      ReflectorBWiring();
    } else {
      ReflectorCWiring();
    }
  }

  // ---------------------------------------------------------------- one rotor

  /** `rotorForward`: the signal enters the rotor turned to `pos` and leaves by its wiring. */
  function RotorForward(w: string, signal: int, pos: int): (r: int)
    requires |w| == 26
    ensures 0 <= r < 26
  {
    PosMod(Ord(w[PosMod(signal + pos, 26)]) - pos, 26)
  }

  /** `rotorBackward`: the signal enters on the left and leaves where `indexOf` finds its letter. */
  function RotorBackward(w: string, signal: int, pos: int): (r: int)
    requires |w| == 26
    ensures 0 <= r < 26
  {
    PosMod(IndexOf(w, Chr(PosMod(signal + pos, 26))) - pos, 26)
  }

  lemma ChrOfOrd(c: char, k: int)
    requires IsUpper(c) && Ord(c) == k
    ensures 0 <= k < 26 && Chr(k) == c
  {
  }

  /** In a permutation `indexOf` finds letter `k` at the cell the inverse names. */
  lemma IndexOfInverse(w: string, inv: string, k: int)
    requires Inverts(w, inv) && 0 <= k < 26
    ensures IndexOf(w, Chr(k)) == Ord(inv[k])
  {
    assert InverseCell(w, inv, k);
    var j := Ord(inv[k]);
    ChrOfOrd(w[j], k);
    var i := IndexOf(w, Chr(k));
    assert InverseCell(w, inv, i);
  }

  /** Going back through a rotor at the same position undoes going forward. */
  lemma BackwardForward(w: string, signal: int, pos: int)
    requires IsWiring(w) && 0 <= signal < 26
    ensures RotorBackward(w, RotorForward(w, signal, pos), pos) == signal
  {
    var inv :| Inverts(w, inv);
    var j := (signal + pos) % 26;
    assert InverseCell(w, inv, j);
    var a := Ord(w[j]);
    var f := RotorForward(w, signal, pos);
    assert f == (a - pos) % 26;
    ResidueShift(a - pos, pos, 26);
    ModUnique(a, 26, 0, a);
    assert PosMod(f + pos, 26) == a;
    ChrOfOrd(w[j], a);
    IndexOfInverse(w, inv, a);
    assert IndexOf(w, Chr(a)) == j;
    ResidueShift(signal + pos, -pos, 26);
    ModUnique(signal, 26, 0, signal);
    assert RotorBackward(w, f, pos) == (j - pos) % 26;
  }

  /** Going forward through a rotor at the same position undoes going back. */
  lemma ForwardBackward(w: string, signal: int, pos: int)
    requires IsWiring(w) && 0 <= signal < 26
    ensures RotorForward(w, RotorBackward(w, signal, pos), pos) == signal
  {
    var inv :| Inverts(w, inv);
    var k := (signal + pos) % 26;
    IndexOfInverse(w, inv, k);
    assert InverseCell(w, inv, k);
    var j := Ord(inv[k]);
    var b := RotorBackward(w, signal, pos);
    assert b == (j - pos) % 26;
    ResidueShift(j - pos, pos, 26);
    ModUnique(j, 26, 0, j);
    assert PosMod(b + pos, 26) == j;
    ResidueShift(signal + pos, -pos, 26);
    ModUnique(signal, 26, 0, signal);
    assert RotorForward(w, b, pos) == (k - pos) % 26;
  }

  // ---------------------------------------------------------------- the machine

  /** Every wiring of the machine has 26 cells. */
  predicate Sized(m: Machine)
  {
    |m.left.wiring| == 26 && |m.middle.wiring| == 26 && |m.right.wiring| == 26 && |m.reflector| == 26
  }

  /** Rotors wired as permutations and a reflector that pairs the letters off. */
  ghost predicate ValidMachine(m: Machine)
  {
    && IsWiring(m.left.wiring) && IsWiring(m.middle.wiring) && IsWiring(m.right.wiring)
    && IsReflector(m.reflector)
  }

  /** The path from the entry to the reflector: right, middle, then left rotor. */
  function Inward(m: Machine, w: Window, x: int): (r: int)
    requires Sized(m)
    ensures 0 <= r < 26
  {
    RotorForward(m.left.wiring, RotorForward(m.middle.wiring, RotorForward(m.right.wiring, x, w.right), w.middle), w.left)
  }

  /** The path from the reflector to the exit: left, middle, then right rotor. */
  function Outward(m: Machine, w: Window, y: int): (r: int)
    requires Sized(m)
    ensures 0 <= r < 26
  {
    RotorBackward(m.right.wiring, RotorBackward(m.middle.wiring, RotorBackward(m.left.wiring, y, w.left), w.middle), w.right)
  }

  /** The reflector: `reflWiring.charCodeAt(signal) - 65`. */
  function Reflect(m: Machine, a: int): int
    requires Sized(m) && 0 <= a < 26
  {
    Ord(m.reflector[a])
  }

  /** The signal path of one key press with the rotors at `w`. */
  function Press(m: Machine, w: Window, x: int): (y: int)
    requires Sized(m)
    ensures 0 <= y < 26
  {
    Outward(m, w, Reflect(m, Inward(m, w, x)))
  }

  lemma OutwardInward(m: Machine, w: Window, x: int)
    requires Sized(m) && ValidMachine(m) && 0 <= x < 26
    ensures Outward(m, w, Inward(m, w, x)) == x
  {
    var a := RotorForward(m.right.wiring, x, w.right);
    var b := RotorForward(m.middle.wiring, a, w.middle);
    BackwardForward(m.left.wiring, b, w.left);
    BackwardForward(m.middle.wiring, a, w.middle);
    BackwardForward(m.right.wiring, x, w.right);
  }

  lemma InwardOutward(m: Machine, w: Window, y: int)
    requires Sized(m) && ValidMachine(m) && 0 <= y < 26
    ensures Inward(m, w, Outward(m, w, y)) == y
  {
    var a := RotorBackward(m.left.wiring, y, w.left);
    var b := RotorBackward(m.middle.wiring, a, w.middle);
    ForwardBackward(m.right.wiring, b, w.right);
    ForwardBackward(m.middle.wiring, a, w.middle);
    ForwardBackward(m.left.wiring, y, w.left);
  }

  /** With the rotors standing still, pressing the output letter gives the input letter back. */
  lemma PressTwice(m: Machine, w: Window, x: int)
    requires Sized(m) && ValidMachine(m) && 0 <= x < 26
    ensures Press(m, w, Press(m, w, x)) == x
  {
    var a := Inward(m, w, x);
    assert ReflectorCell(m.reflector, a);
    var y := Reflect(m, a);
    InwardOutward(m, w, y);
    assert ReflectorCell(m.reflector, y);
    OutwardInward(m, w, x);
  }

  /** No letter is ever enciphered to itself. */
  lemma PressMoves(m: Machine, w: Window, x: int)
    requires Sized(m) && ValidMachine(m) && 0 <= x < 26
    ensures Press(m, w, x) != x
  {
    var a := Inward(m, w, x);
    assert ReflectorCell(m.reflector, a);
    var y := Reflect(m, a);
    InwardOutward(m, w, y);
  }

  // ---------------------------------------------------------------- stepping

  /**
    The stepping before each key press: the middle rotor at its notch turns
    itself and the left rotor; otherwise the right rotor at its notch turns the
    middle one; the right rotor always turns.
  */
  /** One position further round, as `posMod(p + 1, 26)`. */
  function Step(p: int): (r: int)
    ensures r == (p + 1) % 26
  {
    PosMod(p + 1, 26)
  }

  function Advance(m: Machine, w: Window): (r: Window)
    ensures r.right == (w.right + 1) % 26
    ensures r.middle == if w.middle == m.middle.notch || w.right == m.right.notch then (w.middle + 1) % 26 else w.middle
    ensures r.left == if w.middle == m.middle.notch then (w.left + 1) % 26 else w.left
  {
    if w.middle == m.middle.notch then Window(Step(w.left), Step(w.middle), Step(w.right))
    else if w.right == m.right.notch then Window(w.left, Step(w.middle), Step(w.right))
    else Window(w.left, w.middle, Step(w.right))
  }

  /** The windows after `k` key presses. */
  function Turn(m: Machine, w: Window, k: nat): Window
  {
    if k == 0 then w else Advance(m, Turn(m, w, k - 1))
  }

  /** The right rotor advances by one position per key press, counted from where it started. */
  lemma {:induction false} RightAfter(m: Machine, w: Window, k: nat)
    requires k > 0
    ensures Turn(m, w, k).right == (w.right + k) % 26
  {
    assert Turn(m, w, k) == Advance(m, Turn(m, w, k - 1));
    if k > 1 {
      RightAfter(m, w, k - 1);
      ResidueShift(w.right + k - 1, 1, 26);
    }
  }

  /**
    The double step: when the right rotor turns the middle one onto its notch,
    the very next key press turns the middle rotor again, and the left one with it.
  */
  lemma DoubleStep(m: Machine, w: Window)
    requires 0 <= w.left < 26 && 0 <= w.middle < 26
    requires w.right == m.right.notch && w.middle != m.middle.notch && (w.middle + 1) % 26 == m.middle.notch
    ensures Turn(m, w, 1).middle == m.middle.notch
    ensures Turn(m, w, 2).middle == (w.middle + 2) % 26 && Turn(m, w, 2).left == (w.left + 1) % 26
  {
    assert Turn(m, w, 2) == Advance(m, Turn(m, w, 1));
    ResidueShift(w.middle + 1, 1, 26);
  }

  // ---------------------------------------------------------------- a message

  /** The letters the machine prints for the normalised text `s`, the rotors starting at `w`. */
  function Output(m: Machine, w: Window, s: string): (r: string)
    requires Sized(m)
    ensures |r| == |s| && AllUpper(r)
    decreases |s|
  {
    if s == [] then []
    else
      var w' := Advance(m, w);
      [Chr(Press(m, w', Ord(s[0])))] + Output(m, w', s[1..])
  }

  /** Letter `i` is enciphered with the rotors as `i + 1` presses have left them. */
  lemma {:induction false} OutputAt(m: Machine, w: Window, s: string, i: int)
    requires Sized(m) && 0 <= i < |s|
    ensures Output(m, w, s)[i] == Chr(Press(m, Turn(m, w, i + 1), Ord(s[i])))
    decreases i
  {
    var w' := Advance(m, w);
    assert Output(m, w, s) == [Chr(Press(m, w', Ord(s[0])))] + Output(m, w', s[1..]);
    if i == 0 {
      assert Turn(m, w, 1) == w';
    } else {
      OutputAt(m, w', s[1..], i - 1);
      TurnFirst(m, w, i);
      assert s[1..][i - 1] == s[i];
    }
  }

  /** Turning once and then `k` times is turning `k + 1` times. */
  lemma {:induction false} TurnFirst(m: Machine, w: Window, k: nat)
    ensures Turn(m, Advance(m, w), k) == Turn(m, w, k + 1)
  {
    if k > 0 {
      TurnFirst(m, w, k - 1);
    }
  }

  /** Enciphering the output again with the same start restores the text. */
  lemma {:induction false} OutputTwice(m: Machine, w: Window, s: string)
    requires Sized(m) && ValidMachine(m) && AllUpper(s)
    ensures Output(m, w, Output(m, w, s)) == s
    decreases |s|
  {
    if s != [] {
      var w' := Advance(m, w);
      var c := Output(m, w, s);
      assert s == [s[0]] + s[1..];
      assert c == [c[0]] + c[1..];
      assert c[1..] == Output(m, w', s[1..]);
      OutputTwice(m, w', s[1..]);
      LetterTwice(m, w', s[0]);
    }
  }

  lemma LetterTwice(m: Machine, w: Window, ch: char)
    requires Sized(m) && ValidMachine(m) && IsUpper(ch)
    ensures Chr(Press(m, w, Ord(Chr(Press(m, w, Ord(ch)))))) == ch
  {
    ChrOrd(ch);
    PressTwice(m, w, Ord(ch));
  }

  /** No letter of the output equals the letter of the text it came from. */
  lemma OutputMoves(m: Machine, w: Window, s: string)
    requires Sized(m) && ValidMachine(m) && AllUpper(s)
    ensures forall i :: 0 <= i < |s| ==> Output(m, w, s)[i] != s[i]
  {
    forall i | 0 <= i < |s|
      ensures Output(m, w, s)[i] != s[i]
    {
      OutputAt(m, w, s, i);
      ChrOrd(s[i]);
      PressMoves(m, Turn(m, w, i + 1), Ord(s[i]));
    }
  }

  // ---------------------------------------------------------------- enigma

  /**
    The members of `Object.prototype`, the prototype of the object literals
    `ROTOR_WIRINGS` and `REFLECTOR_WIRINGS`. Looking one of these names up in a
    table finds a function or an object: truthy, but not a wiring string.
  */
  const INHERITED: set<string> := {
    "__defineGetter__", "__defineSetter__", "__lookupGetter__", "__lookupSetter__", "__proto__",
    "constructor", "hasOwnProperty", "isPrototypeOf", "propertyIsEnumerable",
    "toLocaleString", "toString", "valueOf"
  }

  /** `ROTOR_WIRINGS[name]` is truthy: a catalog rotor or an inherited member. */
  predicate KnownRotor(name: string)
  {
    CatalogRotor(name).Some? || name in INHERITED
  }

  /** `REFLECTOR_WIRINGS[name]` is truthy: a catalog reflector or an inherited member. */
  predicate KnownReflector(name: string)
  {
    CatalogReflector(name).Some? || name in INHERITED
  }

  /** The three rotors the key presses use and the reflector all have wirings in the catalog. */
  predicate Wired(rotors: seq<string>, reflector: string)
    requires |rotors| >= 3
  {
    CatalogReflector(reflector).Some? && forall i :: 0 <= i < 3 ==> CatalogRotor(rotors[i]).Some?
  }

  /** The first rotor name that the validation loop rejects, in the order it meets them. */
  function FirstUnknown(names: seq<string>): (r: Option<string>)
    ensures r.None? <==> forall i :: 0 <= i < |names| ==> KnownRotor(names[i])
    ensures r.Some? ==> r.value in names && !KnownRotor(r.value)
  {
    if names == [] then None
    else if !KnownRotor(names[0]) then Some(names[0])
    else
      var r := FirstUnknown(names[1..]);
      assert forall i :: 1 <= i < |names| ==> names[i] == names[1..][i - 1];
      r
  }

  lemma {:induction false} FirstUnknownAt(names: seq<string>, k: int)
    requires 0 <= k < |names| && !KnownRotor(names[k])
    requires forall i :: 0 <= i < k ==> KnownRotor(names[i])
    ensures FirstUnknown(names) == Some(names[k])
  {
    if k > 0 {
      FirstUnknownAt(names[1..], k - 1);
    }
  }

  /**
    The machine the names describe. The reflector is checked first, then every
    rotor name. A name that passes only through `Object.prototype` leaves its
    place without a wiring: the first key press that reads it (right, middle,
    left rotor, then the reflector) fails.
  */
  function Configure(rotors: seq<string>, reflector: string): (r: Result<Machine>)
    requires |rotors| >= 3
    ensures r.Ok? ==> Sized(r.value) && ValidMachine(r.value)
    ensures r.Ok? <==> Wired(rotors, reflector) && forall i :: 0 <= i < |rotors| ==> KnownRotor(rotors[i])
    ensures r.Err? && !r.error.NoWiring? <==> !KnownReflector(reflector) || exists i :: 0 <= i < |rotors| && !KnownRotor(rotors[i])
    ensures !KnownReflector(reflector) ==> r == Err(UnknownReflector(reflector))
    ensures r.Err? ==> r.error.UnknownReflector? || r.error.UnknownRotor? || r.error.NoWiring?
    ensures r.Err? && r.error.UnknownRotor? ==> r.error.name in rotors && !KnownRotor(r.error.name)
    ensures r.Err? && r.error.NoWiring? ==> r.error.name in INHERITED && (r.error.name in rotors[..3] || r.error.name == reflector)
  {
    if !KnownReflector(reflector) then Err(UnknownReflector(reflector))
    else if FirstUnknown(rotors).Some? then Err(UnknownRotor(FirstUnknown(rotors).value))
    else if CatalogRotor(rotors[2]).None? then Err(NoWiring(rotors[2]))
    else if CatalogRotor(rotors[1]).None? then Err(NoWiring(rotors[1]))
    else if CatalogRotor(rotors[0]).None? then Err(NoWiring(rotors[0]))
    else if CatalogReflector(reflector).None? then Err(NoWiring(reflector))
    else
      var l, mid, rt := CatalogRotor(rotors[0]).value, CatalogRotor(rotors[1]).value, CatalogRotor(rotors[2]).value;
      CatalogRotorWiring(rotors[0]);
      CatalogRotorWiring(rotors[1]);
      CatalogRotorWiring(rotors[2]);
      CatalogReflectorWiring(reflector);
      Ok(Machine(l, mid, rt, CatalogReflector(reflector).value))
  }

  /** What `enigma` returns or throws; a missing wiring is never read when no letter is pressed. */
  function EnigmaSpec(text: string, rotors: seq<string>, reflector: string, positions: seq<int>): (r: Result<string>)
    requires |rotors| >= 3 && |positions| >= 3
  {
    match Configure(rotors, reflector)
    case Err(e) => if e.NoWiring? && ToAlpha(text) == [] then Ok("") else Err(e)
    case Ok(m) => Ok(Output(m, Window(positions[0], positions[1], positions[2]), ToAlpha(text)))
  }

  /** Output of the rest of the text: the next letter, then the rest after one more step. */
  lemma OutputStep(m: Machine, w: Window, s: string, i: int)
    requires Sized(m) && 0 <= i < |s|
    ensures Output(m, w, s[i..]) == [Chr(Press(m, Advance(m, w), Ord(s[i])))] + Output(m, Advance(m, w), s[i + 1..])
  {
    assert s[i..][0] == s[i] && s[i..][1..] == s[i + 1..];
  }

  /**
    The checks at the head of `enigma`, the reflector name and then every rotor
    name in turn, followed by the wirings the first key press reads.
  */
  method CheckNames(rotors: seq<string>, reflector: string) returns (r: Result<Machine>)
    requires |rotors| >= 3
    ensures r == Configure(rotors, reflector)
  {
    var refl := CatalogReflector(reflector);
    if refl.None? && reflector !in INHERITED {
      return Err(UnknownReflector(reflector));
    }
    for k := 0 to |rotors|
      invariant forall i :: 0 <= i < k ==> KnownRotor(rotors[i])
    {
      if !KnownRotor(rotors[k]) {
        FirstUnknownAt(rotors, k);
        return Err(UnknownRotor(rotors[k]));
      }
    }
    if CatalogRotor(rotors[2]).None? {
      return Err(NoWiring(rotors[2]));
    }
    if CatalogRotor(rotors[1]).None? {
      return Err(NoWiring(rotors[1]));
    }
    if CatalogRotor(rotors[0]).None? {
      return Err(NoWiring(rotors[0]));
    }
    if refl.None? {
      return Err(NoWiring(reflector));
    }
    r := Ok(Machine(CatalogRotor(rotors[0]).value, CatalogRotor(rotors[1]).value, CatalogRotor(rotors[2]).value, refl.value));
  }

  /** The stepping at the head of each key press, on the copied positions. */
  method StepRotors(m: Machine, pos: array<int>)
    requires pos.Length >= 3
    modifies pos
    ensures Window(pos[0], pos[1], pos[2]) == Advance(m, old(Window(pos[0], pos[1], pos[2])))
    ensures forall i :: 3 <= i < pos.Length ==> pos[i] == old(pos[i])
  {
    if pos[1] == m.middle.notch {
      pos[0] := PosMod(pos[0] + 1, 26);
      pos[1] := PosMod(pos[1] + 1, 26);
    } else if pos[2] == m.right.notch {
      pos[1] := PosMod(pos[1] + 1, 26);
    }
    pos[2] := PosMod(pos[2] + 1, 26);
  }

  /**
    `enigma(text, rotors, reflector, initialPositions)`: rotor names left to
    right, start positions left to right. The positions live in a copy that
    each key press updates.
  */
  method Enigma(text: string, rotors: seq<string>, reflector: string, positions: seq<int>) returns (r: Result<string>)
    requires |rotors| >= 3 && |positions| >= 3
    ensures r == EnigmaSpec(text, rotors, reflector, positions)
  {
    var clean := ToAlpha(text);
    var checked := CheckNames(rotors, reflector);
    if checked.Err? {
      if checked.error.NoWiring? && |clean| == 0 {
        return Ok("");
      }
      return Err(checked.error);
    }
    var m := checked.value;
    var pos := new int[|positions|](i requires 0 <= i < |positions| => positions[i]);
    ghost var start := Window(positions[0], positions[1], positions[2]);
    assert Window(pos[0], pos[1], pos[2]) == start;
    var result := "";
    for i := 0 to |clean|
      invariant Output(m, start, clean) == result + Output(m, Window(pos[0], pos[1], pos[2]), clean[i..])
    {
      ghost var before := Window(pos[0], pos[1], pos[2]);
      OutputStep(m, before, clean, i);
      StepRotors(m, pos);
      var signal := Ord(clean[i]);
      signal := RotorForward(m.right.wiring, signal, pos[2]);
      signal := RotorForward(m.middle.wiring, signal, pos[1]);
      signal := RotorForward(m.left.wiring, signal, pos[0]);
      signal := Ord(m.reflector[signal]);
      signal := RotorBackward(m.left.wiring, signal, pos[0]);
      signal := RotorBackward(m.middle.wiring, signal, pos[1]);
      signal := RotorBackward(m.right.wiring, signal, pos[2]);
      assert signal == Press(m, Window(pos[0], pos[1], pos[2]), Ord(clean[i]));
      AppendAssoc(result, [Chr(signal)], Output(m, Window(pos[0], pos[1], pos[2]), clean[i + 1..]));
      result := result + [Chr(signal)];
    }
    assert clean[|clean|..] == [];
    assert result == Output(m, start, clean);
    return Ok(result);
  }

  /** The output has one letter A..Z per letter of the normalised text, and errors are the catalog's. */
  lemma EnigmaShape(text: string, rotors: seq<string>, reflector: string, positions: seq<int>)
    requires |rotors| >= 3 && |positions| >= 3
    ensures var r := EnigmaSpec(text, rotors, reflector, positions);
      && (r.Ok? ==> |r.value| == |ToAlpha(text)| && AllUpper(r.value))
      && (r.Err? <==> || !KnownReflector(reflector)
                      || (exists i :: 0 <= i < |rotors| && !KnownRotor(rotors[i]))
                      || (ToAlpha(text) != [] && !Wired(rotors, reflector)))
  {
  }

  /** The machine is reciprocal: enciphering the ciphertext with the same settings gives the normalised text. */
  lemma Reciprocal(text: string, rotors: seq<string>, reflector: string, positions: seq<int>)
    requires |rotors| >= 3 && |positions| >= 3
    requires EnigmaSpec(text, rotors, reflector, positions).Ok?
    ensures EnigmaSpec(EnigmaSpec(text, rotors, reflector, positions).value, rotors, reflector, positions) == Ok(ToAlpha(text))
  {
    if Configure(rotors, reflector).Ok? {
      var m := Configure(rotors, reflector).value;
      var w := Window(positions[0], positions[1], positions[2]);
      var c := Output(m, w, ToAlpha(text));
      ToAlphaOfUpper(c);
      OutputTwice(m, w, ToAlpha(text));
    } else {
      assert ToAlpha("") == [];
    }
  }

  /** No letter of the ciphertext equals the letter it enciphers. */
  lemma NoLetterToItself(text: string, rotors: seq<string>, reflector: string, positions: seq<int>)
    requires |rotors| >= 3 && |positions| >= 3
    requires EnigmaSpec(text, rotors, reflector, positions).Ok?
    ensures var c := EnigmaSpec(text, rotors, reflector, positions).value;
      forall i :: 0 <= i < |c| ==> c[i] != ToAlpha(text)[i]
  {
    if Configure(rotors, reflector).Ok? {
      var m := Configure(rotors, reflector).value;
      OutputMoves(m, Window(positions[0], positions[1], positions[2]), ToAlpha(text));
    }
  }

  /** A fourth rotor is never read, so a name inherited from `Object.prototype` there is harmless. */
  lemma InheritedFourthRotor(text: string)
    ensures EnigmaSpec(text, ["I", "II", "III", "constructor"], "B", [0, 0, 0]) == EnigmaSpec(text, ["I", "II", "III"], "B", [0, 0, 0])
  {
    assert Configure(["I", "II", "III", "constructor"], "B") == Configure(["I", "II", "III"], "B");
  }

  /** An inherited reflector passes validation; it fails only once a letter is pressed. */
  lemma InheritedReflector()
    ensures EnigmaSpec("", ["I", "II", "III"], "toString", [0, 0, 0]) == Ok("")
    ensures EnigmaSpec("A", ["I", "II", "III"], "toString", [0, 0, 0]) == Err(NoWiring("toString"))
    ensures EnigmaSpec("A", ["I", "II", "III"], "prototype", [0, 0, 0]) == Err(UnknownReflector("prototype"))
  {
    assert ToAlpha("") == [];
    assert ToAlpha("A") == "A";
  }
}
