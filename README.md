# Classical ciphers and Conway's Game of Life, modelled in Dafny

The project models two parts of one repository.

- **kripto-klasik.** This is the cipher library behind a web page about classical cryptography. It covers:
  - the shared helpers: normalising text to A..Z, `posMod`, `gcd` and `modInverse`;
  - the Vigenère, affine, Playfair and Hill (N×N) ciphers, each with its step-by-step trace;
  - the historical Enigma M3 with double stepping;
  - the "custom" rotor cipher over an alphabet of 5 to 26 letters, with its helpers: the alphabet, Fisher–Yates key shuffling, text validation, the page's key check `isKeyValid`, and the parser for keys typed as `D,A,H,C,F,B,G,E`.
- **conways-game-of-life-go.** This is the Go grid of a terminal Game of Life:
  - the toroidal neighbour count;
  - the B3/S23 generation step;
  - the Braille character that draws a 2×4 block of cells.

The model has one module per part of the library:

| module | models |
|---|---|
| `Text` | `toAlpha`, ASCII upper-casing, letter codes |
| `Results` | `Result`, `Option`, `Mode` and the error values thrown by the library |
| `Modular` | JavaScript `%`, `posMod`, `gcd`, `modInverse`, and Euclid and Bézout facts |
| `Sums` | sums and double sums, a helper module |
| `Vigenere`, `Affine`, `Playfair`, `Hill`, `Enigma`, `CustomRotor` | the ciphers |
| `Matrix` | `detNxN`, `adjugateNxN`, `matVecMulN`, `hillDeterminant` |
| `Cofactor` | the adjugate identity adj(M)·M = det(M)·I that Hill decryption rests on |
| `KeyParse` | `parseKeyString` |
| `Life` | `grid.go` |

Each cipher that loops over its input is a `method` with loop invariants. Its `ensures` ties the result to a specification function. Separate lemmas then prove what the cipher promises:
- Vigenère, affine, Hill and Playfair decryption undoes encryption;
- Enigma is reciprocal and never maps a letter to itself;
- the custom rotor cipher round-trips and its output stays in the alphabet;
- a parsed key passes `isKeyValid`.

Exceptions thrown by the library are `Err` values of `Results.Result`.

The Go `Grid` is a class with fields `cells`, `width` and `height`. `NextGeneration` replaces `cells` by `Next(old(cells), …)`, the B3/S23 step defined on values. `CountNeighbour` equals the toroidal neighbour sum `Neighbours`. `GetBrailleChar` returns the character whose dot bits are exactly the live cells of the block.

## Model

| member | source | states |
|---|---|---|
| Text.ToUpper | kripto-klasik/src/lib/ciphers.ts:10 | upper-casing maps a..z to A..Z (code minus 32) and leaves every other character alone |
| Text.ToAlpha | kripto-klasik/src/lib/ciphers.ts:9-11 | the normalised text consists of upper-case letters only and is no longer than the input |
| Text.ToAlphaConcat | kripto-klasik/src/lib/ciphers.ts:9-11 | normalising distributes over concatenation |
| Text.ToAlphaOfUpper | kripto-klasik/src/lib/ciphers.ts:9-11 | text that is already A..Z is unchanged |
| Text.ToAlphaIdempotent | kripto-klasik/src/lib/ciphers.ts:9-11 | normalising twice is normalising once |
| Text.ToAlphaKeepsLetters | kripto-klasik/src/lib/ciphers.ts:9-11 | nothing is dropped exactly when every character is a letter of either case |
| Text.IndexOf | kripto-klasik/src/lib/ciphers.ts:152 | `indexOf` is -1 exactly when the element is absent, and otherwise an index holding it |
| Text.IndexOfFirst | kripto-klasik/src/lib/ciphers.ts:152 | `indexOf` finds the first occurrence |
| Text.Chr | kripto-klasik/src/lib/ciphers.ts:64 | `String.fromCharCode(k + 65)` gives an upper-case letter whose code is k again |
| Text.ChrOrd | kripto-klasik/src/lib/ciphers.ts:60-64 | a letter's code minus 65 lies in [0, 26), and converting back gives the letter |
| Modular.JsRem | kripto-klasik/src/lib/ciphers.ts:14 | JavaScript `%` truncates: the remainder has the dividend's sign and is smaller than the divisor in magnitude |
| Modular.JsDivision | kripto-klasik/src/lib/ciphers.ts:14 | the truncated quotient and remainder recompose the dividend |
| Modular.JsRemShift | kripto-klasik/src/lib/ciphers.ts:14 | `((n % m) + m) % m` is the Euclidean residue for m > 0 |
| Modular.PosMod | kripto-klasik/src/lib/ciphers.ts:13-15 | `posMod(n, m)` lies in [0, m) and is congruent to n |
| Modular.PosModAsWritten | kripto-klasik/src/lib/ciphers.ts:13-15 | the formula with two truncating remainders equals `PosMod` |
| Modular.Gcd | kripto-klasik/src/lib/ciphers.ts:17-22 | the loop computes Euclid's recursion with the truncating remainder, and for non-negative inputs the result is a greatest common divisor |
| Modular.EuclidGcdIsGcd | kripto-klasik/src/lib/ciphers.ts:17-22 | for non-negative inputs, not both zero, Euclid's recursion yields a common divisor that every common divisor divides |
| Modular.Bezout | kripto-klasik/src/lib/ciphers.ts:17-22 | integer coefficients combine the inputs into their gcd |
| Modular.CoprimeHasInverse | kripto-klasik/src/lib/ciphers.ts:24-30 | a residue coprime with m has an inverse in [1, m) |
| Modular.InverseUnique | kripto-klasik/src/lib/ciphers.ts:24-30 | the inverse in [1, m) is unique |
| Modular.ModInverse | kripto-klasik/src/lib/ciphers.ts:24-30 | returns the least x in [1, m) with a·x ≡ 1 (mod m). It fails, with the reduced a and m, exactly when no such x exists |
| Vigenere.Shift | kripto-klasik/src/lib/ciphers.ts:60-64 | each output letter is upper case |
| Vigenere.ShiftInverse | kripto-klasik/src/lib/ciphers.ts:63 | shifting back by the same key letter undoes the shift, in both orders |
| Vigenere.Vigenere | kripto-klasik/src/lib/ciphers.ts:47-78 | fails exactly when the normalised key is empty. Otherwise the result is the letter-by-letter shift of the normalised text by the repeating key, with one step per letter recording its number, letter, key letter and output |
| Vigenere.RoundTrip | kripto-klasik/src/lib/ciphers.ts:47-78 | decrypting the ciphertext with the same key gives the normalised plaintext |
| Vigenere.DecryptThenEncrypt | kripto-klasik/src/lib/ciphers.ts:47-78 | encrypting a decryption gives the normalised text back |
| Affine.EncryptLetter | kripto-klasik/src/lib/ciphers.ts:106 | (a·p + b) mod 26 is a letter |
| Affine.DecryptLetter | kripto-klasik/src/lib/ciphers.ts:107 | a⁻¹·(c − b) mod 26 is a letter |
| Affine.LetterRoundTrip | kripto-klasik/src/lib/ciphers.ts:104-107 | with a⁻¹ an inverse of a mod 26, decrypting a letter's encryption gives the letter |
| Affine.Affine | kripto-klasik/src/lib/ciphers.ts:86-121 | fails exactly when `gcd(a, 26) != 1`. Otherwise each letter of the normalised text is mapped by the mode's formula, with one step per letter |
| Affine.RoundTrip | kripto-klasik/src/lib/ciphers.ts:86-121 | decrypting the ciphertext with the same a and b gives the normalised plaintext |
| Affine.ValidMultipliers | kripto-klasik/src/lib/ciphers.ts:92-96 | for a ≥ 0 the check passes exactly for a mod 26 in the twelve residues listed in the error message |
| Affine.CoprimeResidues | kripto-klasik/src/lib/ciphers.ts:92 | r in [0, 26) is coprime with 26 exactly when it is odd and not 13 |
| Affine.NegativeMultipliers | kripto-klasik/src/lib/ciphers.ts:17-22 | with the truncating remainder gcd(−1, 26) is −1 (rejected) while gcd(−5, 26) is 1 (accepted) |
| Playfair.FoldJ | kripto-klasik/src/lib/ciphers.ts:133 | J becomes I, so no J remains |
| Playfair.FoldJText | kripto-klasik/src/lib/ciphers.ts:158 | replacing J by I keeps the length and yields square letters |
| Playfair.Dedupe | kripto-klasik/src/lib/ciphers.ts:129-138 | keeping first occurrences keeps exactly the same letters, each once |
| Playfair.LettersBelow | kripto-klasik/src/lib/ciphers.ts:139-146 | the alphabet without J below a bound, each letter once: 25 letters for the whole alphabet |
| Playfair.Without | kripto-klasik/src/lib/ciphers.ts:142 | the letters of one string that are not in another |
| Playfair.SquareShape | kripto-klasik/src/lib/ciphers.ts:128-148 | keyword letters followed by the unseen alphabet form a valid square: 25 distinct letters with no J, each at its own index |
| Playfair.Square | kripto-klasik/src/lib/ciphers.ts:128-148 | the square is valid and is the deduplicated keyword followed by the remaining letters in alphabetical order |
| Playfair.BuildPlayfairMatrix | kripto-klasik/src/lib/ciphers.ts:128-148 | the two loops with a seen-set build exactly `Square(keyword)`, always 25 letters |
| Playfair.ValidSquareDistinct | kripto-klasik/src/lib/ciphers.ts:147 | a valid square has no repeated letter and no J |
| Playfair.SquareHas | kripto-klasik/src/lib/ciphers.ts:147 | every letter other than J is in a valid square |
| Playfair.MatrixPos | kripto-klasik/src/lib/ciphers.ts:150-155 | fails exactly when the J-folded character is not in the matrix. Otherwise it gives a column in 0..4 and a cell inside the matrix that holds that character; in a matrix of at most 25 cells the row is in 0..4 too |
| Playfair.MatrixPosInSquare | kripto-klasik/src/lib/ciphers.ts:150-155 | every upper-case letter is found in a valid square |
| Playfair.Locate | kripto-klasik/src/lib/ciphers.ts:150-155 | the total form of `matrixPos` gives a position in the square that holds the letter |
| Playfair.MatrixPosLocate | kripto-klasik/src/lib/ciphers.ts:150-155 | `matrixPos` succeeds with `Locate` when the letter is present |
| Playfair.LocateAt | kripto-klasik/src/lib/ciphers.ts:150-155 | locating the letter in a cell gives back that cell |
| Playfair.Digraphs | kripto-klasik/src/lib/ciphers.ts:157-176 | every digraph has two letters, and the only possible doubled digraph is XX |
| Playfair.PrepareDigraphs | kripto-klasik/src/lib/ciphers.ts:157-176 | the while loop produces `Digraphs` of the normalised, J-folded text |
| Playfair.DigraphsHello | kripto-klasik/src/lib/ciphers.ts:157-176 | HELLO splits as HE, LX, LO |
| Playfair.DigraphsOfFlatten | kripto-klasik/src/lib/ciphers.ts:157-176 | joined digraphs of distinct letters split back into the same digraphs |
| Playfair.FlattenDigraphsLength | kripto-klasik/src/lib/ciphers.ts:157-176 | splitting never loses letters |
| Playfair.DigraphsExact | kripto-klasik/src/lib/ciphers.ts:157-176 | splitting inserts no X exactly when the text pairs off into digraphs of distinct letters |
| Playfair.Target | kripto-klasik/src/lib/ciphers.ts:197-211 | the same-row, same-column and rectangle rules yield positions inside the square |
| Playfair.TargetInverse | kripto-klasik/src/lib/ciphers.ts:197-211 | applying the rules in the opposite direction undoes them |
| Playfair.ApplyRule | kripto-klasik/src/lib/ciphers.ts:197-211 | the branch taken picks the cells given by `Target`, and records which rule applied |
| Playfair.EncipherPair | kripto-klasik/src/lib/ciphers.ts:191-211 | one digraph goes through `matrixPos` and the rules exactly as `Encipher` says |
| Playfair.Encipher | kripto-klasik/src/lib/ciphers.ts:191-211 | the output of a digraph is two characters |
| Playfair.EncipherInverse | kripto-klasik/src/lib/ciphers.ts:191-211 | deciphering the enciphered digraph gives it back |
| Playfair.EncipherDistinct | kripto-klasik/src/lib/ciphers.ts:191-211 | a digraph of distinct letters enciphers to distinct letters |
| Playfair.EncipherDigraphs | kripto-klasik/src/lib/ciphers.ts:190-220 | the loop's result is the concatenated enciphered digraphs, and its steps are the trace |
| Playfair.Playfair | kripto-klasik/src/lib/ciphers.ts:178-222 | fails exactly when the normalised keyword is empty. Otherwise the text and steps are those of the square and the digraphs |
| Playfair.PlayfairText | kripto-klasik/src/lib/ciphers.ts:178-222 | the ciphertext has two letters per digraph |
| Playfair.EncipherAllInverse | kripto-klasik/src/lib/ciphers.ts:178-222 | deciphering every enciphered digraph restores the digraphs |
| Playfair.EncipherAllDistinct | kripto-klasik/src/lib/ciphers.ts:178-222 | enciphering keeps digraphs free of doubled letters |
| Playfair.CipherRoundTrip | kripto-klasik/src/lib/ciphers.ts:178-222 | splitting the ciphertext again gives its digraphs, and deciphering them restores the plaintext digraphs |
| Playfair.RoundTrip | kripto-klasik/src/lib/ciphers.ts:178-222 | when no digraph of the text is XX, decryption gives back the prepared digraphs, joined |
| Matrix.RemoveAt | kripto-klasik/src/lib/ciphers.ts:237 | dropping entry k shifts every later entry down by one |
| Matrix.Minor | kripto-klasik/src/lib/ciphers.ts:235-237 | deleting a row and a column of a square matrix leaves a square matrix one smaller |
| Matrix.MinorEntries | kripto-klasik/src/lib/ciphers.ts:248-250 | each minor entry is the original entry with indices past the removed row and column shifted |
| Matrix.DetIsLaplace | kripto-klasik/src/lib/ciphers.ts:229-241 | `detNxN`, with its 1×1 and 2×2 cases, is the Laplace expansion along the first row |
| Matrix.AdjugateAsWritten | kripto-klasik/src/lib/ciphers.ts:244-254 | `adjugateNxN` as written is square of the same size |
| Matrix.Adjugate | kripto-klasik/src/lib/ciphers.ts:244-254 | entry (i, j) is (−1)^(i+j) times the determinant of the minor without row j and column i |
| Matrix.AdjugateAgrees | kripto-klasik/src/lib/ciphers.ts:244-254 | for n ≥ 2 the written adjugate is the classical one |
| Matrix.AdjugateOfOne | kripto-klasik/src/lib/ciphers.ts:244-254 | for a 1×1 matrix the written adjugate is [[0]], where the classical one is [[1]] |
| Matrix.MatVecMul | kripto-klasik/src/lib/ciphers.ts:256-263 | each entry is the row's dot product with the vector, reduced into [0, 26) |
| Matrix.KeyMatrix | kripto-klasik/src/lib/ciphers.ts:267-269 | n row slices of length n make an n×n matrix |
| Matrix.KeyMatrixFlat | kripto-klasik/src/lib/ciphers.ts:267-269 | concatenating the rows gives back the flat key |
| Matrix.HillDeterminant | kripto-klasik/src/lib/ciphers.ts:266-271 | the displayed determinant lies in [0, 26) and is `detNxN` of the key matrix reduced mod 26 |
| Cofactor.ColumnExpansion | kripto-klasik/src/lib/ciphers.ts:229-241 | the determinant expands along any column |
| Cofactor.ReplacedDet | kripto-klasik/src/lib/ciphers.ts:244-254 | replacing column i by column k leaves the determinant when i = k and makes it zero otherwise |
| Cofactor.AdjugateTimes | kripto-klasik/src/lib/ciphers.ts:244-254 | the adjugate times the matrix is the determinant times the identity |
| Hill.LettersValues | kripto-klasik/src/lib/ciphers.ts:317-320 | converting letters to values and back is the identity |
| Hill.ValuesLetters | kripto-klasik/src/lib/ciphers.ts:317-320 | converting values to letters and back is the identity |
| Hill.Padded | kripto-klasik/src/lib/ciphers.ts:303 | the padded text is the text followed by fewer than n X's, and its length is a multiple of n |
| Hill.PadText | kripto-klasik/src/lib/ciphers.ts:303 | the padding loop produces `Padded` |
| Hill.PaddedExact | kripto-klasik/src/lib/ciphers.ts:303 | no padding is added to a text whose length is a multiple of n |
| Hill.BlockOut | kripto-klasik/src/lib/ciphers.ts:317-320 | one block goes through `matVecMulN` and back to letters of the same length |
| Hill.Blocks | kripto-klasik/src/lib/ciphers.ts:316-331 | the ciphertext of a padded text is as long as the text and upper case |
| Hill.TraceLength | kripto-klasik/src/lib/ciphers.ts:316-331 | there is one step per block |
| Hill.EncipherBlocks | kripto-klasik/src/lib/ciphers.ts:316-331 | the block loop yields `Blocks` and `Trace`, with steps numbered i/n + 1 |
| Hill.DecryptKey | kripto-klasik/src/lib/ciphers.ts:294-299 | the decryption key (classical adjugate times det⁻¹, mod 26) is square of the same size |
| Hill.DecryptKeyAsWritten | kripto-klasik/src/lib/ciphers.ts:294-299 | the same key built from the written adjugate |
| Hill.DecryptKeyAgrees | kripto-klasik/src/lib/ciphers.ts:294-299 | for n ≥ 2 both decryption keys coincide |
| Hill.BlockRoundTrip | kripto-klasik/src/lib/ciphers.ts:294-299 | when det·inv ≡ 1 (mod 26), multiplying by the decryption key undoes the key matrix on any vector of residues |
| Hill.BlockOutRoundTrip | kripto-klasik/src/lib/ciphers.ts:316-320 | decrypting an encrypted block gives the block |
| Hill.BlocksRoundTrip | kripto-klasik/src/lib/ciphers.ts:316-331 | deciphering enciphered blocks gives the padded text back |
| Hill.EmptyKeyRejected | kripto-klasik/src/lib/ciphers.ts:279-291 | for n = 0 the empty key passes the length check, but its determinant 0 has gcd 26 with 26, so the key is rejected |
| Hill.KeyNonEmpty | kripto-klasik/src/lib/ciphers.ts:279-291 | a key that passes both checks has n > 0, so the padding loop terminates |
| Hill.Hill | kripto-klasik/src/lib/ciphers.ts:273-333 | returns exactly `HillSpec`. That spec rejects, in order, a key of the wrong length, a determinant not coprime with 26, and empty text. Otherwise it enciphers the padded text with the key matrix, or with the decryption key built from the classical adjugate (for n = 1 this differs from the source; see Findings) |
| Hill.HillLength | kripto-klasik/src/lib/ciphers.ts:273-333 | an accepted text comes out padded to a multiple of n, with one step per block |
| Hill.DecryptOfCipher | kripto-klasik/src/lib/ciphers.ts:273-333 | decrypting a ciphertext adds no padding |
| Hill.HillRoundTrip | kripto-klasik/src/lib/ciphers.ts:273-333 | decrypting the ciphertext with the same key gives the normalised text padded with X |
| Hill.OneByOneAsWritten | kripto-klasik/src/lib/ciphers.ts:244-254 | with the written adjugate, the 1×1 key [[1]] encrypts B to B and decrypts it to A |
| Hill.OneByOneCorrected | kripto-klasik/src/lib/ciphers.ts:244-254 | with the classical adjugate, B decrypts back to B |
| Enigma.CatalogRotorWiring | kripto-klasik/src/lib/ciphers.ts:340-355 | every catalogue rotor wiring is a permutation of A..Z, with its inverse wiring |
| Enigma.CatalogReflectorWiring | kripto-klasik/src/lib/ciphers.ts:357-360 | reflectors B and C are fixed-point-free involutions of A..Z |
| Enigma.RotorForward | kripto-klasik/src/lib/ciphers.ts:362-364 | the signal out of a rotor lies in [0, 26) |
| Enigma.RotorBackward | kripto-klasik/src/lib/ciphers.ts:366-369 | the signal back through a rotor lies in [0, 26) |
| Enigma.BackwardForward | kripto-klasik/src/lib/ciphers.ts:362-369 | for a permutation wiring, the backward pass undoes the forward pass at the same position |
| Enigma.ForwardBackward | kripto-klasik/src/lib/ciphers.ts:362-369 | and the forward pass undoes the backward one |
| Enigma.PressTwice | kripto-klasik/src/lib/ciphers.ts:407-420 | at a fixed rotor window, the signal path is an involution |
| Enigma.PressMoves | kripto-klasik/src/lib/ciphers.ts:407-420 | no letter is mapped to itself |
| Enigma.Step | kripto-klasik/src/lib/ciphers.ts:398-404 | one step of a rotor is +1 mod 26 |
| Enigma.Advance | kripto-klasik/src/lib/ciphers.ts:395-404 | the right rotor always steps. The middle steps when it or the right rotor is at its notch, and the left steps when the middle is at its notch |
| Enigma.RightAfter | kripto-klasik/src/lib/ciphers.ts:404 | after k key presses the right rotor has moved k places |
| Enigma.DoubleStep | kripto-klasik/src/lib/ciphers.ts:396-403 | the double-stepping anomaly: the middle rotor reaching its notch steps again on the next key press, together with the left rotor |
| Enigma.Output | kripto-klasik/src/lib/ciphers.ts:394-423 | one upper-case letter per input letter |
| Enigma.OutputAt | kripto-klasik/src/lib/ciphers.ts:394-423 | letter i is enciphered at the window after i + 1 steps |
| Enigma.OutputTwice | kripto-klasik/src/lib/ciphers.ts:394-423 | enciphering the output again from the same start gives the input |
| Enigma.OutputMoves | kripto-klasik/src/lib/ciphers.ts:394-423 | every output letter differs from its input letter |
| Enigma.FirstUnknown | kripto-klasik/src/lib/ciphers.ts:386-388 | there is none exactly when every rotor name passes the truthiness check, as a catalogue rotor or a member inherited from `Object.prototype`; otherwise it names a rejected rotor from the list |
| Enigma.Configure | kripto-klasik/src/lib/ciphers.ts:384-415 | gives a valid machine exactly when the reflector and the first three rotors are catalogue entries and every rotor passes the check. A name the check rejects is an error, the reflector first, then a rotor of the list. Otherwise an inherited name among the wirings read is a `NoWiring` error |
| Enigma.CheckNames | kripto-klasik/src/lib/ciphers.ts:384-415 | the validation checks and the lookups of the wirings compute `Configure` |
| Enigma.StepRotors | kripto-klasik/src/lib/ciphers.ts:395-404 | updating the position array in place is `Advance` on its first three entries and leaves the others |
| Enigma.Enigma | kripto-klasik/src/lib/ciphers.ts:377-425 | the method returns exactly `EnigmaSpec`: the validation error; a missing wiring, which fails only when there is a letter to encipher; or the output of the normalised text from the initial window |
| Enigma.EnigmaShape | kripto-klasik/src/lib/ciphers.ts:377-425 | the output has one letter per letter of the normalised text. The method fails exactly when the check rejects a name, or when there is a letter and the reflector or one of the first three rotors is not a catalogue entry |
| Enigma.Reciprocal | kripto-klasik/src/lib/ciphers.ts:371-376 | the same settings decrypt: enciphering the ciphertext gives the normalised plaintext |
| Enigma.NoLetterToItself | kripto-klasik/src/lib/ciphers.ts:377-425 | no ciphertext letter equals its plaintext letter |
| Enigma.InheritedFourthRotor | kripto-klasik/src/lib/ciphers.ts:386-388 | an inherited name such as `constructor` as a fourth rotor passes the check and changes nothing |
| Enigma.InheritedReflector | kripto-klasik/src/lib/ciphers.ts:384-415 | the reflector `toString` passes the check: empty text gives "", and a letter fails on the missing wiring. An arbitrary name such as `prototype` is rejected |
| CustomRotor.AlphabetLetters | kripto-klasik/src/lib/ciphers.ts:441 | the alphabet of length n consists of the first n letters, each once |
| CustomRotor.GenerateAlphabet | kripto-klasik/src/lib/ciphers.ts:437-442 | fails exactly when the length is outside [5, 26]. Otherwise it gives `length` distinct letters, exactly those below the length |
| CustomRotor.GetLetterIndex | kripto-klasik/src/lib/ciphers.ts:483-488 | −1 exactly when the upper-cased letter is outside the alphabet, and otherwise its code minus 65 |
| CustomRotor.LetterIndexIsLookup | kripto-klasik/src/lib/ciphers.ts:483-488 | that index is the letter's position in the alphabet |
| CustomRotor.KeyValidIff | kripto-klasik/src/app/enigma/page.tsx:135-152 | `isKeyValid` holds exactly when the joined key has the alphabet's length, only alphabet letters and no repeats |
| CustomRotor.KeyValidCovers | kripto-klasik/src/app/enigma/page.tsx:135-152 | a valid key contains every alphabet letter and is a permutation of the alphabet |
| CustomRotor.PermutationIsValid | kripto-klasik/src/app/enigma/page.tsx:135-152 | every permutation of the alphabet is a valid key |
| CustomRotor.Swap | kripto-klasik/src/lib/ciphers.ts:459 | the destructuring swap exchanges exactly two entries |
| CustomRotor.SwapPermutes | kripto-klasik/src/lib/ciphers.ts:459 | a swap keeps the multiset of letters |
| CustomRotor.ShuffledPermutes | kripto-klasik/src/lib/ciphers.ts:456-460 | any sequence of Fisher–Yates picks permutes the alphabet |
| CustomRotor.ShuffleInPlace | kripto-klasik/src/lib/ciphers.ts:457-460 | the in-place loop from the last index down to 1 performs the shuffle given by the picks |
| CustomRotor.ShuffleKey | kripto-klasik/src/lib/ciphers.ts:456-461 | a copy of the alphabet shuffled by the picks |
| CustomRotor.GenerateRandomKeys | kripto-klasik/src/lib/ciphers.ts:448-465 | fails exactly when the alphabet length is invalid. Otherwise it gives one key per rotor (none for a count below 1), each the shuffle of its picks and each a valid key |
| CustomRotor.IsValidForAlphabet | kripto-klasik/src/lib/ciphers.ts:470-478 | the early-return loop decides `ValidForAlphabet`: every upper-cased character is a space or in the alphabet |
| CustomRotor.Next | kripto-klasik/src/lib/ciphers.ts:549 | the rotor position lies in [0, rotorCount) |
| CustomRotor.NextIsMod | kripto-klasik/src/lib/ciphers.ts:549 | it is (position + 1) % rotorCount |
| CustomRotor.Cipher | kripto-klasik/src/lib/ciphers.ts:507-550 | the output is as long as the input |
| CustomRotor.CipherPassStep | kripto-klasik/src/lib/ciphers.ts:511-515 | a space or a character outside the alphabet is copied as written, and the position does not move |
| CustomRotor.CipherLetterStep | kripto-klasik/src/lib/ciphers.ts:517-549 | a letter is substituted by the current key, recorded as a step, and the position moves on |
| CustomRotor.StepPosition | kripto-klasik/src/lib/ciphers.ts:549 | the method advances the position |
| CustomRotor.SubstituteLetter | kripto-klasik/src/lib/ciphers.ts:520-536 | encryption indexes the key by the letter's alphabet index; decryption looks the letter up in the key and takes the alphabet letter there |
| CustomRotor.WalkChar | kripto-klasik/src/lib/ciphers.ts:507-550 | one loop iteration extends the result, steps and position as the specification says |
| CustomRotor.WalkText | kripto-klasik/src/lib/ciphers.ts:507-550 | the loop over the whole text computes `Cipher` |
| CustomRotor.CustomEnigmaSpec | kripto-klasik/src/lib/ciphers.ts:493-553 | fails exactly when the alphabet length is invalid. Otherwise the output is as long as the input |
| CustomRotor.CustomEnigma | kripto-klasik/src/lib/ciphers.ts:493-553 | the method returns `CustomEnigmaSpec` |
| CustomRotor.MovedIsSum | kripto-klasik/src/lib/ciphers.ts:549 | k moves from position p give (p + k) % n |
| CustomRotor.StepCount | kripto-klasik/src/lib/ciphers.ts:538-546 | one step per alphabet letter of the text |
| CustomRotor.StepAt | kripto-klasik/src/lib/ciphers.ts:538-546 | step k is numbered k, uses the key at position start + k, and records the k-th letter |
| CustomRotor.StepsTrace | kripto-klasik/src/lib/ciphers.ts:538-546 | every step matches its letter, position and key |
| CustomRotor.CipherAt | kripto-klasik/src/lib/ciphers.ts:507-536 | character i is either passed through or substituted with the key of the position reached after the letters before it |
| CustomRotor.CipherRoundTrip | kripto-klasik/src/lib/ciphers.ts:507-550 | with valid keys, decrypting the encryption from the same position gives the text, with alphabet letters upper-cased |
| CustomRotor.CipherStaysInAlphabet | kripto-klasik/src/lib/ciphers.ts:507-550 | with valid keys, text valid for the alphabet stays valid |
| CustomRotor.StartMoved | kripto-klasik/src/lib/ciphers.ts:503 | starting at `startPosition % rotorCount` and moving k times is (startPosition + k) % rotorCount |
| CustomRotor.CustomEnigmaSteps | kripto-klasik/src/lib/ciphers.ts:493-553 | one step per alphabet letter, step k at rotor (startPosition + k) % rotorCount |
| CustomRotor.CustomEnigmaChars | kripto-klasik/src/lib/ciphers.ts:493-553 | each output character is the pass-through or the substitution of its input character |
| CustomRotor.CustomEnigmaRoundTrip | kripto-klasik/src/lib/ciphers.ts:493-553 | decrypting with the same keys and start gives the text back, with alphabet letters upper-cased |
| CustomRotor.CustomEnigmaStaysInAlphabet | kripto-klasik/src/lib/ciphers.ts:493-553 | text valid for the alphabet gives a ciphertext valid for it |
| KeyParse.LeadSpaces | kripto-klasik/src/lib/ciphers.ts:566 | the leading run that `trim` removes is white space, and the next character is not |
| KeyParse.TrailSpaces | kripto-klasik/src/lib/ciphers.ts:566 | likewise for the trailing run |
| KeyParse.TrimSlice | kripto-klasik/src/lib/ciphers.ts:566 | the trimmed string is the input between the two runs |
| KeyParse.TrimBlank | kripto-klasik/src/lib/ciphers.ts:562 | trimming gives "" exactly when the input is all white space |
| KeyParse.TrimKeeps | kripto-klasik/src/lib/ciphers.ts:566 | a string that starts and ends with non-space characters is unchanged by trimming |
| KeyParse.UpperAll | kripto-klasik/src/lib/ciphers.ts:566 | each character is upper-cased |
| KeyParse.SplitPieces | kripto-klasik/src/lib/ciphers.ts:566 | `split(",")` yields pieces without commas |
| KeyParse.JoinSplit | kripto-klasik/src/lib/ciphers.ts:566 | joining the pieces with commas gives the input back |
| KeyParse.SplitJoin | kripto-klasik/src/lib/ciphers.ts:566 | splitting comma-free pieces joined by commas gives the pieces back |
| KeyParse.EntriesNonEmpty | kripto-klasik/src/lib/ciphers.ts:566 | after `filter((p) => p)` no entry is empty |
| KeyParse.DuplicatesRepeat | kripto-klasik/src/lib/ciphers.ts:572-577 | an entry is reported as a duplicate exactly when it occurs at least twice |
| KeyParse.DuplicatesNone | kripto-klasik/src/lib/ciphers.ts:572-578 | no duplicates are reported exactly when the entries are distinct |
| KeyParse.FindDuplicates | kripto-klasik/src/lib/ciphers.ts:572-577 | the seen-set loop computes `Duplicates` |
| KeyParse.MaxCodeBounds | kripto-klasik/src/lib/ciphers.ts:580 | `Math.max` of the codes bounds every code and is attained |
| KeyParse.FirstOutsideFound | kripto-klasik/src/lib/ciphers.ts:587-595 | the range loop finds no letter exactly when every letter is in the alphabet; otherwise it reports one outside |
| KeyParse.CheckRange | kripto-klasik/src/lib/ciphers.ts:583-605 | the range check, the expected-length check and acceptance compute `CheckLetters` |
| KeyParse.ParseKeyString | kripto-klasik/src/lib/ciphers.ts:558-606 | the method computes `ParseKey`, which performs every check in source order |
| KeyParse.ExtraCommaNever | kripto-klasik/src/lib/ciphers.ts:569 | the extra-comma rejection is never returned |
| KeyParse.ParseBlank | kripto-klasik/src/lib/ciphers.ts:562-564 | the input is rejected as blank exactly when it is white space only |
| KeyParse.ParseDuplicate | kripto-klasik/src/lib/ciphers.ts:578 | a duplicate rejection lists exactly the entries that occur twice or more, and the list is non-empty |
| KeyParse.CheckedAccepted | kripto-klasik/src/lib/ciphers.ts:568-605 | entries the checks accept are single distinct letters in the detected alphabet, of the expected count |
| KeyParse.AcceptedChecked | kripto-klasik/src/lib/ciphers.ts:568-605 | entries of that shape are accepted |
| KeyParse.ParseValid | kripto-klasik/src/lib/ciphers.ts:558-606 | an input is accepted exactly when it is not blank and its entries form an accepted key, which is returned |
| KeyParse.ParsedKeyIsValid | kripto-klasik/src/lib/ciphers.ts:558-606 | a key parsed with the expected length equal to the detected one passes `isKeyValid` |
| KeyParse.FormatEntries | kripto-klasik/src/lib/ciphers.ts:555-566 | a key written as comma-separated letters splits back into those letters |
| KeyParse.ParseFormatted | kripto-klasik/src/lib/ciphers.ts:555-606 | a valid key written as `D,A,H,...` parses back to its letters and alphabet length |
| Life.Wrap | conways-game-of-life-go/grid.go:36-37 | the wrapped coordinate lies in [0, n) |
| Life.WrapIsRem | conways-game-of-life-go/grid.go:36-37 | it is (v + d + n) mod n |
| Life.WrapIsGo | conways-game-of-life-go/grid.go:36-37 | it is Go's truncating `%` of the same non-negative dividend |
| Life.WrapIsMod | conways-game-of-life-go/grid.go:36-37 | for a cell on the grid and an offset of −1, 0 or 1, it is the toroidal neighbour (v + d) mod n |
| Life.NeighboursBound | conways-game-of-life-go/grid.go:28-46 | the count lies between 0 and 8 |
| Life.NeighboursExtremes | conways-game-of-life-go/grid.go:28-46 | an all-dead grid gives 0 and an all-alive grid gives 8 |
| Life.NextRow | conways-game-of-life-go/grid.go:52-61 | a new row has `width` cells |
| Life.Next | conways-game-of-life-go/grid.go:48-64 | the next generation has the same shape |
| Life.Rule | conways-game-of-life-go/grid.go:56-60 | B3/S23: a cell lives next exactly when it has three neighbours, or it is alive and has two |
| Life.DeadStaysDead | conways-game-of-life-go/grid.go:48-64 | an empty grid stays empty |
| Life.FullDies | conways-game-of-life-go/grid.go:48-64 | a full grid dies of overcrowding in one generation |
| Life.RaiseDot | conways-game-of-life-go/grid.go:73-101 | one guarded `pattern \|= bit` sets the bit exactly when the cell is on the grid and alive |
| Life.PatternDots | conways-game-of-life-go/grid.go:66-101 | bit i of the pattern is set exactly when the cell under Braille dot i + 1 is on the grid and alive |
| Life.BrailleChar | conways-game-of-life-go/grid.go:103-104 | the character lies in the Braille block U+2800..U+28FF |
| Life.Grid.NewGrid | conways-game-of-life-go/grid.go:14-26 | a grid of `height` rows of `widht` cells, all dead |
| Life.Grid.CountNeighbour | conways-game-of-life-go/grid.go:28-46 | the double loop over offsets counts exactly the eight toroidal neighbours |
| Life.Grid.CountOffset | conways-game-of-life-go/grid.go:32-41 | one offset adds 1 exactly when it is not the centre and the wrapped cell is alive |
| Life.Grid.FillRow | conways-game-of-life-go/grid.go:52-61 | the inner loop sets row y of the new grid to the next generation's row and changes nothing else |
| Life.Grid.NextGeneration | conways-game-of-life-go/grid.go:48-64 | the cells become `Next` of the old cells, and the size is unchanged |
| Life.Grid.GetBrailleChar | conways-game-of-life-go/grid.go:66-105 | the one-character string of the Braille character whose pattern has the block's live cells as dots |

## Left out

- Random numbers: the `Math.random()` indices of `generateRandomKeys` are a parameter of picks, each in its legal range [0, j].
- Step records keep the indices, characters, positions and rules. The `formula` strings, the `blockVec`/`outVec` texts of Hill and the Indonesian error messages are not modelled; each error is a constructor with its data.
- Upper-casing covers ASCII only. JavaScript's full Unicode `toUpperCase` is not modelled: a character such as `ß` becomes two characters there.
- Characters are Unicode code points. JavaScript's UTF-16 code units are not modelled, and so neither are the length and the indices of characters outside the Basic Multilingual Plane. This matters, for example, for `parseKeyString` on such an entry, and for `charCodeAt` and `fromCharCode`.
- Numbers are integers. JavaScript numbers are doubles, and fractions, `NaN` and values above 2^53 are not modelled, as in `affine("A", 1, 0.5)`. This applies to affine's `a` and `b`, the Vigenère and Hill key values, the Enigma initial positions, and `customEnigma`'s `rotorCount`, `startPosition` and alphabet length.
- Enigma.Enigma: requires at least three rotor names and three initial positions, as its doc comment describes. With fewer, the source would index `undefined`.
- Enigma.Enigma: a name's lookup in `ROTOR_WIRINGS` and `REFLECTOR_WIRINGS` is modelled as a catalogue entry or one of the twelve members of `Object.prototype` listed in `INHERITED`. Members that a runtime or other code adds to `Object.prototype` are not modelled. A missing wiring is the `NoWiring` error, in place of the source's `TypeError` from `charCodeAt`.
- Hill.Hill: for n = 1 the model decrypts with the classical adjugate [[1]], where the source builds the key [[0]] (see Findings). For n ≥ 2 both keys coincide (Hill.DecryptKeyAgrees).
- Hill.Hill: `n` is a natural number. A negative `n` is not expressible, although the source takes `n = -2` with four key values and then rejects that key as singular.
- CustomRotor.CustomEnigma: requires `rotorCount >= 1` and `startPosition >= 0`. With a negative start, JavaScript's `%` gives a negative index and the lookup of a key crashes. The keys are a sequence indexed by rotor position, the sorted `K0`, `K1`, … names of the source; each key is a string of letters.
- CustomRotor.CustomEnigma: requires every key to be exactly as long as the alphabet (`KeysSized`). A shorter key would make the source append the text "undefined". The round-trip lemmas also require every key to pass `isKeyValid` (`KeysFit`).
- Matrix.HillDeterminant: requires a key of exactly n·n values. With a shorter key the source slices ragged rows and computes with `undefined`; `hill` itself rejects such keys, as modelled.
- Life.Grid.NewGrid: requires non-negative sizes; Go's `make` panics on a negative length.
- Life.Grid.CountNeighbour: requires width and height of at least 1 and coordinates that keep the wrapped dividend non-negative. For cells on the grid these always hold. With a width or height of 1 the wrap reaches the cell itself, and the count includes it, as in the source.
- Life.Grid.GetBrailleChar: requires non-negative column and row. A negative base index would make the Go code panic.
- Go's `string(rune)` is the one-character string of that code point: the UTF-8 encoding is not modelled.
- `render`, `Randomize`, `Run` and `clearCursor` in grid.go, and main.go, are terminal I/O, timing and randomness; they are not part of this model.
- The React pages (except `isKeyValid`), OkeGasJs, ramadhan-notebook and chatbot-mcp are not part of this model.

## Findings

| source | as written | input that shows it | evidently intended | confidence | as-written member | corrected member |
|---|---|---|---|---|---|---|
| kripto-klasik/src/lib/ciphers.ts:244-254 | for a 1×1 key the adjugate takes `detNxN` of the empty minor, which reaches the Laplace loop with no terms and gives 0, so the decryption key is [[0]] | `hill("B", [1], 1, "decrypt")` gives "A" although `hill("B", [1], 1, "encrypt")` gives "B" | the adjugate of a 1×1 matrix is [[1]], so decryption inverts encryption for every n ≥ 1 | not executed | Hill.OneByOneAsWritten | Hill.OneByOneCorrected |

## Notes on the model

- `posMod` as written uses JavaScript's truncating `%` twice. Modular.PosModAsWritten proves that this equals Dafny's Euclidean `n % m` for m > 0, and the rest of the model uses that form.
- `gcd` keeps the truncating remainder, so a negative multiplier can give a negative gcd, and `affine` then rejects it (Affine.NegativeMultipliers).
- Hill keys use the classical adjugate, which agrees with `adjugateNxN` for every n ≥ 2 (Matrix.AdjugateAgrees). The user interface offers n from 2 to 5 only.
- In `countNeighbour`, `(x + dx + width) % width` is evaluated by the Go runtime on a non-negative dividend, where Go's `%` and Dafny's agree (Life.WrapIsGo).
- Loop bodies that are long in the source are split out as helper methods with their own contracts:
  - the inner body of `countNeighbour` (Life.Grid.CountOffset);
  - the row loop of `nextGeneration` (Life.Grid.FillRow);
  - each guarded `pattern |=` of `getBrailleChar` (Life.RaiseDot).
