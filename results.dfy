/** Error kinds raised by the cipher library, and the result type that carries them. */
module Results {

  /** One constructor per `throw` site of the cipher library. */
  datatype Error =
    | EmptyKey                       // Vigenère key normalises to nothing
    | InvalidMultiplier(a: int)      // Affine multiplier not coprime with 26
    | NoInverse(a: int, m: int)      // no modular inverse of a mod m
    | EmptyKeyword                   // Playfair keyword normalises to nothing
    | NotInMatrix(ch: char)          // Playfair letter missing from the key square
    | KeyLength(n: nat)              // Hill key does not hold n*n values
    | SingularMatrix(det: int)       // Hill determinant mod 26 not coprime with 26
    | EmptyInput                     // Hill plaintext normalises to nothing
    | UnknownReflector(name: string) // Enigma reflector neither in the catalog nor inherited
    | UnknownRotor(name: string)     // Enigma rotor neither in the catalog nor inherited
    | NoWiring(name: string)         // Enigma name found only on Object.prototype: no wiring string
    | AlphabetLength(len: int)       // custom alphabet length outside [5, 26]

  /** A value that may be absent, such as the result of a catalog lookup. */
  datatype Option<T> = None | Some(value: T)

  /** The `mode` argument of the ciphers. */
  datatype Mode = Encrypt | Decrypt

  datatype Result<T> = Ok(value: T) | Err(error: Error) {
    predicate IsFailure() { Err? }

    function PropagateFailure<U>(): Result<U>
      requires Err?
    {
      Err(error)
    }

    function Extract(): T
      requires Ok?
    {
      value
    }
  }
}
