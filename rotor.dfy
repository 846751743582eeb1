/**
  The rotor cipher over a configurable alphabet: the letters A.. of a chosen
  length between 5 and 26, one substitution key per rotor position, and a
  position that moves on by one for every letter enciphered. Also the helpers
  around it: building the alphabet, shuffling random keys, and validating text
  and keys (parsing a typed key is module KeyParse).

  A key is modelled as the string of its letters: the key arrays of the
  library hold one letter per entry, and the page joins them before checking.
*/
module CustomRotor {
  import opened Results
  import opened Text
  import opened Modular

  // ---------------------------------------------------------------- the alphabet

  /** The character lies in A..A+len-1, by its code (`65 <= code <= 64 + len`). */
  predicate InAlphabet(c: char, len: int)
  {
    65 <= c as int <= 64 + len
  }

  /** The first `len` letters in order. */
  function Alphabet(len: int): (r: string)
    requires 0 <= len <= 26
    ensures |r| == len
  {
    seq(len, i requires 0 <= i < len => Chr(i))
  }

  /** Letter `k` of the alphabet is the letter with code 65 + k. */
  lemma AlphabetAt(len: int, k: int)
    requires 0 <= k < len <= 26
    ensures Alphabet(len)[k] == Chr(k)
  {
  }

  /** The alphabet holds exactly the characters of A..A+len-1, each once. */
  lemma AlphabetLetters(len: int)
    requires 0 <= len <= 26
    ensures Distinct(Alphabet(len))
    ensures forall c :: c in Alphabet(len) <==> InAlphabet(c, len)
  {
    var r := Alphabet(len);
    assert forall c :: InAlphabet(c, len) ==> r[c as int - 65] == c;
  }

  /** `generateAlphabet`: the first `length` letters, for a length in [5, 26]. */
  function GenerateAlphabet(length: int): (r: Result<string>)
    ensures r.Err? <==> length < 5 || length > 26
    ensures r.Err? ==> r.error == AlphabetLength(length)
    ensures r.Ok? ==> |r.value| == length && Distinct(r.value)
    ensures r.Ok? ==> forall c :: c in r.value <==> IsUpper(c) && Ord(c) < length
  {
    if length < 5 || length > 26 then Err(AlphabetLength(length))
    else AlphabetLetters(length); Ok(Alphabet(length))
  }

  /** `getLetterIndex`: the position of the upper-cased letter in the alphabet, or -1. */
  function GetLetterIndex(letter: char, len: int): (k: int)
    ensures k == -1 <==> !InAlphabet(ToUpper(letter), len)
    ensures k != -1 ==> 0 <= k < len && ToUpper(letter) as int == 65 + k
  {
    var code := ToUpper(letter) as int;
    if code < 65 || code > 64 + len then -1 else code - 65
  }

  /** Within a proper alphabet the letter index is exactly what looking the letter up finds. */
  lemma LetterIndexIsLookup(letter: char, len: int)
    requires 0 <= len <= 26
    ensures GetLetterIndex(letter, len) == IndexOf(Alphabet(len), ToUpper(letter))
  {
    var u := ToUpper(letter);
    if InAlphabet(u, len) {
      IndexOfDistinct(Alphabet(len), u as int - 65);
    }
  }

  // ---------------------------------------------------------------- key validity

  /** The set of characters of a key, as `new Set(...)` builds it. */
  function Chars(k: string): set<char>
  {
    set i | 0 <= i < |k| :: k[i]
  }

  /**
    `isKeyValid` of the page, on the joined key: as many letters as the
    alphabet, each of them in the alphabet, and as many different letters as
    the alphabet has.
  */
  predicate IsKeyValid(k: string, len: int)
  {
    && |k| == len
    && (forall i :: 0 <= i < |k| ==> InAlphabet(k[i], len))
    && |Chars(k)| == len
  }

  /** A sequence has at most as many different elements as entries. */
  lemma {:induction false} CharsBound(k: string)
    ensures |Chars(k)| <= |k|
    ensures Distinct(k) ==> |Chars(k)| == |k|
  {
    if k != [] {
      var k' := k[..|k| - 1];
      CharsBound(k');
      assert Chars(k) == Chars(k') + {k[|k| - 1]};
      if Distinct(k) {
        assert k[|k| - 1] !in Chars(k');
      }
    }
  }

  /** As many different elements as entries means no element repeats. */
  lemma CharsDistinct(k: string)
    requires |Chars(k)| == |k|
    ensures Distinct(k)
  {
    if !Distinct(k) {
      var i, j :| 0 <= i < j < |k| && k[i] == k[j];
      var rest := k[..j] + k[j + 1..];
      assert Chars(k) == Chars(rest) by {
        forall c | c in Chars(k) ensures c in Chars(rest) {
          var m :| 0 <= m < |k| && k[m] == c;
          if m < j { assert rest[m] == c; }
          else if m == j { assert rest[i] == c; }
          else { assert rest[m - 1] == c; }
        }
      }
      CharsBound(rest);
      assert false;
    }
  }

  /** `isKeyValid` holds exactly for keys of `len` different letters of the alphabet. */
  lemma KeyValidIff(k: string, len: int)
    ensures IsKeyValid(k, len) <==>
      |k| == len && Distinct(k) && forall i :: 0 <= i < |k| ==> InAlphabet(k[i], len)
  {
    CharsBound(k);
    if |Chars(k)| == |k| {
      CharsDistinct(k);
    }
  }

  /** A valid key holds every letter of the alphabet: it is a permutation of the alphabet. */
  lemma KeyValidCovers(k: string, len: int)
    requires IsKeyValid(k, len) && 0 <= len <= 26
    ensures forall c :: InAlphabet(c, len) ==> c in k
    ensures multiset(k) == multiset(Alphabet(len))
  {
    var a := Alphabet(len);
    AlphabetLetters(len);
    CharsBound(a);
    assert Chars(k) <= Chars(a);
    assert |Chars(a) - Chars(k)| == |Chars(a)| - |Chars(k)| == 0;
    assert Chars(a) == Chars(k);
    KeyValidIff(k, len);
    DistinctMultiset(k);
    DistinctMultiset(a);
    assert multiset(k) == multiset(a) by {
      forall c ensures multiset(k)[c] == multiset(a)[c] {
        assert c in k <==> c in Chars(k);
        assert c in a <==> c in Chars(a);
      }
    }
  }

  /** Conversely every permutation of the alphabet passes `isKeyValid`. */
  lemma PermutationIsValid(k: string, len: int)
    requires 0 <= len <= 26 && multiset(k) == multiset(Alphabet(len))
    ensures IsKeyValid(k, len)
  {
    var a := Alphabet(len);
    assert |k| == |multiset(k)| == |multiset(a)| == len;
    forall i | 0 <= i < |k| ensures InAlphabet(k[i], len) {
      assert k[i] in multiset(k);
    }
    assert Chars(k) == Chars(a) by {
      forall c ensures c in Chars(k) <==> c in Chars(a) {
        assert c in k <==> c in multiset(k);
        assert c in a <==> c in multiset(a);
      }
    }
    CharsBound(a);
  }

  /** In a sequence without repetitions every element occurs once. */
  lemma {:induction false} DistinctMultiset(s: string)
    requires Distinct(s)
    ensures forall c :: multiset(s)[c] == if c in s then 1 else 0
  {
    if s != [] {
      var s' := s[..|s| - 1];
      assert s == s' + [s[|s| - 1]];
      DistinctMultiset(s');
      assert s[|s| - 1] !in s';
    }
  }

  // ---------------------------------------------------------------- random keys

  /**
    Swap choices for one Fisher-Yates shuffle of `n` letters: the step for
    position j (from n-1 down to 1) exchanges it with position picks[j], a
    value in [0, j] as `Math.floor(Math.random() * (j + 1))` yields.
  */
  predicate Picks(picks: seq<int>, n: int)
  {
    |picks| >= n && forall j :: 0 < j < n ==> 0 <= picks[j] <= j
  }

  /** The sequence with the entries at `i` and `k` exchanged. */
  function Swap(s: string, i: int, k: int): (r: string)
    requires 0 <= i < |s| && 0 <= k < |s|
    ensures |r| == |s|
    ensures forall t :: 0 <= t < |s| ==> r[t] == if t == k then s[i] else if t == i then s[k] else s[t]
  {
    s[i := s[k]][k := s[i]]
  }

  /** Exchanging two entries keeps the multiset of entries. */
  lemma SwapPermutes(s: string, i: int, k: int)
    requires 0 <= i < |s| && 0 <= k < |s|
    ensures multiset(Swap(s, i, k)) == multiset(s)
  {
    assert Swap(s, i, k) == s[i := s[k]][k := s[i]];
  }

  /** The Fisher-Yates passes for positions j, j-1, ..., 1. */
  function Shuffled(s: string, picks: seq<int>, j: int): string
    requires j < |s| && Picks(picks, |s|)
    decreases j
  {
    if j <= 0 then s else Shuffled(Swap(s, j, picks[j]), picks, j - 1)
  }

  /** Shuffling only exchanges entries: the result is a permutation of its input. */
  lemma {:induction false} ShuffledPermutes(s: string, picks: seq<int>, j: int)
    requires j < |s| && Picks(picks, |s|)
    ensures |Shuffled(s, picks, j)| == |s|
    ensures multiset(Shuffled(s, picks, j)) == multiset(s)
    decreases j
  {
    if j > 0 {
      var t := Swap(s, j, picks[j]);
      SwapPermutes(s, j, picks[j]);
      ShuffledPermutes(t, picks, j - 1);
    }
  }

  /** The Fisher-Yates loop of `generateRandomKeys`, swapping the entries of `a` in place. */
  method ShuffleInPlace(a: array<char>, picks: seq<int>)
    requires Picks(picks, a.Length)
    modifies a
    ensures a[..] == Shuffled(old(a[..]), picks, a.Length - 1)
  {
    ghost var target := Shuffled(a[..], picks, a.Length - 1);
    var j := a.Length - 1;
    while j > 0
      invariant -1 <= j < a.Length
      invariant Shuffled(a[..], picks, j) == target
    {
      var k := picks[j];
      ghost var after := Swap(a[..], j, k);
      a[j], a[k] := a[k], a[j];
      assert a[..] == after;
      j := j - 1;
    }
  }

  /** One rotor key of `generateRandomKeys`: a copy of the alphabet, shuffled. */
  method ShuffleKey(alphabet: string, picks: seq<int>) returns (key: string)
    requires Picks(picks, |alphabet|)
    ensures key == Shuffled(alphabet, picks, |alphabet| - 1)
  {
    var a := new char[|alphabet|](i requires 0 <= i < |alphabet| => alphabet[i]);
    assert a[..] == alphabet;
    ShuffleInPlace(a, picks);
    key := a[..];
  }

  /**
    `generateRandomKeys` with the random draws given as `picks`: key i is the
    shuffle of the alphabet by picks[i]. An alphabet length outside [5, 26] is
    the error raised by the alphabet.
  */
  method GenerateRandomKeys(rotorCount: int, len: int, picks: seq<seq<int>>) returns (r: Result<seq<string>>)
    requires rotorCount <= |picks| && forall i :: 0 <= i < rotorCount ==> Picks(picks[i], len)
    ensures r.Err? <==> len < 5 || len > 26
    ensures r.Err? ==> r.error == AlphabetLength(len)
    ensures r.Ok? ==> |r.value| == if rotorCount < 0 then 0 else rotorCount
    ensures r.Ok? ==> forall i :: 0 <= i < |r.value| ==>
      r.value[i] == Shuffled(Alphabet(len), picks[i], len - 1)
    ensures r.Ok? ==> forall i :: 0 <= i < |r.value| ==>
      multiset(r.value[i]) == multiset(Alphabet(len)) && IsKeyValid(r.value[i], len)
  {
    var alphabet :- GenerateAlphabet(len);
    var keys: seq<string> := [];
    var i := 0;
    while i < rotorCount
      invariant 0 <= i <= (if rotorCount < 0 then 0 else rotorCount) && |keys| == i
      invariant forall t :: 0 <= t < i ==> keys[t] == Shuffled(alphabet, picks[t], len - 1)
    {
      var key := ShuffleKey(alphabet, picks[i]);
      keys := keys + [key];
      i := i + 1;
    }
    forall t | 0 <= t < |keys|
      ensures multiset(keys[t]) == multiset(alphabet) && IsKeyValid(keys[t], len)
    {
      ShuffledPermutes(alphabet, picks[t], len - 1);
      PermutationIsValid(keys[t], len);
    }
    return Ok(keys);
  }

  // ---------------------------------------------------------------- text validity

  /** Every character of the upper-cased text is a space or a letter of the alphabet. */
  predicate ValidForAlphabet(text: string, len: int)
  {
    forall i :: 0 <= i < |text| ==> ToUpper(text[i]) == ' ' || InAlphabet(ToUpper(text[i]), len)
  }

  /** `isValidForAlphabet`: scans the upper-cased text and stops at the first bad character. */
  method IsValidForAlphabet(text: string, len: int) returns (b: bool)
    ensures b == ValidForAlphabet(text, len)
  {
    var maxCode := 64 + len;
    for i := 0 to |text|
      invariant forall t :: 0 <= t < i ==> ToUpper(text[t]) == ' ' || InAlphabet(ToUpper(text[t]), len)
    {
      var c := ToUpper(text[i]);
      if c == ' ' {
        continue;
      }
      var code := c as int;
      if code < 65 || code > maxCode {
        return false;
      }
    }
    return true;
  }

  // ---------------------------------------------------------------- the cipher

  /** One entry of the step trace: its number, the rotor position, the letter in and what came out. */
  datatype Step = Step(index: nat, rotorPos: int, input: char, output: string)

  /** The cipher text and the step trace of a run. */
  datatype Run = Run(text: string, steps: seq<Step>)

  /** A character the cipher copies unchanged: its upper case is a space or outside A..A+len-1. */
  predicate Passes(c: char, len: int)
  {
    var u := ToUpper(c);
    u == ' ' || u < 'A' || u as int > 64 + len
  }

  /** The setting `customEnigma` is called with: a key valid for the alphabet at every rotor position. */
  predicate KeysFit(keys: seq<string>, rotorCount: int, len: int)
  {
    rotorCount <= |keys| && forall p :: 0 <= p < rotorCount ==> IsKeyValid(keys[p], len)
  }

  /** Every rotor position has a key as long as the alphabet: what the cipher needs to be defined. */
  predicate KeysSized(keys: seq<string>, rotorCount: int, len: int)
  {
    rotorCount <= |keys| && forall p :: 0 <= p < rotorCount ==> |keys[p]| == len
  }

  /**
    What a processed letter `u` becomes under `key`, and whether the key
    lookup found it: encryption reads the key at the letter's index,
    decryption looks the letter up in the key and reads the alphabet there.
  */
  function Substitute(key: string, len: int, mode: Mode, u: char): (r: (char, bool))
    requires 5 <= len <= 26 && |key| == len
  {
    match mode
    case Encrypt =>
      var k := GetLetterIndex(u, len);
      if k != -1 then (key[k], true) else (u, false)
    case Decrypt =>
      var k := IndexOf(key, u);
      if k != -1 then (Alphabet(len)[k], true) else (u, false)
  }

  /** The rotor position after `pos`: one further, back to 0 after the last. */
  function Next(pos: int, n: int): (r: int)
    requires 0 <= pos < n
    ensures 0 <= r < n
  {
    if pos + 1 == n then 0 else pos + 1
  }

  /** Moving on is the `(currentPosition + 1) % rotorCount` of the library. */
  lemma NextIsMod(pos: int, n: int)
    requires 0 <= pos < n
    ensures Next(pos, n) == (pos + 1) % n
  {
    if pos + 1 == n {
      ModUnique(pos + 1, n, 1, 0);
    } else {
      ModUnique(pos + 1, n, 0, pos + 1);
    }
  }

  /** The upper-cased letters of the text the cipher processes, in order. */
  function Letters(text: string, len: int): string
  {
    if text == [] then []
    else (if Passes(text[0], len) then [] else [ToUpper(text[0])]) + Letters(text[1..], len)
  }

  /**
    The run over `text` from rotor position `pos`, with `count` steps already
    recorded: passing characters are copied and leave the position alone,
    every other one is substituted with the key at `pos` and moves the
    position on by one.
  */
  function Cipher(text: string, n: int, keys: seq<string>, len: int, mode: Mode, pos: int, count: nat): (r: Run)
    requires 5 <= len <= 26 && KeysSized(keys, n, len) && 0 <= pos < n
    ensures |r.text| == |text|
    decreases |text|
  {
    if text == [] then Run([], [])
    else if Passes(text[0], len) then
      var rest := Cipher(text[1..], n, keys, len, mode, pos, count);
      Run([text[0]] + rest.text, rest.steps)
    else
      var u := ToUpper(text[0]);
      var (c, found) := Substitute(keys[pos], len, mode, u);
      var rest := Cipher(text[1..], n, keys, len, mode, Next(pos, n), count + 1);
      Run([c] + rest.text, [Step(count, pos, u, if found then [c] else [])] + rest.steps)
  }

  /**
    `customEnigma` as a function of its arguments: the run from position
    startPosition % rotorCount, or the alphabet's error.
  */
  function CustomEnigmaSpec(text: string, rotorCount: int, startPosition: int, keys: seq<string>, len: int, mode: Mode): (r: Result<Run>)
    requires rotorCount >= 1 && startPosition >= 0 && KeysSized(keys, rotorCount, len)
    ensures r.Err? <==> len < 5 || len > 26
    ensures r.Err? ==> r.error == AlphabetLength(len)
    ensures r.Ok? ==> |r.value.text| == |text|
  {
    match GenerateAlphabet(len)
    case Err(e) => Err(e)
    case Ok(_) => Ok(Cipher(text, rotorCount, keys, len, mode, JsRem(startPosition, rotorCount), 0))
  }

  /** A passing character at i is copied: the run over text[i..] is it followed by the run over text[i+1..]. */
  lemma CipherPassStep(text: string, i: int, n: int, keys: seq<string>, len: int, mode: Mode, pos: int, count: nat)
    requires 5 <= len <= 26 && KeysSized(keys, n, len) && 0 <= pos < n && 0 <= i < |text|
    requires Passes(text[i], len)
    ensures var rest := Cipher(text[i + 1..], n, keys, len, mode, pos, count);
      Cipher(text[i..], n, keys, len, mode, pos, count) == Run([text[i]] + rest.text, rest.steps)
  {
    assert text[i..][1..] == text[i + 1..];
  }

  /** A letter at i is substituted and recorded, and the run goes on from the next position. */
  lemma CipherLetterStep(text: string, i: int, n: int, keys: seq<string>, len: int, mode: Mode, pos: int, count: nat)
    requires 5 <= len <= 26 && KeysSized(keys, n, len) && 0 <= pos < n && 0 <= i < |text|
    requires !Passes(text[i], len)
    ensures var u := ToUpper(text[i]);
      var cf := Substitute(keys[pos], len, mode, u);
      var rest := Cipher(text[i + 1..], n, keys, len, mode, Next(pos, n), count + 1);
      Cipher(text[i..], n, keys, len, mode, pos, count)
        == Run([cf.0] + rest.text, [Step(count, pos, u, if cf.1 then [cf.0] else [])] + rest.steps)
  {
    assert text[i..][1..] == text[i + 1..];
  }

  /** `currentPosition = (currentPosition + 1) % rotorCount`. */
  method StepPosition(position: int, rotorCount: int) returns (next: int)
    requires 0 <= position < rotorCount
    ensures next == Next(position, rotorCount)
  {
    NextIsMod(position, rotorCount);
    next := (position + 1) % rotorCount;
  }

  /**
    The substitution branch of `customEnigma` for one letter `c`: the output
    character and the `outputChar` of its step, empty when the lookup fails.
  */
  method SubstituteLetter(key: string, alphabet: string, len: int, mode: Mode, c: char)
    returns (out: char, substituted: string)
    requires 5 <= len <= 26 && |key| == len && alphabet == Alphabet(len)
    ensures var cf := Substitute(key, len, mode, c);
      out == cf.0 && substituted == if cf.1 then [out] else []
  {
    if mode == Encrypt {
      var k := GetLetterIndex(c, len);
      if k != -1 {
        out := key[k];
        substituted := [out];
      } else {
        out := c;
        substituted := [];
      }
    } else {
      var k := IndexOf(key, c);
      if k != -1 {
        out := alphabet[k];
        substituted := [out];
      } else {
        out := c;
        substituted := [];
      }
    }
  }

  /**
    The run from `start`, with `result` and `steps` produced so far and the
    text from `i` on still to go at `position`.
  */
  ghost predicate WalkedTo(text: string, n: int, keys: seq<string>, len: int, mode: Mode, start: int,
                           i: int, result: string, steps: seq<Step>, position: int)
    requires 5 <= len <= 26 && KeysSized(keys, n, len) && 0 <= start < n
  {
    0 <= i <= |text| && 0 <= position < n &&
    var whole, rest := Cipher(text, n, keys, len, mode, start, 0),
                       Cipher(text[i..], n, keys, len, mode, position, |steps|);
    whole.text == result + rest.text && whole.steps == steps + rest.steps
  }

  /** One turn of the loop of `customEnigma`: character `i` is passed or substituted. */
  method WalkChar(text: string, n: int, keys: seq<string>, len: int, mode: Mode, alphabet: string, start: int,
                  i: int, result: string, steps: seq<Step>, position: int)
    returns (result': string, steps': seq<Step>, position': int)
    requires 5 <= len <= 26 && alphabet == Alphabet(len)
    requires KeysSized(keys, n, len) && 0 <= start < n
    requires i < |text| && WalkedTo(text, n, keys, len, mode, start, i, result, steps, position)
    ensures WalkedTo(text, n, keys, len, mode, start, i + 1, result', steps', position')
  {
    ghost var whole := Cipher(text, n, keys, len, mode, start, 0);
    var original := text[i];
    var c := ToUpper(original);
    if c == ' ' || c < 'A' || c as int > 64 + len {
      ghost var rest := Cipher(text[i + 1..], n, keys, len, mode, position, |steps|);
      CipherPassStep(text, i, n, keys, len, mode, position, |steps|);
      AppendAssoc(result, [original], rest.text);
      result', steps', position' := result + [original], steps, position;
    } else {
      var out, substituted := SubstituteLetter(keys[position], alphabet, len, mode, c);
      var step := Step(|steps|, position, c, substituted);
      ghost var rest := Cipher(text[i + 1..], n, keys, len, mode, Next(position, n), |steps| + 1);
      CipherLetterStep(text, i, n, keys, len, mode, position, |steps|);
      AppendAssoc(result, [out], rest.text);
      AppendAssoc(steps, [step], rest.steps);
      result', steps' := result + [out], steps + [step];
      position' := StepPosition(position, n);
    }
  }

  /**
    The loop of `customEnigma`: the text is walked once; passing characters
    are appended as they are, every other one is substituted with the key of
    the current position, recorded as a step, and moves the position on.
  */
  method WalkText(text: string, rotorCount: int, keys: seq<string>, len: int, mode: Mode, alphabet: string, start: int)
    returns (result: string, steps: seq<Step>)
    requires 5 <= len <= 26 && alphabet == Alphabet(len)
    requires KeysSized(keys, rotorCount, len) && 0 <= start < rotorCount
    ensures Run(result, steps) == Cipher(text, rotorCount, keys, len, mode, start, 0)
  {
    result, steps := [], [];
    var position := start;
    assert text[0..] == text;
    for i := 0 to |text|
      invariant WalkedTo(text, rotorCount, keys, len, mode, start, i, result, steps, position)
    {
      result, steps, position := WalkChar(text, rotorCount, keys, len, mode, alphabet, start, i, result, steps, position);
    }
    assert text[|text|..] == [];
  }

  /**
    `customEnigma`: the start position is startPosition % rotorCount, the
    alphabet of the chosen length is built (or its error raised), and the
    text is walked.
  */
  method CustomEnigma(text: string, rotorCount: int, startPosition: int, keys: seq<string>, len: int, mode: Mode)
    returns (r: Result<Run>)
    requires rotorCount >= 1 && startPosition >= 0 && KeysSized(keys, rotorCount, len)
    ensures r == CustomEnigmaSpec(text, rotorCount, startPosition, keys, len, mode)
  {
    var position := JsRem(startPosition, rotorCount);
    var alphabet :- GenerateAlphabet(len);
    var result, steps := WalkText(text, rotorCount, keys, len, mode, alphabet, position);
    return Ok(Run(result, steps));
  }

  // ---------------------------------------------------------------- properties of a run

  /** Step `st` is the `number`-th, taken at rotor position `at` on `letter`, with what the key there gives. */
  predicate StepMatches(st: Step, keys: seq<string>, n: int, len: int, mode: Mode, at: int, number: nat, letter: char)
    requires 5 <= len <= 26 && KeysSized(keys, n, len) && 0 <= at < n
  {
    && st.index == number
    && st.rotorPos == at
    && st.input == letter
    && var cf := Substitute(keys[at], len, mode, letter);
       st.output == if cf.1 then [cf.0] else []
  }

  /** The rotor position after `k` processed letters from `pos`, moved on one at a time. */
  function Moved(pos: int, k: nat, n: int): (r: int)
    requires 0 <= pos < n
    ensures 0 <= r < n
    decreases k
  {
    if k == 0 then pos else Moved(Next(pos, n), k - 1, n)
  }

  /** Moving on k times one at a time is moving on by k at once. */
  lemma {:induction false} MovedIsSum(pos: int, k: nat, n: int)
    requires 0 <= pos < n
    ensures Moved(pos, k, n) == (pos + k) % n
    decreases k
  {
    if k == 0 {
      ModUnique(pos, n, 0, pos);
    } else {
      MovedIsSum(Next(pos, n), k - 1, n);
      NextIsMod(pos, n);
      ResidueShift(pos + 1, k - 1, n);
    }
  }

  /** One step per processed letter. */
  lemma {:induction false} StepCount(text: string, n: int, keys: seq<string>, len: int, mode: Mode, pos: int, count: nat)
    requires 5 <= len <= 26 && KeysSized(keys, n, len) && 0 <= pos < n
    ensures |Cipher(text, n, keys, len, mode, pos, count).steps| == |Letters(text, len)|
    decreases |text|
  {
    if text != [] {
      if Passes(text[0], len) {
        StepCount(text[1..], n, keys, len, mode, pos, count);
      } else {
        StepCount(text[1..], n, keys, len, mode, Next(pos, n), count + 1);
      }
    }
  }

  /** Step k is numbered count + k, taken at the position moved on k times, on the k-th processed letter. */
  lemma {:induction false} StepAt(text: string, n: int, keys: seq<string>, len: int, mode: Mode, pos: int, count: nat, k: int)
    requires 5 <= len <= 26 && KeysSized(keys, n, len) && 0 <= pos < n
    requires 0 <= k < |Letters(text, len)|
    ensures var r := Cipher(text, n, keys, len, mode, pos, count);
      k < |r.steps| && StepMatches(r.steps[k], keys, n, len, mode, Moved(pos, k, n), count + k, Letters(text, len)[k])
    decreases |text|
  {
    StepCount(text, n, keys, len, mode, pos, count);
    var r := Cipher(text, n, keys, len, mode, pos, count);
    var letters := Letters(text, len);
    if Passes(text[0], len) {
      StepAt(text[1..], n, keys, len, mode, pos, count, k);
      assert r.steps == Cipher(text[1..], n, keys, len, mode, pos, count).steps;
      assert letters == Letters(text[1..], len);
    } else {
      var pos' := Next(pos, n);
      var rest := Cipher(text[1..], n, keys, len, mode, pos', count + 1);
      var letters' := Letters(text[1..], len);
      assert r.steps == [r.steps[0]] + rest.steps;
      assert letters == [ToUpper(text[0])] + letters';
      if k > 0 {
        StepAt(text[1..], n, keys, len, mode, pos', count + 1, k - 1);
        assert r.steps[k] == rest.steps[k - 1] && letters[k] == letters'[k - 1];
        assert Moved(pos, k, n) == Moved(pos', k - 1, n);
      }
    }
  }

  /**
    The step trace in full: step k is numbered after the steps before it, was
    taken at the position moved on k times from the start, reads the k-th
    processed letter, and records what the key at that position made of it.
  */
  lemma StepsTrace(text: string, n: int, keys: seq<string>, len: int, mode: Mode, pos: int, count: nat)
    requires 5 <= len <= 26 && KeysSized(keys, n, len) && 0 <= pos < n
    ensures var r := Cipher(text, n, keys, len, mode, pos, count);
      var letters := Letters(text, len);
      && |r.steps| == |letters|
      && forall k :: 0 <= k < |r.steps| ==>
           StepMatches(r.steps[k], keys, n, len, mode, Moved(pos, k, n), count + k, letters[k])
  {
    StepCount(text, n, keys, len, mode, pos, count);
    forall k | 0 <= k < |Letters(text, len)|
      ensures StepMatches(Cipher(text, n, keys, len, mode, pos, count).steps[k], keys, n, len, mode, Moved(pos, k, n), count + k, Letters(text, len)[k])
    {
      StepAt(text, n, keys, len, mode, pos, count, k);
    }
  }

  /**
    Character i of the cipher text: a passing character is itself; any other
    is substituted with the key at the start position moved on once for every
    letter processed before it.
  */
  lemma {:induction false} CipherAt(text: string, n: int, keys: seq<string>, len: int, mode: Mode, pos: int, count: nat, i: int)
    requires 5 <= len <= 26 && KeysSized(keys, n, len) && 0 <= pos < n && 0 <= i < |text|
    ensures var r := Cipher(text, n, keys, len, mode, pos, count);
      r.text[i] == if Passes(text[i], len) then text[i]
        else Substitute(keys[Moved(pos, |Letters(text[..i], len)|, n)], len, mode, ToUpper(text[i])).0
    decreases |text|
  {
    if i == 0 {
      assert text[..i] == [];
    } else {
      var r := Cipher(text, n, keys, len, mode, pos, count);
      var tail := text[1..][..i - 1];
      assert text[..i] == [text[0]] + tail;
      assert text[..i][1..] == tail;
      if Passes(text[0], len) {
        var rest := Cipher(text[1..], n, keys, len, mode, pos, count);
        CipherAt(text[1..], n, keys, len, mode, pos, count, i - 1);
        assert r.text == [text[0]] + rest.text;
        assert Letters(text[..i], len) == Letters(tail, len);
      } else {
        var rest := Cipher(text[1..], n, keys, len, mode, Next(pos, n), count + 1);
        CipherAt(text[1..], n, keys, len, mode, Next(pos, n), count + 1, i - 1);
        assert r.text == [r.text[0]] + rest.text;
        assert Letters(text[..i], len) == [ToUpper(text[0])] + Letters(tail, len);
        assert Moved(pos, |Letters(text[..i], len)|, n) == Moved(Next(pos, n), |Letters(tail, len)|, n);
      }
    }
  }

  /** The input with every processed character upper-cased and every passing one as it was. */
  function Normalised(text: string, len: int): (r: string)
    ensures |r| == |text|
  {
    if text == [] then [] else [if Passes(text[0], len) then text[0] else ToUpper(text[0])] + Normalised(text[1..], len)
  }

  /** Deciphering the cipher text from the same position recovers the upper-cased input. */
  lemma {:induction false} CipherRoundTrip(text: string, n: int, keys: seq<string>, len: int, pos: int, count: nat)
    requires 5 <= len <= 26 && KeysFit(keys, n, len) && 0 <= pos < n
    ensures var e := Cipher(text, n, keys, len, Encrypt, pos, count);
      Cipher(e.text, n, keys, len, Decrypt, pos, count).text == Normalised(text, len)
    decreases |text|
  {
    if text != [] {
      var e := Cipher(text, n, keys, len, Encrypt, pos, count);
      var d := Cipher(e.text, n, keys, len, Decrypt, pos, count);
      var norm := Normalised(text, len);
      assert norm == [norm[0]] + Normalised(text[1..], len);
      if Passes(text[0], len) {
        var e' := Cipher(text[1..], n, keys, len, Encrypt, pos, count);
        assert e.text == [text[0]] + e'.text;
        assert e.text[0] == text[0] && e.text[1..] == e'.text;
        CipherRoundTrip(text[1..], n, keys, len, pos, count);
        assert d.text == [text[0]] + Cipher(e'.text, n, keys, len, Decrypt, pos, count).text;
      } else {
        var key := keys[pos];
        var u := ToUpper(text[0]);
        var k := u as int - 65;
        var c := key[k];
        KeyValidIff(key, len);
        IndexOfDistinct(key, k);
        AlphabetAt(len, k);
        assert Substitute(key, len, Encrypt, u) == (c, true);
        assert Substitute(key, len, Decrypt, c) == (u, true);
        var e' := Cipher(text[1..], n, keys, len, Encrypt, Next(pos, n), count + 1);
        assert e.text == [c] + e'.text;
        assert e.text[0] == c && e.text[1..] == e'.text;
        assert !Passes(c, len);
        CipherRoundTrip(text[1..], n, keys, len, Next(pos, n), count + 1);
        assert d.text == [u] + Cipher(e'.text, n, keys, len, Decrypt, Next(pos, n), count + 1).text;
      }
    }
  }

  /** A text the page accepts for the alphabet enciphers and deciphers to a text it accepts again. */
  lemma {:induction false} CipherStaysInAlphabet(text: string, n: int, keys: seq<string>, len: int, mode: Mode, pos: int, count: nat)
    requires 5 <= len <= 26 && KeysFit(keys, n, len) && 0 <= pos < n
    requires ValidForAlphabet(text, len)
    ensures ValidForAlphabet(Cipher(text, n, keys, len, mode, pos, count).text, len)
    decreases |text|
  {
    if text != [] {
      var r := Cipher(text, n, keys, len, mode, pos, count);
      var pos' := if Passes(text[0], len) then pos else Next(pos, n);
      var count' := if Passes(text[0], len) then count else count + 1;
      var rest := Cipher(text[1..], n, keys, len, mode, pos', count');
      CipherStaysInAlphabet(text[1..], n, keys, len, mode, pos', count');
      assert r.text == [r.text[0]] + rest.text;
      if !Passes(text[0], len) {
        var key := keys[pos];
        KeyValidIff(key, len);
        assert InAlphabet(r.text[0], len);
      }
      assert ToUpper(r.text[0]) == ' ' || InAlphabet(ToUpper(r.text[0]), len);
    }
  }

  // ---------------------------------------------------------------- properties of customEnigma

  /** The start position is startPosition % rotorCount, so the position moved on k times is (startPosition + k) % rotorCount. */
  lemma StartMoved(startPosition: int, rotorCount: int, k: nat)
    requires rotorCount >= 1 && startPosition >= 0
    ensures Moved(JsRem(startPosition, rotorCount), k, rotorCount) == (startPosition + k) % rotorCount
  {
    assert JsRem(startPosition, rotorCount) == startPosition % rotorCount;
    MovedIsSum(startPosition % rotorCount, k, rotorCount);
    ResidueShift(startPosition, k, rotorCount);
  }

  /**
    Every step of `customEnigma`: step k is the k-th processed letter, taken
    at rotor position (startPosition + k) % rotorCount with that position's key.
  */
  lemma CustomEnigmaSteps(text: string, rotorCount: int, startPosition: int, keys: seq<string>, len: int, mode: Mode)
    requires rotorCount >= 1 && startPosition >= 0 && KeysSized(keys, rotorCount, len)
    ensures var r := CustomEnigmaSpec(text, rotorCount, startPosition, keys, len, mode);
      r.Ok? ==>
        && |r.value.steps| == |Letters(text, len)|
        && forall k :: 0 <= k < |r.value.steps| ==>
             StepMatches(r.value.steps[k], keys, rotorCount, len, mode, (startPosition + k) % rotorCount, k, Letters(text, len)[k])
  {
    var r := CustomEnigmaSpec(text, rotorCount, startPosition, keys, len, mode);
    if r.Ok? {
      var start := JsRem(startPosition, rotorCount);
      StepsTrace(text, rotorCount, keys, len, mode, start, 0);
      forall k | 0 <= k < |r.value.steps| ensures Moved(start, k, rotorCount) == (startPosition + k) % rotorCount {
        StartMoved(startPosition, rotorCount, k);
      }
    }
  }

  /**
    Every character of the `customEnigma` output: a space or a character
    outside the alphabet is copied as it was; a letter is substituted with the
    key at position (startPosition + m) % rotorCount, m being the number of
    letters processed before it.
  */
  lemma CustomEnigmaChars(text: string, rotorCount: int, startPosition: int, keys: seq<string>, len: int, mode: Mode, i: int)
    requires rotorCount >= 1 && startPosition >= 0 && KeysSized(keys, rotorCount, len) && 0 <= i < |text|
    ensures var r := CustomEnigmaSpec(text, rotorCount, startPosition, keys, len, mode);
      r.Ok? ==>
        r.value.text[i] ==
          (if Passes(text[i], len) then text[i]
           else Substitute(keys[(startPosition + |Letters(text[..i], len)|) % rotorCount], len, mode, ToUpper(text[i])).0)
  {
    var r := CustomEnigmaSpec(text, rotorCount, startPosition, keys, len, mode);
    if r.Ok? {
      CipherAt(text, rotorCount, keys, len, mode, JsRem(startPosition, rotorCount), 0, i);
      StartMoved(startPosition, rotorCount, |Letters(text[..i], len)|);
    }
  }

  /**
    With valid keys, decrypting the encryption under the same settings gives
    back the input with its alphabet letters upper-cased.
  */
  lemma CustomEnigmaRoundTrip(text: string, rotorCount: int, startPosition: int, keys: seq<string>, len: int)
    requires rotorCount >= 1 && startPosition >= 0 && KeysFit(keys, rotorCount, len)
    ensures var e := CustomEnigmaSpec(text, rotorCount, startPosition, keys, len, Encrypt);
      e.Ok? ==>
        var d := CustomEnigmaSpec(e.value.text, rotorCount, startPosition, keys, len, Decrypt);
        d.Ok? && d.value.text == Normalised(text, len)
  {
    if 5 <= len <= 26 {
      CipherRoundTrip(text, rotorCount, keys, len, JsRem(startPosition, rotorCount), 0);
    }
  }

  /** The page's input check accepts the output of `customEnigma` whenever it accepted the input. */
  lemma CustomEnigmaStaysInAlphabet(text: string, rotorCount: int, startPosition: int, keys: seq<string>, len: int, mode: Mode)
    requires rotorCount >= 1 && startPosition >= 0 && KeysFit(keys, rotorCount, len)
    requires ValidForAlphabet(text, len)
    ensures var r := CustomEnigmaSpec(text, rotorCount, startPosition, keys, len, mode);
      r.Ok? ==> ValidForAlphabet(r.value.text, len)
  {
    if 5 <= len <= 26 {
      CipherStaysInAlphabet(text, rotorCount, keys, len, mode, JsRem(startPosition, rotorCount), 0);
    }
  }
}
