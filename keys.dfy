/**
  `parseKeyString`: a rotor key typed as comma-separated letters, such as
  "D,A,H,C,F,B,G,E", is split, trimmed, upper-cased and checked; the
  alphabet length is read off its highest letter.
*/
module KeyParse {
  import opened Text
  import opened Results
  import CustomRotor

  // ---------------------------------------------------------------- trimming

  /** The white space and line terminators that `String.prototype.trim` removes. */
  predicate IsSpace(c: char)
  {
    var k := c as int;
    || 9 <= k <= 13
    || k == 0x20 || k == 0xA0 || k == 0x1680
    || 0x2000 <= k <= 0x200A
    || k == 0x2028 || k == 0x2029 || k == 0x202F || k == 0x205F || k == 0x3000 || k == 0xFEFF
  }

  predicate AllSpace(s: string)
  {
    forall k :: 0 <= k < |s| ==> IsSpace(s[k])
  }

  /** The number of white-space characters `s` starts with. */
  function Lead(s: string): (n: nat)
    ensures n <= |s|
    decreases |s|
  {
    if s != [] && IsSpace(s[0]) then 1 + Lead(s[1..]) else 0
  }

  /** The number of white-space characters `s` ends with. */
  function Trail(s: string): (n: nat)
    ensures n <= |s|
    decreases |s|
  {
    if s != [] && IsSpace(s[|s| - 1]) then 1 + Trail(s[..|s| - 1]) else 0
  }

  /** `Lead` counts white space only, and all of it: the next character is not white space. */
  lemma {:induction false} LeadSpaces(s: string)
    ensures AllSpace(s[..Lead(s)])
    ensures Lead(s) < |s| ==> !IsSpace(s[Lead(s)])
    decreases |s|
  {
    if s != [] && IsSpace(s[0]) {
      LeadSpaces(s[1..]);
      assert s[..Lead(s)] == [s[0]] + s[1..][..Lead(s[1..])];
    }
  }

  /** `Trail` counts white space only, and all of it: the character before is not white space. */
  lemma {:induction false} TrailSpaces(s: string)
    ensures AllSpace(s[|s| - Trail(s)..])
    ensures Trail(s) < |s| ==> !IsSpace(s[|s| - 1 - Trail(s)])
    decreases |s|
  {
    if s != [] && IsSpace(s[|s| - 1]) {
      var init := s[..|s| - 1];
      TrailSpaces(init);
      assert s[|s| - Trail(s)..] == init[|init| - Trail(init)..] + [s[|s| - 1]];
      if Trail(s) < |s| {
        assert s[|s| - 1 - Trail(s)] == init[|init| - 1 - Trail(init)];
      }
    }
  }

  /** `trimStart`. */
  function TrimStart(s: string): string
  {
    s[Lead(s)..]
  }

  /** `trimEnd`. */
  function TrimEnd(s: string): string
  {
    s[..|s| - Trail(s)]
  }

  /** `String.prototype.trim`. */
  function Trim(s: string): string
  {
    TrimEnd(TrimStart(s))
  }

  /**
    What `trim` leaves is the slice between the leading and the trailing white
    space, which are all white space, and it neither starts nor ends with
    white space.
  */
  lemma TrimSlice(s: string)
    ensures var t, a := Trim(s), Lead(s);
      && a + |t| <= |s| && t == s[a..a + |t|]
      && AllSpace(s[..a]) && AllSpace(s[a + |t|..])
      && (t == [] || (!IsSpace(t[0]) && !IsSpace(t[|t| - 1])))
  {
    var a := Lead(s);
    var u := s[a..];
    var b := Trail(u);
    var t := u[..|u| - b];
    assert |t| == |s| - a - b;
    assert t == s[a..a + |t|] by {
      forall k | 0 <= k < |t| ensures t[k] == s[a + k] {
        assert t[k] == u[k];
      }
    }
    assert s[a + |t|..] == u[|u| - b..];
    assert AllSpace(s[..a]) && (a < |s| ==> !IsSpace(s[a])) by {
      LeadSpaces(s);
    }
    assert AllSpace(u[|u| - b..]) && (b < |u| ==> !IsSpace(u[|u| - 1 - b])) by {
      TrailSpaces(u);
    }
    if t != [] {
      assert t[0] == u[0] == s[a];
      assert t[|t| - 1] == u[|u| - 1 - b];
    }
  }

  /** Only a string of white space trims to nothing. */
  lemma TrimBlank(s: string)
    ensures Trim(s) == [] <==> AllSpace(s)
  {
    TrimSlice(s);
    var a := Lead(s);
    if Trim(s) == [] {
      assert s == s[..a] + s[a..];
    } else {
      assert Trim(s)[0] == s[a];
    }
  }

  /** A string that starts and ends with something other than white space is its own trim. */
  lemma TrimKeeps(s: string)
    requires s == [] || (!IsSpace(s[0]) && !IsSpace(s[|s| - 1]))
    ensures Trim(s) == s
  {
    assert Lead(s) == 0;
    assert s[0..] == s;
    assert Trail(s) == 0;
  }

  // ---------------------------------------------------------------- splitting

  /** `toUpperCase` on a whole string. */
  function UpperAll(s: string): (r: string)
    ensures |r| == |s| && forall k :: 0 <= k < |s| ==> r[k] == ToUpper(s[k])
  {
    seq(|s|, k requires 0 <= k < |s| => ToUpper(s[k]))
  }

  /** `split(",")`: the pieces between the commas, in order; there is always at least one. */
  function Split(s: string): (r: seq<string>)
    ensures |r| >= 1
    decreases |s|
  {
    if s == [] then [[]]
    else
      var rest := Split(s[1..]);
      if s[0] == ',' then [[]] + rest
      else [[s[0]] + rest[0]] + rest[1..]
  }

  /** No piece of a split holds a comma. */
  lemma {:induction false} SplitPieces(s: string)
    ensures forall k :: 0 <= k < |Split(s)| ==> ',' !in Split(s)[k]
    decreases |s|
  {
    if s != [] {
      SplitPieces(s[1..]);
      var rest := Split(s[1..]);
      if s[0] == ',' {
        assert forall k :: 1 <= k < |Split(s)| ==> Split(s)[k] == rest[k - 1];
      } else {
        assert forall k :: 1 <= k < |Split(s)| ==> Split(s)[k] == rest[k];
      }
    }
  }

  /** `join(",")`. */
  function Join(pieces: seq<string>): string
    requires |pieces| >= 1
    decreases |pieces|
  {
    if |pieces| == 1 then pieces[0] else pieces[0] + [','] + Join(pieces[1..])
  }

  /** Putting a character in front of the first piece puts it in front of the joined string. */
  lemma JoinFront(c: char, pieces: seq<string>)
    requires |pieces| >= 1
    ensures Join([[c] + pieces[0]] + pieces[1..]) == [c] + Join(pieces)
  {
    var q := [[c] + pieces[0]] + pieces[1..];
    assert q[1..] == pieces[1..];
  }

  /** Joining the pieces of a split gives the string back. */
  lemma {:induction false} JoinSplit(s: string)
    ensures Join(Split(s)) == s
    decreases |s|
  {
    if s != [] {
      var rest := Split(s[1..]);
      JoinSplit(s[1..]);
      if s[0] == ',' {
        assert ([[]] + rest)[1..] == rest;
        assert s == [','] + s[1..];
      } else {
        JoinFront(s[0], rest);
        assert s == [s[0]] + s[1..];
      }
    }
  }

  /** A comma-free prefix extends the first piece of the split. */
  lemma {:induction false} SplitFront(w: string, t: string)
    requires ',' !in w
    ensures Split(w + t) == [w + Split(t)[0]] + Split(t)[1..]
    decreases |w|
  {
    if w != [] {
      assert (w + t)[1..] == w[1..] + t;
      assert w[0] == (w + t)[0];
      SplitFront(w[1..], t);
      assert [w[0]] + (w[1..] + Split(t)[0]) == w + Split(t)[0];
    } else {
      assert w + t == t && w + Split(t)[0] == Split(t)[0];
      assert Split(t) == [Split(t)[0]] + Split(t)[1..];
    }
  }

  /** Splitting comma-free pieces joined with commas gives the pieces back. */
  lemma {:induction false} SplitJoin(pieces: seq<string>)
    requires |pieces| >= 1 && forall k :: 0 <= k < |pieces| ==> ',' !in pieces[k]
    ensures Split(Join(pieces)) == pieces
    decreases |pieces|
  {
    if |pieces| == 1 {
      SplitFront(pieces[0], []);
      assert Split([]) == [[]];
      assert pieces[0] + [] == pieces[0];
      assert pieces == [pieces[0]];
    } else {
      var j := Join(pieces[1..]);
      SplitJoin(pieces[1..]);
      assert Join(pieces) == pieces[0] + ([','] + j);
      SplitFront(pieces[0], [','] + j);
      var t := [','] + j;
      assert t[0] == ',' && t[1..] == j;
      assert Split(t) == [[]] + Split(j);
      assert Split(t)[1..] == pieces[1..];
      assert pieces[0] + Split(t)[0] == pieces[0];
      assert pieces == [pieces[0]] + pieces[1..];
    }
  }

  /**
    `.map((p) => p.trim().toUpperCase()).filter((p) => p)`: the pieces trimmed
    and upper-cased, the empty ones dropped.
  */
  function Entries(pieces: seq<string>): seq<string>
    decreases |pieces|
  {
    if pieces == [] then []
    else
      var e := UpperAll(Trim(pieces[0]));
      (if e == [] then [] else [e]) + Entries(pieces[1..])
  }

  /** No entry is empty, and there are no more entries than pieces. */
  lemma {:induction false} EntriesNonEmpty(pieces: seq<string>)
    ensures [] !in Entries(pieces) && |Entries(pieces)| <= |pieces|
    decreases |pieces|
  {
    if pieces != [] {
      EntriesNonEmpty(pieces[1..]);
    }
  }

  // ---------------------------------------------------------------- letters

  /** Every entry holds exactly one character. */
  predicate Single(parts: seq<string>)
  {
    forall k :: 0 <= k < |parts| ==> |parts[k]| == 1
  }

  /**
    The duplicates list of the `seen` loop: every entry that equals an earlier
    one, in order.
  */
  function Duplicates(parts: seq<string>): seq<string>
    decreases |parts|
  {
    if parts == [] then []
    else
      var init, last := parts[..|parts| - 1], parts[|parts| - 1];
      Duplicates(init) + (if last in init then [last] else [])
  }

  /** The duplicates are exactly the entries that occur more than once. */
  lemma {:induction false} DuplicatesRepeat(parts: seq<string>)
    ensures forall x :: x in Duplicates(parts) <==> multiset(parts)[x] >= 2
    decreases |parts|
  {
    if parts != [] {
      var init, last := parts[..|parts| - 1], parts[|parts| - 1];
      DuplicatesRepeat(init);
      assert parts == init + [last];
      assert multiset(parts) == multiset(init) + multiset{last};
    }
  }

  /** There are no duplicates exactly when no entry occurs twice. */
  lemma {:induction false} DuplicatesNone(parts: seq<string>)
    ensures Duplicates(parts) == [] <==> Distinct(parts)
    decreases |parts|
  {
    if parts != [] {
      var init, last := parts[..|parts| - 1], parts[|parts| - 1];
      DuplicatesNone(init);
      if Distinct(parts) {
        assert last !in init by {
          forall i | 0 <= i < |init| ensures init[i] != last {
            assert init[i] == parts[i];
          }
        }
      }
      if Distinct(init) && last !in init {
        forall i, j | 0 <= i < j < |parts| ensures parts[i] != parts[j] {
          assert parts[i] == init[i];
          if j < |parts| - 1 { assert parts[j] == init[j]; }
        }
      }
    }
  }

  /** `seen` / `duplicates`: one pass collecting every entry already seen. */
  method FindDuplicates(parts: seq<string>) returns (duplicates: seq<string>)
    ensures duplicates == Duplicates(parts)
  {
    var seen: set<string> := {};
    duplicates := [];
    for i := 0 to |parts|
      invariant seen == set k | 0 <= k < i :: parts[k]
      invariant duplicates == Duplicates(parts[..i])
    {
      var letter := parts[i];
      assert parts[..i + 1][..i] == parts[..i];
      assert letter in seen <==> letter in parts[..i] by {
        if letter in parts[..i] {
          var k :| 0 <= k < i && parts[..i][k] == letter;
          assert parts[k] == letter;
        }
      }
      if letter in seen {
        duplicates := duplicates + [letter];
      }
      seen := seen + {letter};
    }
    assert parts[..|parts|] == parts;
  }

  /** The first character of every entry: its `charCodeAt(0)`. */
  function Firsts(parts: seq<string>): (r: string)
    requires [] !in parts
    ensures |r| == |parts|
  {
    seq(|parts|, k requires 0 <= k < |parts| => parts[k][0])
  }

  /** `Math.max(...)` of the character codes. */
  function MaxCode(cs: string): int
    requires |cs| >= 1
    decreases |cs|
  {
    if |cs| == 1 then cs[0] as int
    else
      var m := MaxCode(cs[1..]);
      if cs[0] as int > m then cs[0] as int else m
  }

  /** No code is above the maximum, and some character has it. */
  lemma {:induction false} MaxCodeBounds(cs: string)
    requires |cs| >= 1
    ensures forall k :: 0 <= k < |cs| ==> cs[k] as int <= MaxCode(cs)
    ensures exists k :: 0 <= k < |cs| && cs[k] as int == MaxCode(cs)
    decreases |cs|
  {
    if |cs| > 1 {
      var tail := cs[1..];
      MaxCodeBounds(tail);
      assert forall k :: 1 <= k < |cs| ==> cs[k] == tail[k - 1];
      if cs[0] as int <= MaxCode(tail) {
        var j :| 0 <= j < |tail| && tail[j] as int == MaxCode(tail);
        assert cs[j + 1] == tail[j];
      }
    }
  }

  /** The first character outside A up to the letter number `len`, if any. */
  function FirstOutside(cs: string, len: int): Option<char>
    decreases |cs|
  {
    if cs == [] then None
    else if !CustomRotor.InAlphabet(cs[0], len) then Some(cs[0])
    else FirstOutside(cs[1..], len)
  }

  /** Nothing is reported exactly when every character is inside; what is reported is outside. */
  lemma {:induction false} FirstOutsideFound(cs: string, len: int)
    ensures FirstOutside(cs, len).None? <==> forall k :: 0 <= k < |cs| ==> CustomRotor.InAlphabet(cs[k], len)
    ensures FirstOutside(cs, len).Some? ==>
      FirstOutside(cs, len).value in cs && !CustomRotor.InAlphabet(FirstOutside(cs, len).value, len)
    decreases |cs|
  {
    if cs != [] && CustomRotor.InAlphabet(cs[0], len) {
      FirstOutsideFound(cs[1..], len);
      assert forall k :: 1 <= k < |cs| ==> cs[k] == cs[1..][k - 1];
    }
  }

  /** When every character before `i` is inside and the one at `i` is not, the one at `i` is reported. */
  lemma {:induction false} FirstOutsideAt(cs: string, len: int, i: int)
    requires 0 <= i < |cs|
    requires forall k :: 0 <= k < i ==> CustomRotor.InAlphabet(cs[k], len)
    requires !CustomRotor.InAlphabet(cs[i], len)
    ensures FirstOutside(cs, len) == Some(cs[i])
    decreases i
  {
    if i > 0 {
      assert CustomRotor.InAlphabet(cs[0], len);
      assert cs[1..][i - 1] == cs[i];
      FirstOutsideAt(cs[1..], len, i - 1);
    }
  }

  // ---------------------------------------------------------------- parsing

  /** One constructor per rejection of `parseKeyString`. */
  datatype KeyError =
    | Blank                                 // empty or white space only
    | NoLetters                             // nothing left after dropping empty pieces
    | ExtraComma                            // an empty entry (cannot occur: see ExtraCommaNever)
    | NotSingle                             // an entry longer than one character
    | Duplicate(letters: seq<string>)       // the repeated entries, in order
    | OutOfRange                            // highest letter gives a length outside [5, 26]
    | OutsideAlphabet(letter: char, len: int) // an entry below 'A'
    | WrongCount(expected: int, got: int, alphabetLength: int)

  /** `{ valid, key, error, alphabetLength }` of `parseKeyString`. */
  datatype Parsed = Valid(key: seq<string>, alphabetLength: int) | Invalid(error: KeyError)

  /** What `parseKeyString(input, expectedLength)` returns. */
  function ParseKey(input: string, expectedLength: int): Parsed
  {
    if input == [] || Trim(input) == [] then Invalid(Blank)
    else CheckEntries(Entries(Split(input)), expectedLength)
  }

  /** The checks on the entries, in the order `parseKeyString` makes them. */
  function CheckEntries(parts: seq<string>, expectedLength: int): Parsed
  {
    if parts == [] then Invalid(NoLetters)
    else if [] in parts then Invalid(ExtraComma)
    else if exists k | 0 <= k < |parts| :: |parts[k]| > 1 then Invalid(NotSingle)
    else if Duplicates(parts) != [] then Invalid(Duplicate(Duplicates(parts)))
    else CheckLetters(parts, MaxCode(Firsts(parts)) - 64, expectedLength)
  }

  /** The checks once the alphabet length has been read off the highest letter. */
  function CheckLetters(parts: seq<string>, detected: int, expectedLength: int): Parsed
    requires [] !in parts
  {
    if detected < 5 || detected > 26 then Invalid(OutOfRange)
    else match FirstOutside(Firsts(parts), detected)
      case Some(c) => Invalid(OutsideAlphabet(c, detected))
      case None =>
        if expectedLength > 0 && |parts| != expectedLength then
          Invalid(WrongCount(expectedLength, |parts|, detected))
        else Valid(parts, detected)
  }

  /** `parseKeyString`, with its duplicate loop and its range loop. */
  method ParseKeyString(input: string, expectedLength: int) returns (r: Parsed)
    ensures r == ParseKey(input, expectedLength)
  {
    if input == [] || Trim(input) == [] {
      return Invalid(Blank);
    }
    var parts := Entries(Split(input));
    if |parts| == 0 {
      return Invalid(NoLetters);
    }
    if [] in parts {
      return Invalid(ExtraComma);
    }
    if exists k | 0 <= k < |parts| :: |parts[k]| > 1 {
      return Invalid(NotSingle);
    }
    var duplicates := FindDuplicates(parts);
    if |duplicates| > 0 {
      return Invalid(Duplicate(duplicates));
    }
    var detected := MaxCode(Firsts(parts)) - 64;
    r := CheckRange(parts, detected, expectedLength);
  }

  /** The range loop of `parseKeyString` and the count check after it. */
  method CheckRange(parts: seq<string>, detected: int, expectedLength: int) returns (r: Parsed)
    requires [] !in parts
    ensures r == CheckLetters(parts, detected, expectedLength)
  {
    if detected < 5 || detected > 26 {
      return Invalid(OutOfRange);
    }
    ghost var cs := Firsts(parts);
    for i := 0 to |parts|
      invariant forall k :: 0 <= k < i ==> CustomRotor.InAlphabet(cs[k], detected)
    {
      var code := parts[i][0] as int;
      if code < 65 || code > 64 + detected {
        FirstOutsideAt(cs, detected, i);
        return Invalid(OutsideAlphabet(parts[i][0], detected));
      }
    }
    FirstOutsideFound(cs, detected);
    if expectedLength > 0 && |parts| != expectedLength {
      return Invalid(WrongCount(expectedLength, |parts|, detected));
    }
    return Valid(parts, detected);
  }

  // ---------------------------------------------------------------- properties

  /** The empty pieces are filtered out before the check for them, so it never rejects. */
  lemma ExtraCommaNever(input: string, expectedLength: int)
    ensures ParseKey(input, expectedLength) != Invalid(ExtraComma)
  {
    EntriesNonEmpty(Split(input));
  }

  /** Exactly the empty and all-white-space inputs are rejected as blank. */
  lemma ParseBlank(input: string, expectedLength: int)
    ensures ParseKey(input, expectedLength) == Invalid(Blank) <==> AllSpace(input)
  {
    TrimBlank(input);
  }

  /** The duplicates reported are the entries that occur more than once, and there is one. */
  lemma CheckDuplicate(parts: seq<string>, expectedLength: int, letters: seq<string>)
    requires CheckEntries(parts, expectedLength) == Invalid(Duplicate(letters))
    ensures letters != []
    ensures forall x :: x in letters <==> multiset(parts)[x] >= 2
  {
    DuplicatesRepeat(parts);
  }

  /** `parseKeyString` reports as duplicates the entries of the input that occur more than once. */
  lemma ParseDuplicate(input: string, expectedLength: int, letters: seq<string>)
    requires ParseKey(input, expectedLength) == Invalid(Duplicate(letters))
    ensures letters != []
    ensures forall x :: x in letters <==> multiset(Entries(Split(input)))[x] >= 2
  {
    CheckDuplicate(Entries(Split(input)), expectedLength, letters);
  }

  /**
    A key `parseKeyString` accepts: each entry one letter, no letter twice,
    all of them from A up to the highest, whose position is the alphabet
    length, between 5 and 26; as many entries as expected when that is given.
  */
  predicate Accepted(key: seq<string>, len: int, expectedLength: int)
  {
    && 5 <= len <= 26
    && Single(key) && Distinct(key)
    && (forall k :: 0 <= k < |key| ==> CustomRotor.InAlphabet(key[k][0], len))
    && [Chr(len - 1)] in key
    && (expectedLength > 0 ==> |key| == expectedLength)
  }

  /** Entries that pass the checks form an accepted key. */
  lemma CheckedAccepted(parts: seq<string>, expectedLength: int, len: int)
    requires CheckEntries(parts, expectedLength) == Valid(parts, len)
    ensures Accepted(parts, len, expectedLength)
  {
    assert [] !in parts && Single(parts);
    DuplicatesNone(parts);
    var cs := Firsts(parts);
    assert len == MaxCode(cs) - 64;
    assert FirstOutside(cs, len).None?;
    MaxCodeBounds(cs);
    FirstOutsideFound(cs, len);
    forall k | 0 <= k < |parts| ensures CustomRotor.InAlphabet(parts[k][0], len) {
      assert cs[k] == parts[k][0];
    }
    var k :| 0 <= k < |cs| && cs[k] as int == MaxCode(cs);
    assert parts[k] == [cs[k]];
    assert cs[k] == Chr(len - 1);
  }

  /** An accepted key passes the checks. */
  lemma AcceptedChecked(parts: seq<string>, expectedLength: int, len: int)
    requires Accepted(parts, len, expectedLength)
    ensures CheckEntries(parts, expectedLength) == Valid(parts, len)
  {
    var t := IndexOf(parts, [Chr(len - 1)]);
    assert [] !in parts;
    assert !exists k | 0 <= k < |parts| :: |parts[k]| > 1;
    DuplicatesNone(parts);
    var cs := Firsts(parts);
    assert forall k :: 0 <= k < |parts| ==> cs[k] == parts[k][0];
    MaxCodeBounds(cs);
    assert cs[t] as int == 64 + len;
    var k :| 0 <= k < |cs| && cs[k] as int == MaxCode(cs);
    assert CustomRotor.InAlphabet(cs[k], len);
    assert MaxCode(cs) == 64 + len;
    FirstOutsideFound(cs, len);
  }

  /**
    `parseKeyString` accepts an input exactly when it is not blank and its
    entries, split at the commas, trimmed and upper-cased, form an accepted
    key; the key is those entries.
  */
  lemma ParseValid(input: string, expectedLength: int, key: seq<string>, len: int)
    ensures ParseKey(input, expectedLength) == Valid(key, len) <==>
      !AllSpace(input) && key == Entries(Split(input)) && Accepted(key, len, expectedLength)
  {
    TrimBlank(input);
    var parts := Entries(Split(input));
    if ParseKey(input, expectedLength) == Valid(key, len) {
      assert CheckEntries(parts, expectedLength) == Valid(key, len);
      assert key == parts;
      CheckedAccepted(parts, expectedLength, len);
    }
    if !AllSpace(input) && key == parts && Accepted(key, len, expectedLength) {
      AcceptedChecked(parts, expectedLength, len);
    }
  }

  /**
    When the expected length is the detected one, the accepted key passes
    `isKeyValid`: its entries are single letters, so joined they are the
    first characters of the entries.
  */
  lemma ParsedKeyIsValid(input: string, key: seq<string>, len: int)
    requires ParseKey(input, len) == Valid(key, len)
    ensures [] !in key && CustomRotor.IsKeyValid(Firsts(key), len)
  {
    ParseValid(input, len, key, len);
    var k := Firsts(key);
    assert forall i :: 0 <= i < |key| ==> key[i] == [k[i]];
    assert Distinct(k) by {
      forall i, j | 0 <= i < j < |k| ensures k[i] != k[j] {
        assert key[i] != key[j];
      }
    }
    CustomRotor.KeyValidIff(k, len);
  }

  /** The one-letter entries of a key string. */
  function Singletons(k: string): (r: seq<string>)
    ensures |r| == |k| && forall i :: 0 <= i < |k| ==> r[i] == [k[i]]
  {
    seq(|k|, i requires 0 <= i < |k| => [k[i]])
  }

  /** A key written the way `parseKeyString` expects it: its letters separated by commas. */
  function FormatKey(k: string): string
    requires |k| >= 1
  {
    Join(Singletons(k))
  }

  /** Each entry of a key is its own cleaned-up piece. */
  lemma {:induction false} EntriesOfLetters(k: string)
    requires AllUpper(k)
    ensures Entries(Singletons(k)) == Singletons(k)
    decreases |k|
  {
    if k != [] {
      assert Singletons(k) == [[k[0]]] + Singletons(k[1..]);
      assert Singletons(k)[1..] == Singletons(k[1..]);
      TrimKeeps([k[0]]);
      assert UpperAll([k[0]]) == [k[0]];
      EntriesOfLetters(k[1..]);
    }
  }

  /** The first character of a formatted key is its first letter, and the last its last. */
  lemma {:induction false} FormatEnds(k: string)
    requires |k| >= 1
    ensures |FormatKey(k)| >= 1
    ensures FormatKey(k)[0] == k[0] && FormatKey(k)[|FormatKey(k)| - 1] == k[|k| - 1]
    decreases |k|
  {
    if |k| > 1 {
      assert Singletons(k)[1..] == Singletons(k[1..]);
      FormatEnds(k[1..]);
    }
  }

  /** A formatted key is not blank, and its entries are its letters. */
  lemma FormatEntries(k: string)
    requires |k| >= 1 && AllUpper(k)
    ensures !AllSpace(FormatKey(k))
    ensures Entries(Split(FormatKey(k))) == Singletons(k)
  {
    var input := FormatKey(k);
    FormatEnds(k);
    assert !IsSpace(input[0]);
    SplitJoin(Singletons(k));
    EntriesOfLetters(k);
  }

  /**
    Round trip: every key that passes `isKeyValid`, written with commas, is
    accepted again with the same letters and its own alphabet length, with or
    without the expected length.
  */
  lemma ParseFormatted(k: string, len: int, expectedLength: int)
    requires 5 <= len <= 26 && CustomRotor.IsKeyValid(k, len)
    requires expectedLength <= 0 || expectedLength == len
    ensures ParseKey(FormatKey(k), expectedLength) == Valid(Singletons(k), len)
  {
    CustomRotor.KeyValidIff(k, len);
    CustomRotor.KeyValidCovers(k, len);
    var parts := Singletons(k);
    assert AllUpper(k);
    FormatEntries(k);
    assert Distinct(parts) by {
      forall i, j | 0 <= i < j < |parts| ensures parts[i] != parts[j] {
        assert k[i] != k[j];
      }
    }
    var top := Chr(len - 1);
    assert CustomRotor.InAlphabet(top, len);
    assert parts[IndexOf(k, top)] == [top];
    assert Accepted(parts, len, expectedLength);
    ParseValid(FormatKey(k), expectedLength, parts, len);
  }
}
