/**
  Playfair cipher: a 5×5 key square of 25 letters (J merged into I) built from
  a keyword, text split greedily into digraphs with X as filler, and the
  same-row / same-column / rectangle rules applied to each digraph.
  The square is a flat sequence of 25 letters; cell (row, col) is index
  `row * 5 + col`.
*/
module Playfair {
  import opened Results
  import opened Text
  import opened Modular

  // ---------------------------------------------------------------- letters

  /** J is merged into I everywhere. */
  function FoldJ(c: char): (r: char)
    ensures r != 'J'
    ensures IsUpper(c) ==> IsUpper(r)
  {
    if c == 'J' then 'I' else c
  }

  predicate IsSquareLetter(c: char) { IsUpper(c) && c != 'J' }

  /** The text with every J replaced by I (`.replace(/J/g, "I")`). */
  function FoldJText(s: string): (r: string)
    ensures |r| == |s|
    ensures AllUpper(s) ==> forall i :: 0 <= i < |r| ==> IsSquareLetter(r[i])
    ensures (forall i :: 0 <= i < |s| ==> s[i] != 'J') ==> r == s
  {
    seq(|s|, i requires 0 <= i < |s| => FoldJ(s[i]))
  }

  /** The text a Playfair run works on: `toAlpha`, then J folded to I. */
  function Prepared(text: string): string
  {
    FoldJText(ToAlpha(text))
  }

  /** The letters of index below `i` in alphabetical order, J skipped. */
  function LettersBelow(i: nat): (r: string)
    requires i <= 26
    ensures forall c :: c in r <==> IsSquareLetter(c) && Ord(c) < i
    ensures Distinct(r)
    ensures |r| == if i > 9 then i - 1 else i
  {
    if i == 0 then []
    else
      var r := LettersBelow(i - 1);
      ChrOrdInjective(i - 1);
      if Chr(i - 1) == 'J' then r else r + [Chr(i - 1)]
  }

  lemma ChrOrdInjective(k: int)
    requires 0 <= k < 26
    ensures Chr(k) == 'J' <==> k == 9
    ensures forall c :: IsUpper(c) && Ord(c) == k ==> c == Chr(k)
  {
  }

  // ---------------------------------------------------------------- the key square

  /** First occurrences only, in order: what `push` guarded by `seen` keeps of a stream. */
  function Dedupe(s: string): (r: string)
    ensures forall c :: c in r <==> c in s
    ensures Distinct(r)
  {
    if s == [] then []
    else
      var d := Dedupe(s[..|s| - 1]);
      assert s == s[..|s| - 1] + [s[|s| - 1]];
      if s[|s| - 1] in d then d else d + [s[|s| - 1]]
  }

  /** The letters of `b`, in order, that do not occur in `a`. */
  function Without(b: string, a: string): (r: string)
    ensures forall c :: c in r <==> c in b && c !in a
    ensures Distinct(b) ==> Distinct(r)
  {
    if b == [] then []
    else
      var w := Without(b[..|b| - 1], a);
      assert b == b[..|b| - 1] + [b[|b| - 1]];
      if b[|b| - 1] in a then w else w + [b[|b| - 1]]
  }


  /** Cells `i..` of `m` hold letters A..Z other than J that `indexOf` finds at their own cell. */
  predicate CellsFrom(m: string, i: nat)
    decreases |m| - i
  {
    i >= |m| || (IsSquareLetter(m[i]) && IndexOf(m, m[i]) == i && CellsFrom(m, i + 1))
  }

  /**
    A Playfair square: 25 cells, each holding a letter A..Z other than J that
    `indexOf` finds at that very cell, so that no letter occurs twice.
  */
  predicate ValidSquare(m: string)
  {
    |m| == 25 && CellsFrom(m, 0)
  }

  lemma {:induction false} CellsFromAt(m: string, i: nat, j: int)
    requires CellsFrom(m, i) && i <= j < |m|
    ensures IsSquareLetter(m[j]) && IndexOf(m, m[j]) == j
    decreases j - i
  {
    if i < j {
      CellsFromAt(m, i + 1, j);
    }
  }

  lemma {:induction false} CellsFromIntro(m: string, i: nat)
    requires i <= |m|
    requires forall j :: i <= j < |m| ==> IsSquareLetter(m[j]) && IndexOf(m, m[j]) == j
    ensures CellsFrom(m, i)
    decreases |m| - i
  {
    if i < |m| {
      CellsFromIntro(m, i + 1);
    }
  }

  /** Each cell of a valid square holds a square letter found by `indexOf` at that cell. */
  lemma SquareCell(m: string, j: int)
    requires ValidSquare(m) && 0 <= j < 25
    ensures IsSquareLetter(m[j]) && IndexOf(m, m[j]) == j
  {
    CellsFromAt(m, 0, j);
  }

  /** A valid square holds 25 different letters and no J. */
  lemma ValidSquareDistinct(m: string)
    requires ValidSquare(m)
    ensures Distinct(m) && 'J' !in m
  {
    forall i | 0 <= i < 25 ensures IsSquareLetter(m[i]) && IndexOf(m, m[i]) == i {
      SquareCell(m, i);
    }
  }

  /** Every letter A..Z other than J is in a valid square: 25 different letters leave none out. */
  lemma SquareHas(m: string, c: char)
    requires ValidSquare(m) && IsSquareLetter(c)
    ensures c in m
  {
    var l := LettersBelow(26);
    ValidSquareDistinct(m);
    DistinctCard(m);
    DistinctCard(l);
    var sm, sl := set x | x in m, set x | x in l;
    forall x | x in sm ensures x in sl {
      var i :| 0 <= i < 25 && m[i] == x;
      SquareCell(m, i);
    }
    assert |sl - sm| == |sl| - |sm| == 0;
    assert c in sl;
  }

  lemma DedupeSnoc(s: string, c: char)
    ensures Dedupe(s + [c]) == if c in Dedupe(s) then Dedupe(s) else Dedupe(s) + [c]
  {
    assert (s + [c])[..|s + [c]| - 1] == s;
  }

  lemma {:induction false} DedupeOfDistinct(s: string)
    requires Distinct(s)
    ensures Dedupe(s) == s
  {
    if s != [] {
      var p := s[..|s| - 1];
      DedupeOfDistinct(p);
      assert s == p + [s[|s| - 1]];
    }
  }

  /** Deduplicating a concatenation: the first part's letters, then the new letters of the second. */
  lemma {:induction false} DedupeAppend(a: string, b: string)
    ensures Dedupe(a + b) == Dedupe(a) + Dedupe(Without(b, a))
  {
    if b == [] {
      assert a + b == a;
    } else {
      var b', c := b[..|b| - 1], b[|b| - 1];
      var w' := Without(b', a);
      assert b == b' + [c];
      assert a + b == (a + b') + [c];
      DedupeAppend(a, b');
      DedupeSnoc(a + b', c);
      var d := Dedupe(a + b');
      assert d == Dedupe(a) + Dedupe(w');
      if c in a {
        assert Without(b, a) == w';
        assert c in d;
      } else {
        assert Without(b, a) == w' + [c];
        DedupeSnoc(w', c);
        assert c in d <==> c in Dedupe(w');
        if c !in d {
          AppendAssoc(Dedupe(a), Dedupe(w'), [c]);
        }
      }
    }
  }

  /** A sequence without repetitions has as many elements as its set of elements. */
  lemma {:induction false} DistinctCard(s: string)
    requires Distinct(s)
    ensures |(set c | c in s)| == |s|
  {
    if s != [] {
      var s' := s[..|s| - 1];
      var c := s[|s| - 1];
      assert s == s' + [c];
      DistinctCard(s');
      assert c !in s';
      assert (set x | x in s) == (set x | x in s') + {c};
    }
  }

  /** Two sequences without repetitions over the same letters have the same length. */
  lemma DistinctSameLength(s: string, t: string)
    requires Distinct(s) && Distinct(t)
    requires forall c :: c in s <==> c in t
    ensures |s| == |t|
  {
    DistinctCard(s);
    DistinctCard(t);
    assert (set c | c in s) == (set c | c in t);
  }

  /** Deduplicating square letters followed by the alphabet without J gives a valid square. */
  lemma SquareShape(k: string)
    requires forall i :: 0 <= i < |k| ==> IsSquareLetter(k[i])
    ensures ValidSquare(Dedupe(k + LettersBelow(26)))
    ensures Dedupe(k + LettersBelow(26)) == Dedupe(k) + Without(LettersBelow(26), k)
  {
    var l := LettersBelow(26);
    var m := Dedupe(k + l);
    DedupeAppend(k, l);
    DedupeOfDistinct(Without(l, k));
    forall c ensures c in m <==> IsSquareLetter(c) {
      if c in k {
        var i :| 0 <= i < |k| && k[i] == c;
        assert IsSquareLetter(k[i]);
        assert 0 <= Ord(c) < 26;
      } else if IsSquareLetter(c) {
        assert c in l;
      }
    }
    forall c ensures c in m <==> c in l {
    }
    DistinctSameLength(m, l);
    forall i | 0 <= i < |m| ensures IsSquareLetter(m[i]) && IndexOf(m, m[i]) == i {
      assert m[i] in m;
      IndexOfDistinct(m, i);
    }
    CellsFromIntro(m, 0);
  }

  /**
    The key square of a keyword: its letters (J folded to I) then the alphabet without J,
    deduplicated. It is a valid square laid out as the keyword's distinct letters in
    first-occurrence order followed by the remaining letters in alphabetical order.
  */
  function Square(keyword: string): (m: string)
    ensures ValidSquare(m) && Distinct(m) && 'J' !in m
    ensures var k := FoldJText(ToAlpha(keyword));
      m == Dedupe(k) + Without(LettersBelow(26), k)
  {
    var k := FoldJText(ToAlpha(keyword));
    SquareShape(k);
    ValidSquareDistinct(Dedupe(k + LettersBelow(26)));
    Dedupe(k + LettersBelow(26))
  }

  /** `buildPlayfairMatrix`: deduplicate the keyword's letters, then the rest of A..Z without J. */
  method BuildPlayfairMatrix(keyword: string) returns (chars: string)
    ensures chars == Square(keyword)
    ensures ValidSquare(chars)
  {
    var key := ToAlpha(keyword);
    var seen: set<char> := {};
    chars := [];
    for k := 0 to |key|
      invariant chars == Dedupe(FoldJText(key[..k]))
      invariant forall c :: c in seen <==> c in chars
    {
      var c := FoldJ(key[k]);
      KeySnoc(key, k);
      if c !in seen {
        seen := seen + {c};
        chars := chars + [c];
      }
    }
    assert key[..|key|] == key;
    var keyPart := FoldJText(key);
    assert keyPart + LettersBelow(0) == keyPart;
    for i := 0 to 26
      invariant chars == Dedupe(keyPart + LettersBelow(i))
      invariant forall c :: c in seen <==> c in chars
    {
      var ch := Chr(i);
      if ch == 'J' {
        continue;
      }
      AlphabetSnoc(keyPart, i);
      if ch !in seen {
        seen := seen + {ch};
        chars := chars + [ch];
      }
    }
  }

  /** One more keyword letter: `Dedupe` gains it unless it was already there. */
  lemma KeySnoc(key: string, k: int)
    requires 0 <= k < |key|
    ensures var d, c := Dedupe(FoldJText(key[..k])), FoldJ(key[k]);
      Dedupe(FoldJText(key[..k + 1])) == if c in d then d else d + [c]
  {
    assert FoldJText(key[..k + 1]) == FoldJText(key[..k]) + [FoldJ(key[k])];
    DedupeSnoc(FoldJText(key[..k]), FoldJ(key[k]));
  }

  /** One more letter of the alphabet other than J: `Dedupe` gains it unless it was already there. */
  lemma AlphabetSnoc(keyPart: string, i: int)
    requires 0 <= i < 26 && i != 9
    ensures var d, c := Dedupe(keyPart + LettersBelow(i)), Chr(i);
      Dedupe(keyPart + LettersBelow(i + 1)) == if c in d then d else d + [c]
  {
    ChrOrdInjective(i);
    assert keyPart + LettersBelow(i + 1) == (keyPart + LettersBelow(i)) + [Chr(i)];
    DedupeSnoc(keyPart + LettersBelow(i), Chr(i));
  }


  // ---------------------------------------------------------------- positions

  predicate InSquare(row: int, col: int) { 0 <= row < 5 && 0 <= col < 5 }

  /** `matrixPos`: row and column of the first cell holding the letter (J looked up as I). */
  function MatrixPos(matrix: string, ch: char): (r: Result<(int, int)>)
    ensures r.Err? <==> FoldJ(ch) !in matrix
    ensures r.Err? ==> r.error == NotInMatrix(ch)
    ensures r.Ok? ==> var (row, col) := r.value;
      0 <= row && 0 <= col < 5 && row * 5 + col < |matrix| && matrix[row * 5 + col] == FoldJ(ch)
    ensures r.Ok? && |matrix| <= 25 ==> InSquare(r.value.0, r.value.1)
  {
    var idx := IndexOf(matrix, FoldJ(ch));
    if idx == -1 then Err(NotInMatrix(ch)) else Ok((idx / 5, idx % 5))
  }

  /** `matrixPos` never fails on a letter A..Z when the square is valid. */
  lemma MatrixPosInSquare(m: string, ch: char)
    requires ValidSquare(m) && IsUpper(ch)
    ensures MatrixPos(m, ch).Ok?
  {
    SquareHas(m, FoldJ(ch));
  }

  /** The cell of a letter as `matrixPos` finds it, and (0, 0) for a letter it does not find. */
  function Locate(m: string, ch: char): (p: (int, int))
    requires |m| == 25
    ensures InSquare(p.0, p.1)
    ensures FoldJ(ch) in m ==> m[p.0 * 5 + p.1] == FoldJ(ch)
  {
    var k := IndexOf(m, FoldJ(ch));
    if k < 0 then (0, 0) else (k / 5, k % 5)
  }

  /** Where `matrixPos` succeeds it returns the cell `Locate` names. */
  lemma MatrixPosLocate(m: string, ch: char)
    requires |m| == 25 && FoldJ(ch) in m
    ensures MatrixPos(m, ch) == Ok(Locate(m, ch))
  {
  }

  /** In a valid square the letter of cell (row, col) is found at (row, col). */
  lemma LocateAt(m: string, row: int, col: int)
    requires ValidSquare(m) && InSquare(row, col)
    ensures IsSquareLetter(m[row * 5 + col])
    ensures Locate(m, m[row * 5 + col]) == (row, col)
  {
    var k := row * 5 + col;
    SquareCell(m, k);
    ModUnique(k, 5, row, col);
  }

  // ---------------------------------------------------------------- digraphs

  /** The greedy scan of `prepareDigraphs`: a doubled letter or a last lone letter is paired with X. */
  function Digraphs(s: string): (ds: seq<string>)
    ensures forall i :: 0 <= i < |ds| ==> |ds[i]| == 2
    ensures forall i :: 0 <= i < |ds| ==> ds[i][0] == ds[i][1] ==> ds[i] == "XX"
    ensures (forall i :: 0 <= i < |s| ==> IsSquareLetter(s[i])) ==>
      forall i :: 0 <= i < |ds| ==> IsSquareLetter(ds[i][0]) && IsSquareLetter(ds[i][1])
    decreases |s|
  {
    if s == [] then []
    else if |s| == 1 then [[s[0], 'X']]
    else if s[0] == s[1] then [[s[0], 'X']] + Digraphs(s[1..])
    else [[s[0], s[1]]] + Digraphs(s[2..])
  }

  /** `prepareDigraphs(text)`: the while loop with a manual index over the prepared text. */
  method PrepareDigraphs(text: string) returns (digraphs: seq<string>)
    ensures digraphs == Digraphs(Prepared(text))
  {
    var clean := Prepared(text);
    digraphs := [];
    var i := 0;
    while i < |clean|
      invariant 0 <= i <= |clean|
      invariant digraphs + Digraphs(clean[i..]) == Digraphs(clean)
      decreases |clean| - i
    {
      var a := clean[i];
      var b: char;
      if i + 1 >= |clean| {
        b := 'X';
        i := i + 1;
      } else if a == clean[i + 1] {
        b := 'X';
        assert clean[i..][1..] == clean[i + 1..];
        i := i + 1;
      } else {
        b := clean[i + 1];
        assert clean[i..][2..] == clean[i + 2..];
        i := i + 2;
      }
      digraphs := digraphs + [[a, b]];
    }
    assert clean[i..] == [];
  }

  /** The digraphs of "HELLO": the doubled L is split with a filler X. */
  lemma DigraphsHello()
    ensures Digraphs("HELLO") == ["HE", "LX", "LO"]
  {
    assert "HELLO"[2..] == "LLO";
    assert "LLO"[1..] == "LO";
    assert "LO"[2..] == "";
  }

  /** The concatenation of a list of strings. */
  function Flatten(ps: seq<string>): (s: string)
    ensures (forall i :: 0 <= i < |ps| ==> |ps[i]| == 2) ==> |s| == 2 * |ps|
  {
    if ps == [] then [] else ps[0] + Flatten(ps[1..])
  }

  lemma {:induction false} FlattenSnoc(ps: seq<string>, p: string)
    ensures Flatten(ps + [p]) == Flatten(ps) + p
  {
    if ps == [] {
      assert [] + [p] == [p];
    } else {
      assert (ps + [p])[1..] == ps[1..] + [p];
      FlattenSnoc(ps[1..], p);
    }
  }

  /** Every element is a pair of two different characters. */
  predicate DistinctPairs(ps: seq<string>)
  {
    forall i :: 0 <= i < |ps| ==> |ps[i]| == 2 && ps[i][0] != ps[i][1]
  }

  /** Text made of pairs of two different letters is split back into exactly those pairs. */
  lemma {:induction false} DigraphsOfFlatten(ps: seq<string>)
    requires DistinctPairs(ps)
    ensures Digraphs(Flatten(ps)) == ps
  {
    if ps != [] {
      var s := Flatten(ps);
      DigraphsOfFlatten(ps[1..]);
      assert s == ps[0] + Flatten(ps[1..]);
      assert s[2..] == Flatten(ps[1..]);
      assert [s[0], s[1]] == ps[0];
    }
  }

  /** Text split into pairs without any filler: even length and no pair of equal letters. */
  predicate PairsCleanly(s: string)
    decreases |s|
  {
    s == [] || (|s| >= 2 && s[0] != s[1] && PairsCleanly(s[2..]))
  }

  lemma {:induction false} FlattenDigraphsLength(s: string)
    ensures |Flatten(Digraphs(s))| >= |s|
    decreases |s|
  {
    if |s| >= 2 {
      if s[0] == s[1] {
        FlattenDigraphsLength(s[1..]);
      } else {
        FlattenDigraphsLength(s[2..]);
      }
    }
  }

  /** The digraphs spell the text exactly when no filler X had to be inserted. */
  lemma {:induction false} DigraphsExact(s: string)
    ensures Flatten(Digraphs(s)) == s <==> PairsCleanly(s)
    decreases |s|
  {
    if |s| == 1 {
      assert |Flatten(Digraphs(s))| == 2;
    } else if |s| >= 2 {
      if s[0] == s[1] {
        FlattenDigraphsLength(s[1..]);
        assert |Flatten(Digraphs(s))| == 2 + |Flatten(Digraphs(s[1..]))|;
      } else {
        DigraphsExact(s[2..]);
        var f := Flatten(Digraphs(s));
        assert f == [s[0], s[1]] + Flatten(Digraphs(s[2..]));
        if f == s {
          assert f[2..] == s[2..];
        }
      }
    }
  }

  // ---------------------------------------------------------------- the rules

  /** Which rule fired for a digraph, with its coordinates. */
  datatype Rule =
    | SameRow(row: int)
    | SameColumn(col: int)
    | Rectangle(r1: int, c1: int, r2: int, c2: int)

  function Direction(mode: Mode): (dir: int)
    ensures dir == 1 || dir == -1
  {
    if mode == Encrypt then 1 else -1
  }

  /**
    The cells the two output letters come from, given the cells of the two input
    letters: same row shifts the columns by `dir`, same column shifts the rows, and
    otherwise the columns are swapped. A shift is `posMod(c + dir, 5)`, the
    Euclidean remainder.
  */
  function Target(r1: int, c1: int, r2: int, c2: int, dir: int): (t: (int, int, int, int))
    requires InSquare(r1, c1) && InSquare(r2, c2)
    ensures InSquare(t.0, t.1) && InSquare(t.2, t.3)
  {
    if r1 == r2 then (r1, (c1 + dir) % 5, r2, (c2 + dir) % 5)
    else if c1 == c2 then ((r1 + dir) % 5, c1, (r2 + dir) % 5, c2)
    else (r1, c2, r2, c1)
  }

  function RuleOf(r1: int, c1: int, r2: int, c2: int): Rule
  {
    if r1 == r2 then SameRow(r1)
    else if c1 == c2 then SameColumn(c1)
    else Rectangle(r1, c1, r2, c2)
  }

  lemma ShiftBack(c: int, dir: int)
    requires 0 <= c < 5 && (dir == 1 || dir == -1)
    ensures ((c + dir) % 5 + -dir) % 5 == c
  {
    if c + dir == 5 {
      ModUnique(5, 5, 1, 0);
      ModUnique(-1, 5, -1, 4);
    } else if c + dir == -1 {
      ModUnique(-1, 5, -1, 4);
      ModUnique(5, 5, 1, 0);
    } else {
      ModUnique(c + dir, 5, 0, c + dir);
      ModUnique(c, 5, 0, c);
    }
  }

  /** Shifting by one keeps distinct coordinates distinct. */
  lemma ShiftInjective(x: int, y: int, dir: int)
    requires 0 <= x < 5 && 0 <= y < 5 && x != y && (dir == 1 || dir == -1)
    ensures (x + dir) % 5 != (y + dir) % 5
  {
    var px, py := (x + dir) % 5, (y + dir) % 5;
    assert x + dir == ((x + dir) / 5) * 5 + px;
    assert y + dir == ((y + dir) / 5) * 5 + py;
  }

  /**
    Each rule is undone by the same rule in the opposite direction, and two
    different cells are sent to two different cells.
  */
  lemma TargetInverse(r1: int, c1: int, r2: int, c2: int, dir: int)
    requires InSquare(r1, c1) && InSquare(r2, c2) && (dir == 1 || dir == -1)
    ensures var t := Target(r1, c1, r2, c2, dir);
      Target(t.0, t.1, t.2, t.3, -dir) == (r1, c1, r2, c2)
    ensures var t := Target(r1, c1, r2, c2, dir);
      (r1, c1) != (r2, c2) ==> (t.0, t.1) != (t.2, t.3)
  {
    var t := Target(r1, c1, r2, c2, dir);
    if r1 == r2 {
      ShiftBack(c1, dir);
      ShiftBack(c2, dir);
      assert t == (r1, (c1 + dir) % 5, r1, (c2 + dir) % 5);
      if c1 != c2 {
        ShiftInjective(c1, c2, dir);
      }
    } else if c1 == c2 {
      ShiftBack(r1, dir);
      ShiftBack(r2, dir);
      ShiftInjective(r1, r2, dir);
      assert t == ((r1 + dir) % 5, c1, (r2 + dir) % 5, c1);
    } else {
      assert t == (r1, c2, r2, c1);
    }
  }

  /** The output digraph and the rule for the letters `a`, `b` of a digraph. */
  function Encipher(m: string, a: char, b: char, mode: Mode): (r: (string, Rule))
    requires |m| == 25
    ensures |r.0| == 2
  {
    var (r1, c1) := Locate(m, a);
    var (r2, c2) := Locate(m, b);
    var t := Target(r1, c1, r2, c2, Direction(mode));
    ([m[t.0 * 5 + t.1], m[t.2 * 5 + t.3]], RuleOf(r1, c1, r2, c2))
  }

  /** With a valid square the output letters are letters of the square. */
  lemma EncipherLetters(m: string, a: char, b: char, mode: Mode)
    requires ValidSquare(m)
    ensures IsSquareLetter(Encipher(m, a, b, mode).0[0]) && IsSquareLetter(Encipher(m, a, b, mode).0[1])
  {
    var (r1, c1) := Locate(m, a);
    var (r2, c2) := Locate(m, b);
    var t := Target(r1, c1, r2, c2, Direction(mode));
    SquareCell(m, t.0 * 5 + t.1);
    SquareCell(m, t.2 * 5 + t.3);
  }

  function Opposite(mode: Mode): Mode
  {
    if mode == Encrypt then Decrypt else Encrypt
  }

  /** Letters read off two cells of a valid square are located at those cells. */
  lemma CellsLocate(m: string, x: char, y: char, s1: int, u1: int, s2: int, u2: int)
    requires ValidSquare(m) && InSquare(s1, u1) && InSquare(s2, u2)
    requires x == m[s1 * 5 + u1] && y == m[s2 * 5 + u2]
    ensures IsSquareLetter(x) && IsSquareLetter(y)
    ensures Locate(m, x) == (s1, u1) && Locate(m, y) == (s2, u2)
  {
    LocateAt(m, s1, u1);
    LocateAt(m, s2, u2);
  }

  lemma EncipherGivenCells(m: string, x: char, y: char, mode: Mode, r1: int, c1: int, r2: int, c2: int)
    requires |m| == 25 && InSquare(r1, c1) && InSquare(r2, c2)
    requires Target(Locate(m, x).0, Locate(m, x).1, Locate(m, y).0, Locate(m, y).1, Direction(mode)) == (r1, c1, r2, c2)
    ensures Encipher(m, x, y, mode).0 == [m[r1 * 5 + c1], m[r2 * 5 + c2]]
  {
  }

  /**
    Enciphering a digraph of square letters and then deciphering it (or the other
    way round) gives it back.
  */
  lemma EncipherInverse(m: string, a: char, b: char, mode: Mode)
    requires ValidSquare(m) && IsSquareLetter(a) && IsSquareLetter(b)
    ensures var p := Encipher(m, a, b, mode).0;
      Encipher(m, p[0], p[1], Opposite(mode)).0 == [a, b]
  {
    var la, lb := Locate(m, a), Locate(m, b);
    SquareHas(m, a);
    SquareHas(m, b);
    var dir := Direction(mode);
    var t := Target(la.0, la.1, lb.0, lb.1, dir);
    var p := Encipher(m, a, b, mode).0;
    var x, y := m[t.0 * 5 + t.1], m[t.2 * 5 + t.3];
    assert p == [x, y];
    CellsLocate(m, x, y, t.0, t.1, t.2, t.3);
    TargetInverse(la.0, la.1, lb.0, lb.1, dir);
    assert Direction(Opposite(mode)) == -dir;
    EncipherGivenCells(m, x, y, Opposite(mode), la.0, la.1, lb.0, lb.1);
    assert m[la.0 * 5 + la.1] == a && m[lb.0 * 5 + lb.1] == b;
  }

  /** Two different letters are enciphered to two different letters. */
  lemma EncipherDistinct(m: string, a: char, b: char, mode: Mode)
    requires ValidSquare(m) && IsSquareLetter(a) && IsSquareLetter(b) && a != b
    ensures Encipher(m, a, b, mode).0[0] != Encipher(m, a, b, mode).0[1]
  {
    var la, lb := Locate(m, a), Locate(m, b);
    SquareHas(m, a);
    SquareHas(m, b);
    var t := Target(la.0, la.1, lb.0, lb.1, Direction(mode));
    TargetInverse(la.0, la.1, lb.0, lb.1, Direction(mode));
    assert la != lb;
    var i, j := t.0 * 5 + t.1, t.2 * 5 + t.3;
    assert i != j;
    SquareCell(m, i);
    SquareCell(m, j);
  }

  // ---------------------------------------------------------------- the cipher

  /** Every element is a two-letter string. */
  predicate Pairs(ds: seq<string>)
  {
    forall i :: 0 <= i < |ds| ==> |ds[i]| == 2
  }

  /** Digraphs of two square letters each, as `prepareDigraphs` yields them. */
  predicate WellFormed(ds: seq<string>)
  {
    forall i :: 0 <= i < |ds| ==> |ds[i]| == 2 && IsSquareLetter(ds[i][0]) && IsSquareLetter(ds[i][1])
  }

  /** The output digraph of each input digraph. */
  function EncipherAll(m: string, ds: seq<string>, mode: Mode): (os: seq<string>)
    requires |m| == 25 && Pairs(ds)
    ensures |os| == |ds| && Pairs(os)
    ensures forall i :: 0 <= i < |ds| ==> os[i] == Encipher(m, ds[i][0], ds[i][1], mode).0
  {
    if ds == [] then []
    else
      var last := ds[|ds| - 1];
      EncipherAll(m, ds[..|ds| - 1], mode) + [Encipher(m, last[0], last[1], mode).0]
  }

  /** With a valid square the output digraphs are made of square letters. */
  lemma EncipherAllLetters(m: string, ds: seq<string>, mode: Mode)
    requires ValidSquare(m) && Pairs(ds)
    ensures WellFormed(EncipherAll(m, ds, mode))
  {
    var os := EncipherAll(m, ds, mode);
    forall i | 0 <= i < |os| ensures IsSquareLetter(os[i][0]) && IsSquareLetter(os[i][1]) {
      EncipherLetters(m, ds[i][0], ds[i][1], mode);
    }
  }

  /** The Playfair output for a text: the output digraphs of its digraphs under the keyword's square. */
  function PlayfairText(text: string, keyword: string, mode: Mode): (r: string)
    ensures |r| == 2 * |Digraphs(Prepared(text))|
  {
    Flatten(EncipherAll(Square(keyword), Digraphs(Prepared(text)), mode))
  }

  /** One trace record: 1-based digraph number, input digraph, output digraph, rule. */
  datatype Step = Step(i: nat, pair: string, output: string, rule: Rule)

  /** The trace of a Playfair run: one record per digraph. */
  function Trace(m: string, ds: seq<string>, mode: Mode): (ts: seq<Step>)
    requires |m| == 25 && Pairs(ds)
    ensures |ts| == |ds|
    ensures forall i :: 0 <= i < |ds| ==>
      var e := Encipher(m, ds[i][0], ds[i][1], mode);
      ts[i] == Step(i + 1, ds[i], e.0, e.1)
  {
    if ds == [] then []
    else
      var last := ds[|ds| - 1];
      var e := Encipher(m, last[0], last[1], mode);
      Trace(m, ds[..|ds| - 1], mode) + [Step(|ds|, last, e.0, e.1)]
  }

  /** The three rules as `playfair` writes them, on the cells `(r1, c1)` and `(r2, c2)`. */
  method ApplyRule(matrix: string, r1: int, c1: int, r2: int, c2: int, dir: int) returns (outPair: string, rule: Rule)
    requires |matrix| == 25 && InSquare(r1, c1) && InSquare(r2, c2) && (dir == 1 || dir == -1)
    ensures var t := Target(r1, c1, r2, c2, dir);
      outPair == [matrix[t.0 * 5 + t.1], matrix[t.2 * 5 + t.3]]
    ensures rule == RuleOf(r1, c1, r2, c2)
  {
    if r1 == r2 {
      outPair := [matrix[r1 * 5 + PosMod(c1 + dir, 5)], matrix[r2 * 5 + PosMod(c2 + dir, 5)]];
      rule := SameRow(r1);
    } else if c1 == c2 {
      outPair := [matrix[PosMod(r1 + dir, 5) * 5 + c1], matrix[PosMod(r2 + dir, 5) * 5 + c2]];
      rule := SameColumn(c1);
    } else {
      outPair := [matrix[r1 * 5 + c2], matrix[r2 * 5 + c1]];
      rule := Rectangle(r1, c1, r2, c2);
    }
  }

  /** The body of the digraph loop of `playfair`: `matrixPos` of both letters, then the rule. */
  method EncipherPair(matrix: string, pair: string, mode: Mode) returns (outPair: string, rule: Rule)
    requires ValidSquare(matrix) && |pair| == 2 && IsUpper(pair[0]) && IsUpper(pair[1])
    ensures (outPair, rule) == Encipher(matrix, pair[0], pair[1], mode)
  {
    var dir := Direction(mode);
    MatrixPosInSquare(matrix, pair[0]);
    MatrixPosInSquare(matrix, pair[1]);
    var p1 := MatrixPos(matrix, pair[0]);
    var p2 := MatrixPos(matrix, pair[1]);
    var (r1, c1) := p1.value;
    var (r2, c2) := p2.value;
    MatrixPosLocate(matrix, pair[0]);
    MatrixPosLocate(matrix, pair[1]);
    outPair, rule := ApplyRule(matrix, r1, c1, r2, c2, dir);
  }

  /** Extending the digraphs by one appends that digraph's output to the text and its record to the trace. */
  lemma PrefixStep(m: string, ds: seq<string>, i: int, mode: Mode, outPair: string, rule: Rule)
    requires |m| == 25 && Pairs(ds) && 0 <= i < |ds|
    requires (outPair, rule) == Encipher(m, ds[i][0], ds[i][1], mode)
    ensures Flatten(EncipherAll(m, ds[..i + 1], mode)) == Flatten(EncipherAll(m, ds[..i], mode)) + outPair
    ensures Trace(m, ds[..i + 1], mode) == Trace(m, ds[..i], mode) + [Step(i + 1, ds[i], outPair, rule)]
  {
    var pre := ds[..i + 1];
    assert pre[..i] == ds[..i] && pre[i] == ds[i];
    FlattenSnoc(EncipherAll(m, ds[..i], mode), outPair);
  }

  /** The digraph loop of `playfair`: every output digraph appended to the text, one record per digraph. */
  method EncipherDigraphs(matrix: string, digraphs: seq<string>, mode: Mode) returns (result: string, steps: seq<Step>)
    requires ValidSquare(matrix) && WellFormed(digraphs)
    ensures result == Flatten(EncipherAll(matrix, digraphs, mode))
    ensures steps == Trace(matrix, digraphs, mode)
  {
    result, steps := "", [];
    for i := 0 to |digraphs|
      invariant result == Flatten(EncipherAll(matrix, digraphs[..i], mode))
      invariant steps == Trace(matrix, digraphs[..i], mode)
    {
      var pair := digraphs[i];
      var outPair, rule := EncipherPair(matrix, pair, mode);
      PrefixStep(matrix, digraphs, i, mode, outPair, rule);
      result := result + outPair;
      steps := steps + [Step(i + 1, pair, outPair, rule)];
    }
    assert digraphs[..|digraphs|] == digraphs;
  }

  /**
    `playfair(text, keyword, mode)`: fails when the keyword has no letters; otherwise
    enciphers every digraph of the text with the keyword's square.
  */
  method Playfair(text: string, keyword: string, mode: Mode) returns (r: Result<(string, seq<Step>)>)
    ensures r.Err? <==> ToAlpha(keyword) == []
    ensures r.Err? ==> r.error == EmptyKeyword
    ensures r.Ok? ==> r.value.0 == PlayfairText(text, keyword, mode)
    ensures r.Ok? ==> r.value.1 == Trace(Square(keyword), Digraphs(Prepared(text)), mode)
  {
    if ToAlpha(keyword) == [] {
      return Err(EmptyKeyword);
    }
    var matrix := BuildPlayfairMatrix(keyword);
    var digraphs := PrepareDigraphs(text);
    var result, steps := EncipherDigraphs(matrix, digraphs, mode);
    return Ok((result, steps));
  }

  // ---------------------------------------------------------------- round trip

  /** Cipher text is already prepared: upper-case letters without J. */
  lemma PreparedOfCipher(ps: seq<string>)
    requires WellFormed(ps)
    ensures Prepared(Flatten(ps)) == Flatten(ps)
  {
    var s := Flatten(ps);
    FlattenSquareLetters(ps);
    ToAlphaOfUpper(s);
  }

  lemma {:induction false} FlattenSquareLetters(ps: seq<string>)
    requires WellFormed(ps)
    ensures forall i :: 0 <= i < |Flatten(ps)| ==> IsSquareLetter(Flatten(ps)[i])
  {
    if ps != [] {
      FlattenSquareLetters(ps[1..]);
      var s := Flatten(ps);
      forall i | 0 <= i < |s| ensures IsSquareLetter(s[i]) {
        if i >= 2 {
          assert s[i] == Flatten(ps[1..])[i - 2];
        }
      }
    }
  }

  /** Deciphering every enciphered digraph gives the digraphs back. */
  lemma EncipherAllInverse(m: string, ds: seq<string>, mode: Mode)
    requires ValidSquare(m) && WellFormed(ds)
    ensures EncipherAll(m, EncipherAll(m, ds, mode), Opposite(mode)) == ds
  {
    var es := EncipherAll(m, ds, mode);
    var back := EncipherAll(m, es, Opposite(mode));
    forall i | 0 <= i < |ds| ensures back[i] == ds[i] {
      EncipherInverse(m, ds[i][0], ds[i][1], mode);
      assert ds[i] == [ds[i][0], ds[i][1]];
    }
  }

  /** Digraphs of two different letters are enciphered to digraphs of two different letters. */
  lemma EncipherAllDistinct(m: string, ds: seq<string>, mode: Mode)
    requires ValidSquare(m) && WellFormed(ds)
    requires DistinctPairs(ds)
    ensures DistinctPairs(EncipherAll(m, ds, mode))
  {
    var es := EncipherAll(m, ds, mode);
    forall i | 0 <= i < |ds| ensures es[i][0] != es[i][1] {
      EncipherDistinct(m, ds[i][0], ds[i][1], mode);
    }
  }

  /** Cipher digraphs, read back as text, are split into the same digraphs and deciphered to the input. */
  lemma CipherRoundTrip(m: string, ds: seq<string>)
    requires ValidSquare(m) && WellFormed(ds) && DistinctPairs(ds)
    ensures EncipherAll(m, Digraphs(Prepared(Flatten(EncipherAll(m, ds, Encrypt)))), Decrypt) == ds
  {
    var es := EncipherAll(m, ds, Encrypt);
    EncipherAllLetters(m, ds, Encrypt);
    EncipherAllDistinct(m, ds, Encrypt);
    PreparedOfCipher(es);
    DigraphsOfFlatten(es);
    EncipherAllInverse(m, ds, Encrypt);
  }

  /**
    When no digraph is "XX", decrypting the encryption with the same keyword gives
    back the digraphs of the prepared text, concatenated; the filler X's stay.
  */
  lemma RoundTrip(text: string, keyword: string)
    requires forall d :: d in Digraphs(Prepared(text)) ==> d != "XX"
    ensures PlayfairText(PlayfairText(text, keyword, Encrypt), keyword, Decrypt)
         == Flatten(Digraphs(Prepared(text)))
  {
    var ds := Digraphs(Prepared(text));
    forall i | 0 <= i < |ds| ensures |ds[i]| == 2 && ds[i][0] != ds[i][1] {
      assert ds[i] in ds;
    }
    CipherRoundTrip(Square(keyword), ds);
  }
}
