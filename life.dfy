/**
  Conway's Game of Life on a toroidal grid of `height` rows of `width`
  cells, stepped by the B3/S23 rule, and the Braille character that shows a
  2 x 4 block of cells on the terminal.
*/
module Life {
  import opened Modular

  // ---------------------------------------------------------------- generations, as values

  /** `height` rows of `width` cells each. */
  predicate Rect(cells: seq<seq<bool>>, width: int, height: int)
  {
    |cells| == height && forall y :: 0 <= y < height ==> |cells[y]| == width
  }

  /** No cell is alive. */
  predicate AllDead(cells: seq<seq<bool>>)
  {
    forall y, x :: 0 <= y < |cells| && 0 <= x < |cells[y]| ==> !cells[y][x]
  }

  /** Every cell is alive. */
  predicate AllAlive(cells: seq<seq<bool>>)
  {
    forall y, x :: 0 <= y < |cells| && 0 <= x < |cells[y]| ==> cells[y][x]
  }

  /** A row of `width` dead cells, `make([]bool, width)`. */
  function DeadRow(width: nat): (r: seq<bool>)
    ensures |r| == width && forall x :: 0 <= x < width ==> !r[x]
  {
    seq(width, x => false)
  }

  /**
    A cell at (x, y) has all its neighbours' coordinates, wrapped, on the grid:
    the wrap `(x + dx + width) % width` with Go's truncating `%` stays
    non-negative for dx = -1.
  */
  predicate Countable(cells: seq<seq<bool>>, width: int, height: int, x: int, y: int)
  {
    Rect(cells, width, height) && width >= 1 && height >= 1 && x >= 1 - width && y >= 1 - height
  }

  /**
    The wrapped coordinate `(v + d + n) % n`, by repeated subtraction. The
    dividend is never negative here, so Go's truncating `%` and Dafny's
    Euclidean one agree on it.
  */
  function Wrap(v: int, d: int, n: int): (r: int)
    requires n >= 1 && v + d + n >= 0
    ensures 0 <= r < n
    decreases v + d + n
  {
    if v + d + n < n then v + d + n else Wrap(v - n, d, n)
  }

  /** The wrap is the remainder of `v + d + n` by `n`. */
  lemma {:induction false} WrapIsRem(v: int, d: int, n: int)
    requires n >= 1 && v + d + n >= 0
    ensures Wrap(v, d, n) == (v + d + n) % n
    decreases v + d + n
  {
    if v + d + n >= n {
      WrapIsRem(v - n, d, n);
      ModShift(v + d, 1, n);
    }
  }

  /** The wrap is Go's `(v + d + n) % n`. */
  lemma WrapIsGo(v: int, d: int, n: int)
    requires n >= 1 && v + d + n >= 0
    ensures Wrap(v, d, n) == JsRem(v + d + n, n)
  {
    WrapIsRem(v, d, n);
  }

  /** On the grid, the wrap is the coordinate moved by d, modulo n. */
  lemma WrapIsMod(v: int, d: int, n: int)
    requires n >= 1 && 0 <= v < n && -1 <= d <= 1
    ensures Wrap(v, d, n) == (v + d) % n
  {
    WrapIsRem(v, d, n);
    ModShift(v + d, 1, n);
  }

  /** 1 when the neighbour at offset (dx, dy) is alive; the cell itself does not count. */
  function Live(cells: seq<seq<bool>>, width: int, height: int, x: int, y: int, dx: int, dy: int): nat
    requires Countable(cells, width, height, x, y) && -1 <= dx <= 1 && -1 <= dy <= 1
  {
    if dx == 0 && dy == 0 then 0
    else if cells[Wrap(y, dy, height)][Wrap(x, dx, width)] then 1
    else 0
  }

  /** The live neighbours at offsets (-1, dy) .. (dx, dy). */
  function RowSum(cells: seq<seq<bool>>, width: int, height: int, x: int, y: int, dy: int, dx: int): nat
    requires Countable(cells, width, height, x, y) && -1 <= dy <= 1 && -2 <= dx <= 1
    decreases dx + 2
  {
    if dx == -2 then 0
    else RowSum(cells, width, height, x, y, dy, dx - 1) + Live(cells, width, height, x, y, dx, dy)
  }

  /** The live neighbours in the rows -1 .. dy of the 3 x 3 block around (x, y). */
  function BlockSum(cells: seq<seq<bool>>, width: int, height: int, x: int, y: int, dy: int): nat
    requires Countable(cells, width, height, x, y) && -2 <= dy <= 1
    decreases dy + 2
  {
    if dy == -2 then 0
    else BlockSum(cells, width, height, x, y, dy - 1) + RowSum(cells, width, height, x, y, dy, 1)
  }

  /** The number of live cells among the eight wrapped neighbours of (x, y). */
  function Neighbours(cells: seq<seq<bool>>, width: int, height: int, x: int, y: int): nat
    requires Countable(cells, width, height, x, y)
  {
    BlockSum(cells, width, height, x, y, 1)
  }

  /** A row has at most three live neighbours, two in the middle row. */
  lemma {:induction false} RowSumBound(cells: seq<seq<bool>>, width: int, height: int, x: int, y: int, dy: int, dx: int)
    requires Countable(cells, width, height, x, y) && -1 <= dy <= 1 && -2 <= dx <= 1
    ensures RowSum(cells, width, height, x, y, dy, dx) <= dx + 2 - (if dy == 0 && dx >= 0 then 1 else 0)
    decreases dx + 2
  {
    if dx > -2 {
      RowSumBound(cells, width, height, x, y, dy, dx - 1);
    }
  }

  /** `countNeighbour` returns a value in [0, 8]. */
  lemma NeighboursBound(cells: seq<seq<bool>>, width: int, height: int, x: int, y: int)
    requires Countable(cells, width, height, x, y)
    ensures 0 <= Neighbours(cells, width, height, x, y) <= 8
  {
    RowSumBound(cells, width, height, x, y, -1, 1);
    RowSumBound(cells, width, height, x, y, 0, 1);
    RowSumBound(cells, width, height, x, y, 1, 1);
  }

  /** Each row sums the cells that are alive, so no live cell means none counted... */
  lemma {:induction false} RowSumDead(cells: seq<seq<bool>>, width: int, height: int, x: int, y: int, dy: int, dx: int)
    requires Countable(cells, width, height, x, y) && -1 <= dy <= 1 && -2 <= dx <= 1 && AllDead(cells)
    ensures RowSum(cells, width, height, x, y, dy, dx) == 0
    decreases dx + 2
  {
    if dx > -2 {
      RowSumDead(cells, width, height, x, y, dy, dx - 1);
    }
  }

  /** ... and all of them alive means every offset but the centre counted. */
  lemma {:induction false} RowSumAlive(cells: seq<seq<bool>>, width: int, height: int, x: int, y: int, dy: int, dx: int)
    requires Countable(cells, width, height, x, y) && -1 <= dy <= 1 && -2 <= dx <= 1 && AllAlive(cells)
    ensures RowSum(cells, width, height, x, y, dy, dx) == dx + 2 - (if dy == 0 && dx >= 0 then 1 else 0)
    decreases dx + 2
  {
    if dx > -2 {
      RowSumAlive(cells, width, height, x, y, dy, dx - 1);
    }
  }

  /** A dead grid gives every cell 0 live neighbours, a full one 8: the eight offsets are counted. */
  lemma NeighboursExtremes(cells: seq<seq<bool>>, width: int, height: int, x: int, y: int)
    requires Countable(cells, width, height, x, y)
    ensures AllDead(cells) ==> Neighbours(cells, width, height, x, y) == 0
    ensures AllAlive(cells) ==> Neighbours(cells, width, height, x, y) == 8
  {
    if AllDead(cells) {
      RowSumDead(cells, width, height, x, y, -1, 1);
      RowSumDead(cells, width, height, x, y, 0, 1);
      RowSumDead(cells, width, height, x, y, 1, 1);
    }
    if AllAlive(cells) {
      RowSumAlive(cells, width, height, x, y, -1, 1);
      RowSumAlive(cells, width, height, x, y, 0, 1);
      RowSumAlive(cells, width, height, x, y, 1, 1);
    }
  }

  /** The rule of `nextGeneration` for one cell. */
  function NextCell(alive: bool, neighbours: int): bool
  {
    if alive && (neighbours == 2 || neighbours == 3) then true
    else if !alive && neighbours == 3 then true
    else false
  }

  /** Row y of the next generation. */
  function NextRow(cells: seq<seq<bool>>, width: int, height: int, y: int): (r: seq<bool>)
    requires Rect(cells, width, height) && 0 <= y < height
    ensures |r| == width
  {
    assert |cells[y]| == width;
    seq(width, x requires 0 <= x < width => NextCell(cells[y][x], Neighbours(cells, width, height, x, y)))
  }

  /** The next generation, computed from the old one only. */
  function Next(cells: seq<seq<bool>>, width: int, height: int): (r: seq<seq<bool>>)
    requires Rect(cells, width, height)
    ensures Rect(r, width, height)
  {
    seq(height, y requires 0 <= y < height => NextRow(cells, width, height, y))
  }

  /**
    B3/S23: a cell is alive in the next generation exactly when it has three
    live neighbours, or it is alive and has two.
  */
  lemma Rule(cells: seq<seq<bool>>, width: int, height: int, x: int, y: int)
    requires Rect(cells, width, height) && 0 <= x < width && 0 <= y < height
    ensures var n := Neighbours(cells, width, height, x, y);
      Next(cells, width, height)[y][x] <==> n == 3 || (cells[y][x] && n == 2)
  {
  }

  /** An all-dead grid stays all-dead. */
  lemma DeadStaysDead(cells: seq<seq<bool>>, width: int, height: int)
    requires Rect(cells, width, height) && AllDead(cells)
    ensures AllDead(Next(cells, width, height))
  {
    var r := Next(cells, width, height);
    forall y, x | 0 <= y < |r| && 0 <= x < |r[y]| ensures !r[y][x] {
      NeighboursExtremes(cells, width, height, x, y);
    }
  }

  /** A full grid dies out: every cell has eight live neighbours. */
  lemma FullDies(cells: seq<seq<bool>>, width: int, height: int)
    requires Rect(cells, width, height) && AllAlive(cells)
    ensures AllDead(Next(cells, width, height))
  {
    var r := Next(cells, width, height);
    forall y, x | 0 <= y < |r| && 0 <= x < |r[y]| ensures !r[y][x] {
      NeighboursExtremes(cells, width, height, x, y);
    }
  }

  // ---------------------------------------------------------------- Braille

  /** The cell (x, y) is on the grid and alive; cells off the grid show as blank. */
  predicate Dot(cells: seq<seq<bool>>, width: int, height: int, x: int, y: int)
    requires Rect(cells, width, height) && x >= 0 && y >= 0
  {
    y < height && x < width && cells[y][x]
  }

  /**
    The Unicode Braille Patterns block: bit i of the code point's offset from
    U+2800 raises dot i + 1; dots 1, 2, 3 and 7 are the left column, dots 4, 5,
    6 and 8 the right one, top to bottom.
  */
  function DotColumn(i: int): int
  {
    if i == 3 || i == 4 || i == 5 || i == 7 then 1 else 0
  }

  function DotRow(i: int): int
  {
    if i < 3 then i else if i < 6 then i - 3 else 3
  }

  /** The bit for dot i + 1: 2 to the power i. */
  function Mask(i: int): bv8
    requires 0 <= i < 8
  {
    if i == 0 then 0x01 else if i == 1 then 0x02 else if i == 2 then 0x04 else if i == 3 then 0x08
    else if i == 4 then 0x10 else if i == 5 then 0x20 else if i == 6 then 0x40 else 0x80
  }

  /** `bit` when the cell (x, y) is on the grid and alive, else no bit. */
  function DotBit(cells: seq<seq<bool>>, width: int, height: int, x: int, y: int, bit: bv8): bv8
    requires Rect(cells, width, height) && x >= 0 && y >= 0
  {
    if Dot(cells, width, height, x, y) then bit else 0
  }

  /** The dot pattern of the block at (2 col, 4 row), bit by bit. */
  function Pattern(cells: seq<seq<bool>>, width: int, height: int, col: int, row: int): bv8
    requires Rect(cells, width, height) && col >= 0 && row >= 0
  {
    var x, y := col * 2, row * 4;
    0 | DotBit(cells, width, height, x, y, 0x01)
    | DotBit(cells, width, height, x + 1, y, 0x08)
    | DotBit(cells, width, height, x, y + 1, 0x02)
    | DotBit(cells, width, height, x + 1, y + 1, 0x10)
    | DotBit(cells, width, height, x, y + 2, 0x04)
    | DotBit(cells, width, height, x + 1, y + 2, 0x20)
    | DotBit(cells, width, height, x, y + 3, 0x40)
    | DotBit(cells, width, height, x + 1, y + 3, 0x80)
  }

  /** One `if` of `getBrailleChar`: raise `bit` when the cell (x, y) is on the grid and alive. */
  method RaiseDot(cells: seq<seq<bool>>, width: int, height: int, pattern: bv8, x: int, y: int, bit: bv8) returns (p: bv8)
    requires Rect(cells, width, height) && x >= 0 && y >= 0
    ensures p == pattern | DotBit(cells, width, height, x, y, bit)
  {
    p := pattern;
    if y < height && x < width && cells[y][x] {
      p := p | bit;
    }
  }

  /** Bit i of the pattern is set exactly when the cell under dot i + 1 is on the grid and alive. */
  lemma PatternDots(cells: seq<seq<bool>>, width: int, height: int, col: int, row: int, i: int)
    requires Rect(cells, width, height) && col >= 0 && row >= 0 && 0 <= i < 8
    ensures Pattern(cells, width, height, col, row) & Mask(i) != 0
      <==> Dot(cells, width, height, 2 * col + DotColumn(i), 4 * row + DotRow(i))
  {
  }

  /** `rune(0x2800 + pattern)`: the Braille character with a given dot pattern. */
  function BrailleChar(p: bv8): (c: char)
    ensures 0x2800 <= c as int <= 0x28FF
  {
    (0x2800 + p as int) as char
  }

  // ---------------------------------------------------------------- the grid

  /** The `Grid` struct: the cells of the current generation and the size. */
  class Grid {
    var cells: seq<seq<bool>>
    var width: int
    var height: int

    ghost predicate Valid()
      reads this
    {
      Rect(cells, width, height)
    }

    /** `NewGrid(widht, height)`: `height` rows of `widht` dead cells. */
    constructor NewGrid(widht: int, height: int)
      requires height >= 0 && (height > 0 ==> widht >= 0)
      ensures Valid() && this.width == widht && this.height == height
      ensures AllDead(cells)
    {
      var rows: seq<seq<bool>> := [];
      for i := 0 to height
        invariant |rows| == i && forall y :: 0 <= y < i ==> rows[y] == DeadRow(widht)
      {
        rows := rows + [DeadRow(widht)];
      }
      cells := rows;
      width := widht;
      this.height := height;
    }

    /** `countNeighbour(x, y)`: the live cells among the eight wrapped neighbours. */
    method CountNeighbour(x: int, y: int) returns (n: int)
      requires Countable(cells, width, height, x, y)
      ensures n == Neighbours(cells, width, height, x, y)
    {
      n := 0;
      for dy := -1 to 2
        invariant n == BlockSum(cells, width, height, x, y, dy - 1)
      {
        for dx := -1 to 2
          invariant n == BlockSum(cells, width, height, x, y, dy - 1) + RowSum(cells, width, height, x, y, dy, dx - 1)
        {
          n := CountOffset(x, y, dx, dy, n);
        }
      }
    }

    /**
      The body of the inner loop of `countNeighbour`: the centre is skipped,
      any other offset adds 1 when the wrapped neighbour there is alive.
    */
    method CountOffset(x: int, y: int, dx: int, dy: int, count: int) returns (n: int)
      requires Countable(cells, width, height, x, y) && -1 <= dx <= 1 && -1 <= dy <= 1
      ensures n == count + Live(cells, width, height, x, y, dx, dy)
    {
      n := count;
      if dx == 0 && dy == 0 {
        return;
      }
      var nx := (x + dx + width) % width;
      var ny := (y + dy + height) % height;
      WrapIsRem(x, dx, width);
      WrapIsRem(y, dy, height);
      if cells[ny][nx] {
        n := n + 1;
      }
    }

    /**
      The body of the row loop of `nextGeneration`: the dead row y of `next`
      set cell by cell by the rule from this generation.
    */
    method FillRow(next: Grid, y: int)
      requires Valid() && next != this && 0 <= y < height
      requires Rect(next.cells, width, height) && forall i :: 0 <= i < width ==> !next.cells[y][i]
      modifies next
      ensures next.width == old(next.width) && next.height == old(next.height)
      ensures next.cells == old(next.cells)[y := NextRow(cells, width, height, y)]
    {
      assert |cells[y]| == width;
      for x := 0 to width
        invariant next.width == old(next.width) && next.height == old(next.height)
        invariant |next.cells| == height && |next.cells[y]| == width && next.cells == old(next.cells)[y := next.cells[y]]
        invariant forall i :: 0 <= i < x ==> next.cells[y][i] == NextRow(cells, width, height, y)[i]
        invariant forall i :: x <= i < width ==> !next.cells[y][i]
      {
        var neighbours := CountNeighbour(x, y);
        var alive := cells[y][x];
        if alive && (neighbours == 2 || neighbours == 3) {
          next.cells := next.cells[y := next.cells[y][x := true]];
        } else if !alive && neighbours == 3 {
          next.cells := next.cells[y := next.cells[y][x := true]];
        }
      }
      assert next.cells[y] == NextRow(cells, width, height, y);
    }

    /**
      `nextGeneration`: every cell of a fresh grid is set by the rule from the
      old generation, and the fresh cells replace the old ones.
    */
    method NextGeneration()
      requires Valid()
      modifies this
      ensures Valid() && width == old(width) && height == old(height)
      ensures cells == Next(old(cells), width, height)
    {
      if height > 0 {
        assert |cells[0]| == width;
      }
      var next := new Grid.NewGrid(width, height);
      for y := 0 to height
        modifies next
        invariant next.width == width && next.height == height && Rect(next.cells, width, height)
        invariant forall j :: 0 <= j < y ==> next.cells[j] == NextRow(cells, width, height, j)
        invariant forall j, i :: y <= j < height && 0 <= i < width ==> !next.cells[j][i]
      {
        FillRow(next, y);
      }
      cells := next.cells;
      assert cells == Next(old(cells), width, height);
    }

    /**
      `getBrailleChar(col, row)`: the Braille character whose raised dots are
      the live cells of the 2 x 4 block at (2 col, 4 row).
    */
    method GetBrailleChar(col: int, row: int) returns (s: string)
      requires Valid() && col >= 0 && row >= 0
      ensures s == [BrailleChar(Pattern(cells, width, height, col, row))]
    {
      var c, w, h := cells, width, height;
      var baseX := col * 2;
      var baseY := row * 4;
      var pattern: bv8 := 0;
      pattern := RaiseDot(c, w, h, pattern, baseX, baseY, 0x01);
      pattern := RaiseDot(c, w, h, pattern, baseX + 1, baseY, 0x08);
      pattern := RaiseDot(c, w, h, pattern, baseX, baseY + 1, 0x02);
      pattern := RaiseDot(c, w, h, pattern, baseX + 1, baseY + 1, 0x10);
      pattern := RaiseDot(c, w, h, pattern, baseX, baseY + 2, 0x04);
      pattern := RaiseDot(c, w, h, pattern, baseX + 1, baseY + 2, 0x20);
      pattern := RaiseDot(c, w, h, pattern, baseX, baseY + 3, 0x40);
      pattern := RaiseDot(c, w, h, pattern, baseX + 1, baseY + 3, 0x80);
      assert pattern == Pattern(c, w, h, col, row);
      var runeVal := BrailleChar(pattern);
      s := [runeVal];
    }
  }
}
