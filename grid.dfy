/** `Grid` (and `LockGrid`, which has the same sequential meaning): a height x width
    matrix of cell states whose coordinates wrap around, so that the grid is a torus. */
module Grids {
  import opened LifeRules
  import Text
  import Arith

  /** The rows of a grid, top to bottom; each row is its cells left to right. */
  type Rows = seq<seq<State>>

  /** How many items `range(n)` and `[v] * n` produce: none when `n` is negative. */
  function Extent(n: int): nat
  {
    if n < 0 then 0 else n
  }

  /** `rows` has `height` rows of `width` cells each. */
  ghost predicate Shaped(rows: Rows, height: int, width: int)
  {
    |rows| == Extent(height) &&
    forall i :: 0 <= i < |rows| ==> |rows[i]| == Extent(width)
  }

  /** The rows of a freshly constructed grid. */
  function Blank(height: int, width: int): (rows: Rows)
    ensures Shaped(rows, height, width)
    ensures forall i, j :: 0 <= i < |rows| && 0 <= j < |rows[i]| ==> rows[i][j] == Empty
  {
    seq(Extent(height), _ => seq(Extent(width), _ => Empty))
  }

  /** `get(y, x)`: the cell at row `y mod height`, column `x mod width`; inside the
      bounds, that is the stored cell itself. */
  function At(rows: Rows, height: int, width: int, y: int, x: int): (s: State)
    requires Shaped(rows, height, width) && height > 0 && width > 0
    ensures 0 <= y < height && 0 <= x < width ==> s == rows[y][x]
  {
    if 0 <= y < height && 0 <= x < width then
      Arith.ModInRange(y, height);
      Arith.ModInRange(x, width);
      rows[y % height][x % width]
    else
      rows[y % height][x % width]
  }

  /** The rows after `set(y, x, state)`: the one cell `(y mod height, x mod width)` replaced. */
  function Put(rows: Rows, height: int, width: int, y: int, x: int, state: State): (r: Rows)
    requires Shaped(rows, height, width) && height > 0 && width > 0
    ensures Shaped(r, height, width)
  {
    rows[y % height := rows[y % height][x % width := state]]
  }

  /** The accessor `grid.get` handed to the neighbour counter, bound to the given rows. */
  function Accessor(rows: Rows, height: int, width: int): (get: (int, int) -> State)
    requires Shaped(rows, height, width) && height > 0 && width > 0
    ensures forall y, x :: get(y, x) == At(rows, height, width, y, x)
  {
    (y: int, x: int) => At(rows, height, width, y, x)
  }

  /** `get` is toroidal: whole multiples of the height and width, positive or negative,
      can be added to the coordinates without changing the cell that is read. */
  lemma AtWraps(rows: Rows, height: int, width: int, y: int, x: int, k: int, m: int)
    requires Shaped(rows, height, width) && height > 0 && width > 0
    ensures At(rows, height, width, y + k * height, x + m * width) == At(rows, height, width, y, x)
  {
    Arith.ModShift(y, height, k);
    Arith.ModShift(x, width, m);
  }

  /** `get` after `set`: the cell written (any coordinates congruent to it) reads back
      the new state, and every other cell reads as before. */
  lemma AtPut(rows: Rows, height: int, width: int, y: int, x: int, state: State, y': int, x': int)
    requires Shaped(rows, height, width) && height > 0 && width > 0
    ensures At(Put(rows, height, width, y, x, state), height, width, y', x') ==
      if y' % height == y % height && x' % width == x % width then state
      else At(rows, height, width, y', x')
  {
  }

  /** Two grids of the same shape that read the same everywhere are equal. */
  lemma SameCellsSameRows(r: Rows, r': Rows, height: int, width: int)
    requires Shaped(r, height, width) && Shaped(r', height, width) && height > 0 && width > 0
    requires forall a, b :: At(r, height, width, a, b) == At(r', height, width, a, b)
    ensures r == r'
  {
    forall y | 0 <= y < height ensures r[y] == r'[y] {
      forall x | 0 <= x < width ensures r[y][x] == r'[y][x] {
        Arith.ModInRange(y, height);
        Arith.ModInRange(x, width);
        assert At(r, height, width, y, x) == At(r', height, width, y, x);
      }
    }
  }

  /** One row as text: the glyph of each cell, left to right. */
  function RowText(row: seq<State>): (s: string)
    ensures |s| == |row|
  {
    if row == [] then "" else RowText(row[..|row| - 1]) + [Glyph(row[|row| - 1])]
  }

  /** A row's text is read back glyph by glyph: character `j` is the glyph of cell `j`. */
  lemma {:induction false} RowTextGlyphs(row: seq<State>)
    ensures forall j :: 0 <= j < |row| ==> RowText(row)[j] == Glyph(row[j])
  {
    if row != [] {
      RowTextGlyphs(row[..|row| - 1]);
    }
  }

  /** `str(grid)`: every row's text followed by "\n"; so it is empty exactly for a grid
      without rows. */
  function Render(rows: Rows): (text: string)
    ensures text == [] <==> rows == []
  {
    if rows == [] then "" else Render(rows[..|rows| - 1]) + RowText(rows[|rows| - 1]) + "\n"
  }

  /** Offset of column `j` of line `i` in text whose lines are `width` glyphs and a "\n". */
  function Offset(width: nat, i: nat, j: nat): nat
  {
    i * (width + 1) + j
  }

  /** Character `j` of a row's line: its glyphs, then the line end. */
  function LineChar(row: seq<State>, j: nat): char
  {
    if j < |row| then Glyph(row[j]) else '\n'
  }

  /** `str(grid)` is `height` lines of `width` glyphs plus "\n" each. */
  lemma {:induction false} RenderLength(rows: Rows, width: nat)
    requires forall k :: 0 <= k < |rows| ==> |rows[k]| == width
    ensures |Render(rows)| == |rows| * (width + 1)
  {
    if rows != [] {
      RenderLength(rows[..|rows| - 1], width);
      assert |rows| * (width + 1) == (|rows| - 1) * (width + 1) + (width + 1);
    }
  }

  /** Where each character of `str(grid)` comes from: the glyph of cell (i, j) sits at
      offset i * (width + 1) + j, and every line ends with "\n" at offset
      i * (width + 1) + width. */
  lemma {:induction false} RenderAt(rows: Rows, width: nat, i: nat, j: nat)
    requires forall k :: 0 <= k < |rows| ==> |rows[k]| == width
    requires i < |rows| && j <= width
    ensures Offset(width, i, j) < |Render(rows)|
    ensures Render(rows)[Offset(width, i, j)] == LineChar(rows[i], j)
  {
    var n := |rows|;
    var init := rows[..n - 1];
    RenderLength(init, width);
    RenderLength(rows, width);
    var head := Render(init);
    var line := RowText(rows[n - 1]) + "\n";
    assert Render(rows) == head + line;
    var off := Offset(width, i, j);
    if i < n - 1 {
      RenderAt(init, width, i, j);
      assert init[i] == rows[i];
    } else {
      assert off == |head| + j;
      RowTextGlyphs(rows[i]);
      assert line[j] == LineChar(rows[i], j);
    }
  }

  /** The rendered grid seen from the other side: right-recursive decomposition. */
  lemma {:induction false} RenderCons(rows: Rows)
    requires rows != []
    ensures Render(rows) == RowText(rows[0]) + "\n" + Render(rows[1..])
  {
    var n := |rows|;
    if n > 1 {
      var init, tail := rows[..n - 1], rows[1..];
      var head, middle, last := RowText(rows[0]) + "\n", Render(init[1..]), RowText(rows[n - 1]) + "\n";
      assert Render(rows) == Render(init) + last;
      assert Render(init) == head + middle by {
        RenderCons(init);
        assert init[0] == rows[0];
      }
      assert Render(tail) == middle + last by {
        assert init[1..] == tail[..n - 2];
        assert tail[n - 2] == rows[n - 1];
      }
      assert (head + middle) + last == head + (middle + last);
    } else {
      assert rows[1..] == [];
      assert Render(rows) == Render(rows[..0]) + RowText(rows[0]) + "\n";
    }
  }

  /** The lines of `str(grid)` (as `splitlines` sees them) are exactly the rows' texts,
      one per row. */
  lemma {:induction false} SplitLinesRender(rows: Rows)
    ensures Text.SplitLines(Render(rows)) == seq(|rows|, i requires 0 <= i < |rows| => RowText(rows[i]))
    decreases |rows|
  {
    if rows != [] {
      RenderCons(rows);
      RowTextGlyphs(rows[0]);
      forall k | 0 <= k < |RowText(rows[0])| ensures !Text.IsLineBreak(RowText(rows[0])[k]) {
      }
      Text.SplitLinesCons(RowText(rows[0]), Render(rows[1..]));
      SplitLinesRender(rows[1..]);
    }
  }

  /** Python's `Grid`, the `LockGrid` used by the simulation with its lock left out. */
  class Grid {
    const height: int
    const width: int
    var rows: Rows

    ghost predicate Valid()
      reads this
    {
      Shaped(rows, height, width)
    }

    /** `Grid(height, width)`: `height` rows of `width` empty cells, built row by row. */
    constructor (height: int, width: int)
      ensures Valid()
      ensures this.height == height && this.width == width
      ensures rows == Blank(height, width)
    {
      this.height := height;
      this.width := width;
      var built: Rows := [];
      for i := 0 to Extent(height)
        invariant |built| == i
        invariant forall k :: 0 <= k < i ==> built[k] == seq(Extent(width), _ => Empty)
      {
        built := built + [seq(Extent(width), _ => Empty)];
      }
      rows := built;
    }

    /** `grid.get(y, x)`: inside the bounds, the stored cell; see `AtWraps` for the
        coordinates outside them. */
    function Get(y: int, x: int): (s: State)
      reads this
      requires Valid() && height > 0 && width > 0
      ensures 0 <= y < height && 0 <= x < width ==> s == rows[y][x]
    {
      At(rows, height, width, y, x)
    }

    /** `grid.set(y, x, state)`: only the addressed cell changes; the dimensions are
        constants of the object. */
    method Set(y: int, x: int, state: State)
      requires Valid() && height > 0 && width > 0
      modifies this
      ensures Valid()
      ensures rows == Put(old(rows), height, width, y, x, state)
      ensures forall y', x' :: Get(y', x') ==
                                (if y' % height == y % height && x' % width == x % width then state
                                 else old(Get(y', x')))
    {
      rows := rows[y % height := rows[y % height][x % width := state]];
    }

    /** `str(grid)`, accumulated cell by cell as the source does. */
    method ToString() returns (output: string)
      requires Valid()
      ensures output == Render(rows)
    {
      output := "";
      for i := 0 to |rows|
        invariant output == Render(rows[..i])
      {
        var row := rows[i];
        var j := 0;
        while j < |row|
          invariant 0 <= j <= |row|
          invariant output == Render(rows[..i]) + RowText(row[..j])
        {
          assert row[..j + 1][..j] == row[..j];
          output := output + [Glyph(row[j])];
          j := j + 1;
        }
        assert row[..|row|] == row;
        assert rows[..i + 1][..i] == rows[..i];
        output := output + "\n";
      }
      assert rows[..|rows|] == rows;
    }
  }
}
