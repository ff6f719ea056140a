/** Concrete generations: a still life, and the glider the driver script seeds into a
    5 x 9 grid. Each pattern is built with `set` on a new grid, as the script does, and
    its next generation is worked out cell by cell from the rule. */
module Patterns {
  import opened LifeRules
  import opened Grids
  import opened Neighbors
  import opened Pipeline
  import Arith

  /** 1 for a live cell, 0 for an empty one. */
  function Live(s: State): nat
  {
    if s == Alive then 1 else 0
  }

  /** Counting a prefix one state longer adds that state's 0/1 value. */
  lemma CountSnoc(s: seq<State>, k: int)
    requires 0 < k <= |s|
    ensures CountAlive(s[..k]) == CountAlive(s[..k - 1]) + Live(s[k - 1])
  {
    assert s[..k][..k - 1] == s[..k - 1];
  }

  /** Counting eight states is adding up their eight 0/1 values. */
  lemma CountEight(s: seq<State>)
    requires |s| == 8
    ensures CountAlive(s) ==
      Live(s[0]) + Live(s[1]) + Live(s[2]) + Live(s[3]) +
      Live(s[4]) + Live(s[5]) + Live(s[6]) + Live(s[7])
  {
    assert s[..0] == [];
    CountSnoc(s, 1);
    CountSnoc(s, 2);
    CountSnoc(s, 3);
    CountSnoc(s, 4);
    CountSnoc(s, 5);
    CountSnoc(s, 6);
    CountSnoc(s, 7);
    CountSnoc(s, 8);
    assert s[..8] == s;
  }

  /** The index before `a` on a torus of size `n`. */
  function Before(a: int, n: int): (b: int)
    requires 0 <= a < n
    ensures 0 <= b < n
  {
    if a == 0 then n - 1 else a - 1
  }

  /** The index after `a` on a torus of size `n`. */
  function After(a: int, n: int): (b: int)
    requires 0 <= a < n
    ensures 0 <= b < n
  {
    if a == n - 1 then 0 else a + 1
  }

  /** Stepping one place back from `a` wraps like Python's `%`. */
  lemma WrapBack(a: int, n: int)
    requires 0 <= a < n
    ensures (a - 1) % n == Before(a, n)
  {
    if a == 0 {
      Arith.DivModUnique(-1, n, -1, n - 1);
    } else {
      Arith.ModInRange(a - 1, n);
    }
  }

  /** Stepping one place forward from `a` wraps like Python's `%`. */
  lemma WrapForward(a: int, n: int)
    requires 0 <= a < n
    ensures (a + 1) % n == After(a, n)
  {
    if a == n - 1 {
      Arith.DivModUnique(n, n, 1, 0);
    } else {
      Arith.ModInRange(a + 1, n);
    }
  }

  /** The live cells among the eight neighbours of an in-grid cell, with the wrapped
      indices written out. */
  function NeighborSum(rows: Rows, height: int, width: int, y: int, x: int): nat
    requires Shaped(rows, height, width) && 0 <= y < height && 0 <= x < width
  {
    var n, s, w, e := Before(y, height), After(y, height), Before(x, width), After(x, width);
    Live(rows[n][x]) + Live(rows[n][e]) + Live(rows[y][e]) + Live(rows[s][e]) +
    Live(rows[s][x]) + Live(rows[s][w]) + Live(rows[y][w]) + Live(rows[n][w])
  }

  /** `next` is one generation after `rows`, cell by cell. */
  ghost predicate Steps(rows: Rows, next: Rows, height: int, width: int)
  {
    Shaped(rows, height, width) && Shaped(next, height, width) &&
    forall y, x {:trigger next[y][x]} :: 0 <= y < height && 0 <= x < width ==>
      next[y][x] == GameLogic(rows[y][x], NeighborSum(rows, height, width, y, x))
  }

  /** One cell of the next generation: the rule applied to the cell and the sum of its
      eight neighbours, read through `get`. */
  lemma StepCell(rows: Rows, height: int, width: int, y: int, x: int)
    requires Shaped(rows, height, width) && height > 0 && width > 0
    requires 0 <= y < height && 0 <= x < width
    ensures NextGeneration(rows, height, width)[y][x] ==
      GameLogic(rows[y][x],
        Live(At(rows, height, width, y - 1, x)) + Live(At(rows, height, width, y - 1, x + 1)) +
        Live(At(rows, height, width, y, x + 1)) + Live(At(rows, height, width, y + 1, x + 1)) +
        Live(At(rows, height, width, y + 1, x)) + Live(At(rows, height, width, y + 1, x - 1)) +
        Live(At(rows, height, width, y, x - 1)) + Live(At(rows, height, width, y - 1, x - 1)))
  {
    var get := Accessor(rows, height, width);
    var states := NeighborStates(y, x, get);
    assert NextGeneration(rows, height, width)[y][x] == GameLogic(rows[y][x], CountAlive(states));
    CountEight(states);
  }

  /** One cell of the next generation, with the wrapped neighbour indices written out. */
  lemma StepCellWrapped(rows: Rows, height: int, width: int, y: int, x: int)
    requires Shaped(rows, height, width) && height > 0 && width > 0
    requires 0 <= y < height && 0 <= x < width
    ensures NextGeneration(rows, height, width)[y][x] ==
      GameLogic(rows[y][x], NeighborSum(rows, height, width, y, x))
  {
    StepCell(rows, height, width, y, x);
    WrapBack(y, height);
    WrapForward(y, height);
    WrapBack(x, width);
    WrapForward(x, width);
    Arith.ModInRange(y, height);
    Arith.ModInRange(x, width);
  }

  /** The next generation steps every cell by the rule, with wrapped neighbour indices. */
  lemma NextGenerationSteps(rows: Rows, height: int, width: int)
    requires Shaped(rows, height, width) && height > 0 && width > 0
    ensures Steps(rows, NextGeneration(rows, height, width), height, width)
  {
    var next := NextGeneration(rows, height, width);
    forall y, x | 0 <= y < height && 0 <= x < width
      ensures next[y][x] == GameLogic(rows[y][x], NeighborSum(rows, height, width, y, x))
    {
      StepCellWrapped(rows, height, width, y, x);
    }
  }

  /** Every cell of an empty grid reads as empty. */
  lemma AtBlank(height: int, width: int, y: int, x: int)
    requires height > 0 && width > 0
    ensures At(Blank(height, width), height, width, y, x) == Empty
  {
  }

  /** The cells of the block, in a 4 x 4 grid. */
  predicate InBlock(y: int, x: int)
  {
    1 <= y <= 2 && 1 <= x <= 2
  }

  /** A 2 x 2 block, set cell by cell into a new 4 x 4 grid. */
  function Block(): (rows: Rows)
    ensures Shaped(rows, 4, 4)
  {
    var g := Blank(4, 4);
    var g := Put(g, 4, 4, 1, 1, Alive);
    var g := Put(g, 4, 4, 1, 2, Alive);
    var g := Put(g, 4, 4, 2, 1, Alive);
    Put(g, 4, 4, 2, 2, Alive)
  }

  /** `get` on the block: alive exactly on the four block cells, wherever on the torus. */
  lemma BlockAt(y: int, x: int)
    ensures At(Block(), 4, 4, y, x) == if InBlock(y % 4, x % 4) then Alive else Empty
  {
    var g0 := Blank(4, 4);
    var g1 := Put(g0, 4, 4, 1, 1, Alive);
    var g2 := Put(g1, 4, 4, 1, 2, Alive);
    var g3 := Put(g2, 4, 4, 2, 1, Alive);
    AtBlank(4, 4, y, x);
    AtPut(g0, 4, 4, 1, 1, Alive, y, x);
    AtPut(g1, 4, 4, 1, 2, Alive, y, x);
    AtPut(g2, 4, 4, 2, 1, Alive, y, x);
    AtPut(g3, 4, 4, 2, 2, Alive, y, x);
  }

  /** One cell of a generation after the block pattern, by the rule. */
  lemma BlockRuleCell(rows: Rows, next: Rows, y: int, x: int)
    requires Steps(rows, next, 4, 4)
    requires forall y, x :: 0 <= y < 4 && 0 <= x < 4 ==> (rows[y][x] == Alive <==> InBlock(y, x))
    requires 0 <= y < 4 && 0 <= x < 4
    ensures next[y][x] == rows[y][x]
  {
    assert y == 0 || y == 1 || y == 2 || y == 3;
    assert x == 0 || x == 1 || x == 2 || x == 3;
  }

  /** A block in a 4 x 4 grid stays put for one generation. */
  lemma BlockRuleStill(rows: Rows, next: Rows)
    requires Steps(rows, next, 4, 4)
    requires forall y, x :: 0 <= y < 4 && 0 <= x < 4 ==> (rows[y][x] == Alive <==> InBlock(y, x))
    ensures next == rows
  {
    forall y | 0 <= y < 4 ensures next[y] == rows[y] {
      forall x | 0 <= x < 4 ensures next[y][x] == rows[y][x] {
        BlockRuleCell(rows, next, y, x);
      }
    }
  }

  /** The block is a still life: one generation leaves it unchanged. */
  lemma BlockIsStill()
    ensures NextGeneration(Block(), 4, 4) == Block()
  {
    var b := Block();
    forall y, x | 0 <= y < 4 && 0 <= x < 4 ensures b[y][x] == Alive <==> InBlock(y, x) {
      BlockAt(y, x);
      Arith.ModInRange(y, 4);
      Arith.ModInRange(x, 4);
    }
    NextGenerationSteps(b, 4, 4);
    BlockRuleStill(b, NextGeneration(b, 4, 4));
  }

  /** The cells the driver script sets alive in its 5 x 9 grid: a glider. */
  predicate InGlider(y: int, x: int)
  {
    (y == 0 && x == 3) || (y == 1 && x == 4) || (y == 2 && 2 <= x <= 4)
  }

  /** The glider one generation on: it has turned and moved down by one row. */
  predicate InGliderNext(y: int, x: int)
  {
    (y == 1 && (x == 2 || x == 4)) || (y == 2 && 3 <= x <= 4) || (y == 3 && x == 3)
  }

  /** The driver's seed: a new 5 x 9 grid with the five glider cells set alive. */
  function Glider(): (rows: Rows)
    ensures Shaped(rows, 5, 9)
  {
    var g := Blank(5, 9);
    var g := Put(g, 5, 9, 0, 3, Alive);
    var g := Put(g, 5, 9, 1, 4, Alive);
    var g := Put(g, 5, 9, 2, 2, Alive);
    var g := Put(g, 5, 9, 2, 3, Alive);
    Put(g, 5, 9, 2, 4, Alive)
  }

  /** The grid the glider becomes, written with `set` in the same way. */
  function GliderNext(): (rows: Rows)
    ensures Shaped(rows, 5, 9)
  {
    var g := Blank(5, 9);
    var g := Put(g, 5, 9, 1, 2, Alive);
    var g := Put(g, 5, 9, 1, 4, Alive);
    var g := Put(g, 5, 9, 2, 3, Alive);
    var g := Put(g, 5, 9, 2, 4, Alive);
    Put(g, 5, 9, 3, 3, Alive)
  }

  /** `get` on the seed: alive exactly on the five glider cells. */
  lemma GliderAt(y: int, x: int)
    ensures At(Glider(), 5, 9, y, x) == if InGlider(y % 5, x % 9) then Alive else Empty
  {
    var g0 := Blank(5, 9);
    var g1 := Put(g0, 5, 9, 0, 3, Alive);
    var g2 := Put(g1, 5, 9, 1, 4, Alive);
    var g3 := Put(g2, 5, 9, 2, 2, Alive);
    var g4 := Put(g3, 5, 9, 2, 3, Alive);
    AtBlank(5, 9, y, x);
    AtPut(g0, 5, 9, 0, 3, Alive, y, x);
    AtPut(g1, 5, 9, 1, 4, Alive, y, x);
    AtPut(g2, 5, 9, 2, 2, Alive, y, x);
    AtPut(g3, 5, 9, 2, 3, Alive, y, x);
    AtPut(g4, 5, 9, 2, 4, Alive, y, x);
  }

  /** `get` on the expected successor: alive exactly on its five cells. */
  lemma GliderNextAt(y: int, x: int)
    ensures At(GliderNext(), 5, 9, y, x) == if InGliderNext(y % 5, x % 9) then Alive else Empty
  {
    var g0 := Blank(5, 9);
    var g1 := Put(g0, 5, 9, 1, 2, Alive);
    var g2 := Put(g1, 5, 9, 1, 4, Alive);
    var g3 := Put(g2, 5, 9, 2, 3, Alive);
    var g4 := Put(g3, 5, 9, 2, 4, Alive);
    AtBlank(5, 9, y, x);
    AtPut(g0, 5, 9, 1, 2, Alive, y, x);
    AtPut(g1, 5, 9, 1, 4, Alive, y, x);
    AtPut(g2, 5, 9, 2, 3, Alive, y, x);
    AtPut(g3, 5, 9, 2, 4, Alive, y, x);
    AtPut(g4, 5, 9, 3, 3, Alive, y, x);
  }

  /** One cell of a generation after the glider pattern, by the rule. */
  lemma GliderRuleCell(rows: Rows, next: Rows, y: int, x: int)
    requires Steps(rows, next, 5, 9)
    requires forall y, x :: 0 <= y < 5 && 0 <= x < 9 ==> (rows[y][x] == Alive <==> InGlider(y, x))
    requires 0 <= y < 5 && 0 <= x < 9
    ensures next[y][x] == Alive <==> InGliderNext(y, x)
  {
    assert y == 0 || y == 1 || y == 2 || y == 3 || y == 4;
    assert x == 0 || x == 1 || x == 2 || x == 3 || x == 4 || x == 5 || x == 6 || x == 7 || x == 8;
  }

  /** Any generation after the glider pattern is the pattern's next phase. */
  lemma GliderRule(rows: Rows, next: Rows, target: Rows)
    requires Steps(rows, next, 5, 9) && Shaped(target, 5, 9)
    requires forall y, x :: 0 <= y < 5 && 0 <= x < 9 ==> (rows[y][x] == Alive <==> InGlider(y, x))
    requires forall y, x :: 0 <= y < 5 && 0 <= x < 9 ==> (target[y][x] == Alive <==> InGliderNext(y, x))
    ensures next == target
  {
    forall y | 0 <= y < 5 ensures next[y] == target[y] {
      forall x | 0 <= x < 9 ensures next[y][x] == target[y][x] {
        GliderRuleCell(rows, next, y, x);
      }
    }
  }

  /** The driver's first step: one generation turns the seeded glider into its next
      phase, shifted down one row. */
  lemma GliderStep()
    ensures NextGeneration(Glider(), 5, 9) == GliderNext()
  {
    var g, h := Glider(), GliderNext();
    forall y, x | 0 <= y < 5 && 0 <= x < 9
      ensures (g[y][x] == Alive <==> InGlider(y, x)) && (h[y][x] == Alive <==> InGliderNext(y, x))
    {
      GliderAt(y, x);
      GliderNextAt(y, x);
      Arith.ModInRange(y, 5);
      Arith.ModInRange(x, 9);
    }
    NextGenerationSteps(g, 5, 9);
    GliderRule(g, NextGeneration(g, 5, 9), h);
  }
}
