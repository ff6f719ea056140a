/** One generation of `simulation_pipeline`: every cell is enqueued as a work item, a
    neighbour-counting stage and a rule stage transform the items, and the results are
    drained into a new grid of the same size. The worker threads and queues are replaced
    by their sequential meaning: each stage maps its input queue to its output queue,
    and the order in which the final queue is drained is a parameter. */
module Pipeline {
  import opened LifeRules
  import opened Grids
  import opened Neighbors
  import Arith

  /** A payload that is either a value or the exception the wrapper caught instead. */
  datatype Outcome<T> = Ok(value: T) | Raised(error: string)

  /** Stage 1 input `(y, x, state, get)`: `get` reads the previous generation. */
  datatype NeighborTask = NeighborTask(y: int, x: int, state: State, get: (int, int) -> State)

  /** Stage 1 output / stage 2 input `(y, x, state, neighbors)`. */
  datatype CountedCell = CountedCell(y: int, x: int, state: State, neighbors: Outcome<int>)

  /** Stage 2 output `(y, x, next_state)`. */
  datatype CellUpdate = CellUpdate(y: int, x: int, next: Outcome<State>)

  /** `count_neighbors_thread`: coordinates and state pass through; the count cannot
      raise (the accessor is total), so the payload is always a count between 0 and 8. */
  function CountNeighborsThread(item: NeighborTask): (r: CountedCell)
    ensures r.y == item.y && r.x == item.x && r.state == item.state
    ensures r.neighbors.Ok? && 0 <= r.neighbors.value <= 8
    ensures r.neighbors.value == NeighborCount(item.y, item.x, item.get)
  {
    CountedCell(item.y, item.x, item.state, Ok(NeighborCount(item.y, item.x, item.get)))
  }

  /** `game_logic_thread`: coordinates pass through and a count becomes the next state.
      A caught exception in place of the count makes `game_logic` raise `TypeError` for
      an alive cell (`neighbors < 2` compares an exception with an int), while for an
      empty cell `neighbors == 3` is simply false and the cell stays empty. */
  function GameLogicThread(item: CountedCell): (r: CellUpdate)
    ensures r.y == item.y && r.x == item.x
    ensures item.neighbors.Ok? ==> r.next == Ok(GameLogic(item.state, item.neighbors.value))
    ensures item.neighbors.Raised? ==> (r.next.Ok? <==> item.state == Empty)
    ensures item.neighbors.Raised? && r.next.Ok? ==> r.next.value == Empty
  {
    match item.neighbors
    case Ok(n) => CellUpdate(item.y, item.x, Ok(GameLogic(item.state, n)))
    case Raised(_) =>
      match item.state
      case Alive => CellUpdate(item.y, item.x, Raised("TypeError"))
      case Empty => CellUpdate(item.y, item.x, Ok(item.state))
  }

  /** The two stages in sequence never produce an error: a work item for (y, x) ends as
      an update of (y, x) to the rule applied to its state and its neighbour count. */
  lemma StagesCompose(item: NeighborTask)
    ensures GameLogicThread(CountNeighborsThread(item)) ==
      CellUpdate(item.y, item.x, Ok(GameLogic(item.state, NeighborCount(item.y, item.x, item.get))))
  {
  }

  /** The grid one generation later, cell by cell: the rule applied to the cell's state
      and the number of its live toroidal neighbours in the old grid. */
  function NextGeneration(rows: Rows, height: int, width: int): (next: Rows)
    requires Shaped(rows, height, width) && height > 0 && width > 0
    ensures Shaped(next, height, width)
  {
    seq(height, y requires 0 <= y < height =>
      seq(width, x requires 0 <= x < width =>
        GameLogic(rows[y][x], NeighborCount(y, x, Accessor(rows, height, width)))))
  }

  /** Read through `get` at any coordinates, however far outside the grid, the next
      generation is the rule applied at those coordinates of the old grid. */
  lemma NextGenerationAt(rows: Rows, height: int, width: int, y: int, x: int)
    requires Shaped(rows, height, width) && height > 0 && width > 0
    ensures At(NextGeneration(rows, height, width), height, width, y, x) ==
      GameLogic(At(rows, height, width, y, x), NeighborCount(y, x, Accessor(rows, height, width)))
  {
    NeighborCountMod(rows, height, width, y, x);
  }

  /** An empty grid stays empty: with no live cell anywhere, every count is 0 and no
      cell is born. */
  lemma EmptyStaysEmpty(height: int, width: int)
    requires height > 0 && width > 0
    ensures NextGeneration(Blank(height, width), height, width) == Blank(height, width)
  {
    var blank := Blank(height, width);
    var next := NextGeneration(blank, height, width);
    forall y | 0 <= y < height ensures next[y] == blank[y] {
      forall x | 0 <= x < width ensures next[y][x] == Empty {
        BlankCountsZero(height, width, y, x);
      }
    }
  }

  /** No cell of an empty grid has a live neighbour. */
  lemma BlankCountsZero(height: int, width: int, y: int, x: int)
    requires height > 0 && width > 0
    ensures NeighborCount(y, x, Accessor(Blank(height, width), height, width)) == 0
  {
    var blank := Blank(height, width);
    var states := NeighborStates(y, x, Accessor(blank, height, width));
    forall k | 0 <= k < |states| ensures states[k] == Empty {
      var a, b := (y + Offsets[k].0) % height, (x + Offsets[k].1) % width;
      assert blank[a][b] == Empty;
    }
  }

  /** Counting at the reduced coordinates is counting at the coordinates themselves. */
  lemma NeighborCountMod(rows: Rows, height: int, width: int, y: int, x: int)
    requires Shaped(rows, height, width) && height > 0 && width > 0
    ensures NeighborCount(y % height, x % width, Accessor(rows, height, width)) ==
            NeighborCount(y, x, Accessor(rows, height, width))
  {
    var get := Accessor(rows, height, width);
    var y0, x0, k, m := y % height, x % width, y / height, x / width;
    Arith.DivMod(y, height);
    Arith.DivMod(x, width);
    assert y0 + k * height == y;
    assert x0 + m * width == x;
    NeighborCountWraps(rows, height, width, y0, x0, k, m);
  }

  /** The grid moved by (dy, dx) around the torus: cell (y, x) shows old cell (y - dy, x - dx). */
  function Shift(rows: Rows, height: int, width: int, dy: int, dx: int): (r: Rows)
    requires Shaped(rows, height, width) && height > 0 && width > 0
    ensures Shaped(r, height, width)
  {
    seq(height, y requires 0 <= y < height =>
      seq(width, x requires 0 <= x < width => At(rows, height, width, y - dy, x - dx)))
  }

  /** Reading a shifted grid at (a, b) reads the original at (a - dy, b - dx). */
  lemma AtShift(rows: Rows, height: int, width: int, dy: int, dx: int, a: int, b: int, a': int, b': int)
    requires Shaped(rows, height, width) && height > 0 && width > 0
    requires a' == a - dy && b' == b - dx
    ensures At(Shift(rows, height, width, dy, dx), height, width, a, b) == At(rows, height, width, a', b')
  {
    var moved := Shift(rows, height, width, dy, dx);
    assert At(moved, height, width, a, b) == At(rows, height, width, a % height - dy, b % width - dx);
    Arith.ModOfMod(a, -dy, height);
    Arith.ModOfMod(b, -dx, width);
  }

  /** The rule has no preferred position on the torus: stepping a shifted grid gives the
      shifted step. (This is why a glider reappears displaced after its period.) */
  lemma NextGenerationCommutesWithShift(rows: Rows, height: int, width: int, dy: int, dx: int)
    requires Shaped(rows, height, width) && height > 0 && width > 0
    ensures NextGeneration(Shift(rows, height, width, dy, dx), height, width) ==
            Shift(NextGeneration(rows, height, width), height, width, dy, dx)
  {
    var lhs := NextGeneration(Shift(rows, height, width, dy, dx), height, width);
    var rhs := Shift(NextGeneration(rows, height, width), height, width, dy, dx);
    forall a, b ensures At(lhs, height, width, a, b) == At(rhs, height, width, a, b) {
      ShiftStepAt(rows, height, width, dy, dx, a, b, a - dy, b - dx);
    }
    SameCellsSameRows(lhs, rhs, height, width);
  }

  /** `NextGenerationCommutesWithShift` at one cell, read through `get`. */
  lemma ShiftStepAt(rows: Rows, height: int, width: int, dy: int, dx: int, a: int, b: int, a': int, b': int)
    requires Shaped(rows, height, width) && height > 0 && width > 0
    requires a' == a - dy && b' == b - dx
    ensures At(NextGeneration(Shift(rows, height, width, dy, dx), height, width), height, width, a, b) ==
            At(Shift(NextGeneration(rows, height, width), height, width, dy, dx), height, width, a, b)
  {
    var moved := Shift(rows, height, width, dy, dx);
    NextGenerationAt(moved, height, width, a, b);
    AtShift(rows, height, width, dy, dx, a, b, a', b');
    ShiftedCount(rows, height, width, dy, dx, a, b, a', b');
    AtShift(NextGeneration(rows, height, width), height, width, dy, dx, a, b, a', b');
    NextGenerationAt(rows, height, width, a', b');
  }

  /** Neighbour counts move with the grid. */
  lemma ShiftedCount(rows: Rows, height: int, width: int, dy: int, dx: int, y: int, x: int, y': int, x': int)
    requires Shaped(rows, height, width) && height > 0 && width > 0
    requires y' == y - dy && x' == x - dx
    ensures NeighborCount(y, x, Accessor(Shift(rows, height, width, dy, dx), height, width)) ==
            NeighborCount(y', x', Accessor(rows, height, width))
  {
    var get := Accessor(rows, height, width);
    var get' := Accessor(Shift(rows, height, width, dy, dx), height, width);
    forall d | 0 <= d < |Offsets|
      ensures get'(y + Offsets[d].0, x + Offsets[d].1) == get(y' + Offsets[d].0, x' + Offsets[d].1)
    {
      var (oy, ox) := Offsets[d];
      AtShift(rows, height, width, dy, dx, y + oy, x + ox, y' + oy, x' + ox);
    }
    assert NeighborStates(y, x, get') == NeighborStates(y', x', get);
  }

  /** `range(n)` as a list of work-item numbers. */
  function Iota(n: nat): (s: seq<nat>)
    ensures |s| == n && forall k :: 0 <= k < n ==> s[k] == k
  {
    seq(n, k => k)
  }

  /** Each item number below `n` occurs in `Iota(n)` exactly once. */
  lemma {:induction false} IotaOnce(n: nat, v: nat)
    requires v < n
    ensures multiset(Iota(n))[v] == 1
  {
    assert Iota(n) == Iota(n - 1) + [n - 1];
    if v < n - 1 {
      IotaOnce(n - 1, v);
    } else {
      assert v !in Iota(n - 1);
    }
  }

  /** A possible order in which the final queue is drained: every one of the `n` work
      items exactly once. */
  predicate IsDrainOrder(order: seq<nat>, n: nat)
  {
    multiset(order) == multiset(Iota(n))
  }

  /** The work items the orchestrator enqueues, in its order (row by row): item `k` is
      cell (k / width, k % width) with its state `grid.get(y, x)` and the accessor. */
  function CellItems(rows: Rows, height: int, width: int): (items: seq<NeighborTask>)
    requires Shaped(rows, height, width) && height > 0 && width > 0
    ensures |items| == height * width
  {
    var get := Accessor(rows, height, width);
    seq(height * width, k => NeighborTask(k / width, k % width, At(rows, height, width, k / width, k % width), get))
  }

  /** Every item is a cell inside the grid, holding that cell's state. */
  lemma ItemIsCell(rows: Rows, height: int, width: int, k: int)
    requires Shaped(rows, height, width) && height > 0 && width > 0
    requires 0 <= k < height * width
    ensures var item := CellItems(rows, height, width)[k];
      0 <= item.y < height && 0 <= item.x < width && item.state == rows[item.y][item.x]
  {
    var item := CellItems(rows, height, width)[k];
    Arith.ItemCell(k, height, width);
  }

  /** Every cell is enqueued: cell (y, x) is item `y * width + x`. Together with
      `ItemIsCell` this makes the items and the cells correspond one to one. */
  lemma CellIsItem(rows: Rows, height: int, width: int, y: int, x: int, k: int)
    requires Shaped(rows, height, width) && height > 0 && width > 0
    requires 0 <= y < height && 0 <= x < width
    requires k == y * width + x
    ensures 0 <= k < height * width
    ensures CellItems(rows, height, width)[k].y == y && CellItems(rows, height, width)[k].x == x
  {
    Arith.RowMajorBounds(y, x, height, width);
    Arith.RowMajor(y, x, width);
  }

  /** In `simulation_pipeline`, the orchestrator walks the grid row by row and enqueues one work item
      per cell. */
  method EnqueueCells(grid: Grid) returns (inQueue: seq<NeighborTask>)
    requires grid.Valid() && grid.height > 0 && grid.width > 0
    ensures inQueue == CellItems(grid.rows, grid.height, grid.width)
  {
    var height, width := grid.height, grid.width;
    ghost var all := CellItems(grid.rows, height, width);
    var get := Accessor(grid.rows, height, width);
    inQueue := [];
    for y := 0 to height
      invariant |inQueue| == y * width
      invariant inQueue == all[..y * width]
    {
      Arith.MulMonotone(y + 1, height, width);
      for x := 0 to width
        invariant |inQueue| == y * width + x
        invariant inQueue == all[..y * width + x]
      {
        var state := grid.Get(y, x);
        Arith.RowMajor(y, x, width);
        assert all[y * width + x] == NeighborTask(y, x, state, get);
        assert all[..y * width + x + 1] == all[..y * width + x] + [all[y * width + x]];
        inQueue := inQueue + [NeighborTask(y, x, state, get)];
      }
      assert (y + 1) * width == y * width + width;
    }
    assert all[..height * width] == all;
  }

  /** `StoppableWorker.run` seen sequentially: the stage applies its transform to each
      item of its input queue and puts the result on its output queue, in queue order. */
  method RunStage<A, B>(transform: A -> B, inQueue: seq<A>) returns (outQueue: seq<B>)
    ensures |outQueue| == |inQueue|
    ensures forall k :: 0 <= k < |inQueue| ==> outQueue[k] == transform(inQueue[k])
  {
    outQueue := [];
    for k := 0 to |inQueue|
      invariant |outQueue| == k
      invariant forall i :: 0 <= i < k ==> outQueue[i] == transform(inQueue[i])
    {
      var result := transform(inQueue[k]);
      outQueue := outQueue + [result];
    }
  }

  /** What reaches the output queue: item `k` after both stages. */
  function Updates(rows: Rows, height: int, width: int): (updates: seq<CellUpdate>)
    requires Shaped(rows, height, width) && height > 0 && width > 0
    ensures |updates| == height * width
  {
    var items := CellItems(rows, height, width);
    seq(height * width, k requires 0 <= k < height * width => GameLogicThread(CountNeighborsThread(items[k])))
  }

  /** Every update on the output queue is a success, and it sets its cell to that cell
      of the next generation. */
  lemma UpdateIsNextCell(rows: Rows, height: int, width: int, k: int)
    requires Shaped(rows, height, width) && height > 0 && width > 0
    requires 0 <= k < height * width
    ensures var u := Updates(rows, height, width)[k];
      0 <= u.y < height && 0 <= u.x < width && u.y == k / width && u.x == k % width &&
      u.next == Ok(NextGeneration(rows, height, width)[u.y][u.x])
  {
    var item := CellItems(rows, height, width)[k];
    ItemIsCell(rows, height, width, k);
    StagesCompose(item);
  }

  /** The drain order, being a permutation of the item numbers `0 .. n - 1`, has `n`
      entries, stays in range, contains every item and repeats none. */
  lemma DrainOrderCovers(order: seq<nat>, n: nat)
    requires IsDrainOrder(order, n)
    ensures |order| == n
    ensures forall i :: 0 <= i < |order| ==> order[i] < n
    ensures forall k :: 0 <= k < n ==> k in order
    ensures forall i, j :: 0 <= i < j < |order| ==> order[i] != order[j]
  {
    var all := Iota(n);
    assert |order| == |multiset(order)| == |multiset(all)| == n;
    forall i, j | 0 <= i < j < |order| ensures order[i] != order[j] {
      if order[i] == order[j] {
        var v := order[i];
        assert order == order[..j] + order[j..];
        assert v in order[..j] && v == order[j..][0];
        assert multiset(order)[v] == multiset(order[..j])[v] + multiset(order[j..])[v];
        assert multiset(all)[v] == 1 by { IotaOnce(n, v); }
        assert false;
      }
    }
    forall i | 0 <= i < |order| ensures order[i] < n {
      assert order[i] in multiset(order);
      assert order[i] in all;
    }
    forall k | 0 <= k < n ensures k in order {
      assert all[k] == k;
      assert k in multiset(all);
    }
  }

  /** One write of the drain: the cells whose item numbers have been drained hold their
      next-generation state and all others are still empty. */
  lemma DrainStep(before: Rows, target: Rows, height: int, width: int, written: seq<nat>, k: nat, v: State)
    requires Shaped(before, height, width) && Shaped(target, height, width) && height > 0 && width > 0
    requires 0 <= k < height * width
    requires v == target[k / width][k % width]
    requires forall y, x :: 0 <= y < height && 0 <= x < width ==>
      before[y][x] == if y * width + x in written then target[y][x] else Empty
    ensures 0 <= k / width < height
    ensures forall y, x :: 0 <= y < height && 0 <= x < width ==>
      Put(before, height, width, k / width, k % width, v)[y][x] ==
        if y * width + x in written + [k] then target[y][x] else Empty
  {
    var cy, cx := k / width, k % width;
    Arith.ItemCell(k, height, width);
    Arith.ModInRange(cy, height);
    Arith.ModInRange(cx, width);
    Arith.DivMod(k, width);
    var after := Put(before, height, width, cy, cx, v);
    forall y, x | 0 <= y < height && 0 <= x < width
      ensures after[y][x] == if y * width + x in written + [k] then target[y][x] else Empty
    {
      Arith.RowMajor(y, x, width);
      assert (y * width + x == k) <==> (y == cy && x == cx);
      assert (y * width + x in written + [k]) <==> (y * width + x in written || y * width + x == k);
    }
  }

  /** The output queue holds, as item `k`, the update of cell (k / width, k % width) to
      that cell of `target`. */
  ghost predicate DrainsTo(outQueue: seq<CellUpdate>, target: Rows, height: int, width: int)
    requires Shaped(target, height, width) && height > 0 && width > 0
  {
    |outQueue| == height * width &&
    forall k :: 0 <= k < |outQueue| ==>
      outQueue[k] == CellUpdate(k / width, k % width, Ok(At(target, height, width, k / width, k % width)))
  }

  /** At the end of `simulation_pipeline`, a fresh grid of the same size receives every update of the output
      queue, taken in `drainOrder`; since every cell is written exactly once, the grid
      ends equal to `target` whatever the order. */
  method DrainInto(outQueue: seq<CellUpdate>, drainOrder: seq<nat>, height: int, width: int, ghost target: Rows)
    returns (next: Grid)
    requires Shaped(target, height, width) && height > 0 && width > 0
    requires DrainsTo(outQueue, target, height, width)
    requires IsDrainOrder(drainOrder, height * width)
    ensures fresh(next) && next.Valid()
    ensures next.height == height && next.width == width
    ensures next.rows == target
  {
    DrainOrderCovers(drainOrder, height * width);
    next := new Grid(height, width);
    for i := 0 to |drainOrder|
      invariant next.Valid() && next.height == height && next.width == width
      invariant forall y, x :: 0 <= y < height && 0 <= x < width ==>
        next.rows[y][x] == if y * width + x in drainOrder[..i] then target[y][x] else Empty
    {
      var item := outQueue[drainOrder[i]];
      Arith.ItemCell(drainOrder[i], height, width);
      DrainStep(next.rows, target, height, width, drainOrder[..i], drainOrder[i], item.next.value);
      next.Set(item.y, item.x, item.next.value);
      assert drainOrder[..i + 1] == drainOrder[..i] + [drainOrder[i]];
    }
    forall y | 0 <= y < height ensures next.rows[y] == target[y] {
      forall x | 0 <= x < width ensures next.rows[y][x] == target[y][x] {
        Arith.RowMajorBounds(y, x, height, width);
        assert drainOrder[..|drainOrder|] == drainOrder;
      }
    }
  }

  /** `simulation_pipeline`: one generation. The result is a new grid of the same size
      whose every cell is the rule applied to the old cell and its neighbour count, for
      every order in which the output queue may be drained. */
  method SimulationPipeline(grid: Grid, drainOrder: seq<nat>) returns (next: Grid)
    requires grid.Valid() && grid.height > 0 && grid.width > 0
    requires IsDrainOrder(drainOrder, grid.height * grid.width)
    ensures fresh(next) && next.Valid()
    ensures next.height == grid.height && next.width == grid.width
    ensures next.rows == NextGeneration(grid.rows, grid.height, grid.width)
  {
    var height, width := grid.height, grid.width;
    var inQueue := EnqueueCells(grid);
    // in_queue.join(): stage 1 has taken every item
    var neighborsQueue := RunStage(CountNeighborsThread, inQueue);
    // neighbors_queue.join(): stage 2 has taken every item
    var outQueue := RunStage(GameLogicThread, neighborsQueue);
    OutputQueue(grid.rows, height, width, inQueue, neighborsQueue, outQueue);
    // out_queue.close(), then drain into a fresh grid of the same size
    next := DrainInto(outQueue, drainOrder, height, width, NextGeneration(grid.rows, height, width));
  }

  /** After both stages the output queue holds every cell's next-generation update. */
  lemma OutputQueue(rows: Rows, height: int, width: int, inQueue: seq<NeighborTask>,
                    neighborsQueue: seq<CountedCell>, outQueue: seq<CellUpdate>)
    requires Shaped(rows, height, width) && height > 0 && width > 0
    requires inQueue == CellItems(rows, height, width)
    requires |neighborsQueue| == |inQueue| && |outQueue| == |neighborsQueue|
    requires forall k :: 0 <= k < |inQueue| ==> neighborsQueue[k] == CountNeighborsThread(inQueue[k])
    requires forall k :: 0 <= k < |neighborsQueue| ==> outQueue[k] == GameLogicThread(neighborsQueue[k])
    ensures DrainsTo(outQueue, NextGeneration(rows, height, width), height, width)
  {
    var target := NextGeneration(rows, height, width);
    forall k | 0 <= k < |outQueue|
      ensures outQueue[k] == CellUpdate(k / width, k % width, Ok(At(target, height, width, k / width, k % width)))
    {
      UpdateIsNextCell(rows, height, width, k);
      assert outQueue[k] == Updates(rows, height, width)[k];
    }
  }
}
