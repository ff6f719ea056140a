/** `count_neighbors`: how many of the eight cells around (y, x) are alive, read through
    an accessor (in the simulation, the previous generation's `grid.get`). */
module Neighbors {
  import opened LifeRules
  import Grids
  import Arith

  /** The (dy, dx) offsets the source visits, in its order: N, NE, E, SE, S, SW, W, NW. */
  const Offsets: seq<(int, int)> := [(-1, 0), (-1, 1), (0, 1), (1, 1), (1, 0), (1, -1), (0, -1), (-1, -1)]

  /** The list `neighbor_states`: the accessor applied at each offset, in order. */
  function NeighborStates(y: int, x: int, get: (int, int) -> State): (states: seq<State>)
    ensures |states| == |Offsets|
    ensures forall k :: 0 <= k < |Offsets| ==> states[k] == get(y + Offsets[k].0, x + Offsets[k].1)
  {
    [get(y - 1, x + 0), get(y - 1, x + 1), get(y + 0, x + 1), get(y + 1, x + 1),
     get(y + 1, x + 0), get(y + 1, x - 1), get(y + 0, x - 1), get(y - 1, x - 1)]
  }

  /** How many states in `s` are `Alive`. */
  function CountAlive(s: seq<State>): (n: nat)
    ensures n <= |s|
    ensures n == 0 <==> forall k :: 0 <= k < |s| ==> s[k] == Empty
  {
    if s == [] then 0
    else CountAlive(s[..|s| - 1]) + (if s[|s| - 1] == Alive then 1 else 0)
  }

  /** The number of alive states is the multiplicity of `Alive` in the multiset of
      states, so it does not depend on the order in which they are visited. */
  lemma {:induction false} CountAliveIsMultiplicity(s: seq<State>)
    ensures CountAlive(s) == multiset(s)[Alive]
  {
    if s != [] {
      var init := s[..|s| - 1];
      CountAliveIsMultiplicity(init);
      assert s == init + [s[|s| - 1]];
      assert multiset(s) == multiset(init) + multiset{s[|s| - 1]};
    }
  }

  /** Counting is permutation-invariant over the visited states. */
  lemma CountAlivePermutation(s: seq<State>, t: seq<State>)
    requires multiset(s) == multiset(t)
    ensures CountAlive(s) == CountAlive(t)
  {
    CountAliveIsMultiplicity(s);
    CountAliveIsMultiplicity(t);
  }

  /** `count_neighbors(y, x, get)` as a value: the number of alive cells among the
      eight neighbours, between 0 and 8. */
  function NeighborCount(y: int, x: int, get: (int, int) -> State): (n: nat)
    ensures n <= 8
  {
    CountAlive(NeighborStates(y, x, get))
  }

  /** `count_neighbors`, counting up in a loop over the eight states as the source does. */
  method CountNeighbors(y: int, x: int, get: (int, int) -> State) returns (count: nat)
    ensures count == NeighborCount(y, x, get)
    ensures count <= 8
  {
    var neighborStates := [get(y - 1, x + 0), get(y - 1, x + 1), get(y + 0, x + 1), get(y + 1, x + 1),
                           get(y + 1, x + 0), get(y + 1, x - 1), get(y + 0, x - 1), get(y - 1, x - 1)];
    count := 0;
    for k := 0 to |neighborStates|
      invariant count == CountAlive(neighborStates[..k])
    {
      assert neighborStates[..k + 1][..k] == neighborStates[..k];
      if neighborStates[k] == Alive {
        count := count + 1;
      }
    }
    assert neighborStates[..|neighborStates|] == neighborStates;
  }

  /** The count depends only on what the accessor returns at the eight offsets. */
  lemma NeighborCountLocal(y: int, x: int, get: (int, int) -> State, get': (int, int) -> State)
    requires forall k :: 0 <= k < |Offsets| ==>
      get(y + Offsets[k].0, x + Offsets[k].1) == get'(y + Offsets[k].0, x + Offsets[k].1)
    ensures NeighborCount(y, x, get) == NeighborCount(y, x, get')
  {
    assert NeighborStates(y, x, get) == NeighborStates(y, x, get');
  }

  /** The cell itself is never read: changing the accessor at (y, x) alone, or anywhere
      outside the eight neighbours, leaves the count as it was. */
  lemma NeighborCountIgnoresCenter(y: int, x: int, get: (int, int) -> State, get': (int, int) -> State)
    requires forall a, b :: (a, b) != (y, x) ==> get(a, b) == get'(a, b)
    ensures NeighborCount(y, x, get) == NeighborCount(y, x, get')
  {
    forall k | 0 <= k < |Offsets|
      ensures get(y + Offsets[k].0, x + Offsets[k].1) == get'(y + Offsets[k].0, x + Offsets[k].1)
    {
      assert Offsets[k] != (0, 0);
    }
    NeighborCountLocal(y, x, get, get');
  }

  /** On a grid, `count_neighbors` reads through the grid's toroidal `get`: shifting
      the cell by whole periods gives the same count. */
  lemma NeighborCountWraps(rows: Grids.Rows, height: int, width: int, y: int, x: int, k: int, m: int)
    requires Grids.Shaped(rows, height, width) && height > 0 && width > 0
    ensures NeighborCount(y + k * height, x + m * width, Grids.Accessor(rows, height, width)) ==
            NeighborCount(y, x, Grids.Accessor(rows, height, width))
  {
    var get := Grids.Accessor(rows, height, width);
    forall d | 0 <= d < |Offsets|
      ensures get(y + k * height + Offsets[d].0, x + m * width + Offsets[d].1) ==
              get(y + Offsets[d].0, x + Offsets[d].1)
    {
      var (dy, dx) := Offsets[d];
      assert y + k * height + dy == (y + dy) + k * height;
      assert x + m * width + dx == (x + dx) + m * width;
      Grids.AtWraps(rows, height, width, y + dy, x + dx, k, m);
    }
    assert NeighborStates(y + k * height, x + m * width, get) == NeighborStates(y, x, get);
  }
}
