/** Cell states and the Game of Life rule (`game_logic`). */
module LifeRules {
  /** The two cell states; the source spells them as the strings "*" and "-". */
  datatype State = Alive | Empty

  /** The one-character glyph a state is stored and printed as (`ALIVE`, `EMPTY`). */
  function Glyph(s: State): (c: char)
    ensures c == '*' || c == '-'
    ensures (c == '*') <==> s == Alive
  {
    match s
    case Alive => '*'
    case Empty => '-'
  }

  /** `game_logic(state, neighbors)`: an alive cell survives with two or three live
      neighbours, an empty cell becomes alive with exactly three, every other cell
      ends empty. The result is always one of the two states (by its type). */
  function GameLogic(state: State, neighbors: int): (next: State)
    ensures state == Alive ==> (next == Alive <==> 2 <= neighbors <= 3)
    ensures state == Empty ==> (next == Alive <==> neighbors == 3)
  {
    if state == Alive then
      if neighbors < 2 then Empty       // dies: too few
      else if neighbors > 3 then Empty  // dies: too many
      else state
    else
      if neighbors == 3 then Alive      // regenerates
      else state
  }

  /** The rule in its usual "B3/S23" form: alive next exactly when three neighbours
      are alive, or when the cell is alive and two are. */
  lemma GameLogicIsB3S23(state: State, neighbors: int)
    ensures GameLogic(state, neighbors) == Alive <==> neighbors == 3 || (state == Alive && neighbors == 2)
  {
  }
}
