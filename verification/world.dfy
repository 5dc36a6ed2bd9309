/**
 The collaborators the player logic reads from the world: board geometry and the
 registry of organisms by cell. Both are external to the player module and are
 modelled abstractly, as a board of functions and a finite map.
 */
module World {
  import opened Wrappers

  /** A board cell. */
  datatype Point = Point(x: int, y: int)

  /** Identifies one organism registered in the world. */
  type OrganismId = nat

  /**
   The board as the player sees it: how many direction indices there are, the
   neighbour of a cell in a direction (`None` when it is off the board), and
   whether a cell is a legal place to stand.
   */
  datatype Board = Board(
    neighbours: nat,
    resolve: (Point, nat) -> Option<Point>,
    legal: Point -> bool)

  /** The world's organism index: the organisms registered at each cell. */
  type Registry = map<Point, seq<OrganismId>>

  /** The organisms registered at `c`; a cell absent from the index has none. */
  function Occupants(reg: Registry, c: Point): seq<OrganismId>
  {
    if c in reg then reg[c] else []
  }
}
