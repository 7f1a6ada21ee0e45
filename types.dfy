/** The game's configuration constants (src/config/gameConfig.ts) and the
    supported player counts (the player table and selector of src/Game.tsx). */
module GameConfig {
  /** Bounds on the number of points a game is played on. */
  const MinPointCount: int := 1
  const MaxPointCount: int := 30
  /** Minimum distance between two generated points. */
  const MinPointDistance: int := 40
  const DefaultCanvasWidth: int := 800
  const DefaultCanvasHeight: int := 500

  /** The player table holds four players; the selector offers 2, 3 and 4. */
  const MinPlayers: nat := 2
  const MaxPlayers: nat := 4
}

/** The records shared by the geometry helpers and the game (src/types/index.ts). */
module Types {
  /** A point with its identity and canvas coordinates (exact reals). */
  datatype Point = Point(id: nat, x: real, y: real)

  /** An edge between two point identities, drawn by `player`. */
  datatype Edge = Edge(point1Id: nat, point2Id: nat, player: nat)

  /** A scored triangle: `point1Id` is the third vertex, `point2Id` and
      `point3Id` the endpoints of the edge that completed it. */
  datatype Triangle = Triangle(point1Id: nat, point2Id: nat, point3Id: nat, player: nat)
}
