# Triangulate: a verified model of the game engine

Triangulate is a browser game for two to four players on a set of randomly
placed points. The players take turns. On a turn, a player selects two points
and joins them with a straight edge, provided that:

- the two points are not already joined;
- the new edge does not cross an existing edge.

An edge that closes a triangle earns the player one point per triangle closed.
The triangle must be empty: no other point may lie inside it or on its
boundary. A player who closes a triangle keeps the turn; otherwise the turn
passes to the next player. The game ends when no legal edge is left, and the
players with the highest score win.

This project models the engine of the game in Dafny:

- `Types` and `GameConfig` hold the point, edge and triangle records and the
  configuration constants.
- `Geometry` holds the orientation determinant, the closed point-in-triangle
  test, the strict segment-crossing test, and the terminal test
  `CanDrawMoreEdges`. The terminal test is the source's double loop over point
  pairs, proved equal to an existential specification.
- `GameRules` describes a session as a value (`State`), with:
  - the invariant it keeps between clicks (`ValidState`);
  - the effect of one click (`Click`, with its accepted branch `DrawEdge`);
  - the reset (`Initial`);
  - the point-count clamp;
  - the winner outcome (`GetWinner`).

  Lemmas state what each click does and prove that the invariant is preserved.
- `Game` holds the component itself as the class `Session`, whose fields are
  the component's state. Its handlers update these fields in sequence, in the
  order of the source's state writes. Each handler is proved to produce the
  state that `GameRules` prescribes. The triangle scan is a loop proved equal
  to the recursive specification `ClosedTriangles`.

Coordinates are exact reals, so every orientation test is exact. The
component writes its state from the snapshot of the render in which the
handler was called, and the last write to a field wins. The model therefore
treats a click as one method that assigns the fields in order.

Four consequences of the code, as written, are worth knowing. One might
expect a game-over flag that holds iff no legal edge remains, a triangle that
counts as empty when its open interior holds no point, a clamped player
count, and only triangles of positive area; the model follows the code:

- A session on a single point never ends. `MinPointCount` is 1, so such a
  session can occur. No edge can be drawn on it, and the game-over flag is
  recomputed only after an edge is drawn (`GameRules.SinglePointNeverEnds`).
  Between clicks the invariant therefore reads: the game is over iff there
  are at least two points and no legal edge remains.
- A triangle is empty when no other point passes the closed containment
  test. So a point lying on a triangle's side prevents the triangle from
  scoring, not only a point strictly inside it.
- The player count is not clamped by the handler. It is a precondition
  (2 to 4, the values the selector offers), while the point count is
  saturated to 1..30.
- Flat triangles score. Segments that touch along a line do not cross, so on
  three collinear points with 0-1 and 1-2 drawn, the edge 2-0 lying over both
  is legal (`GameRules.CollinearLongEdgeLegal`). Drawing it records the
  zero-area triangle on the three points (`GameRules.CollinearTriangleScored`).
  For such a flat triangle the closed containment test accepts every point of
  its line, even one beyond all three vertices
  (`Geometry.FlatTriangleContainsItsLine`).

## Model

| member | source | states |
|---|---|---|
| Geometry.Determinate | src/utils/geometry.tsx:3-5 | twice the signed area of three points: the cross product of the second and third points taken relative to the first |
| Geometry.IsPointInTriangle | src/utils/geometry.tsx:23-37 | the closed test: false only when the point sees one side turning strictly one way and another side strictly the other way |
| Geometry.DoLinesIntersect | src/utils/geometry.tsx:39-44 | the strict test: each segment has the two endpoints of the other strictly on opposite sides of its line |
| Geometry.DeterminateSwap | src/utils/geometry.tsx:3-5 | swapping the last two points negates the signed area |
| Geometry.DeterminateRotate | src/utils/geometry.tsx:3-5 | a cyclic rotation of the three points keeps the signed area |
| Geometry.DeterminateDegenerate | src/utils/geometry.tsx:3-5 | two coinciding points give signed area zero |
| Geometry.VertexIsInTriangle | src/utils/geometry.tsx:29-36 | a point at a vertex's position counts as inside the triangle |
| Geometry.PointInTriangleOrderFree | src/utils/geometry.tsx:29-36 | the containment test gives the same answer for all six orders of the vertices |
| Geometry.PointInTriangleIsInClosedTriangle | src/utils/geometry.tsx:23-37 | for a non-degenerate triangle, a point the test accepts is a convex combination of the vertices |
| Geometry.ClosedTriangleIsPointInTriangle | src/utils/geometry.tsx:23-37 | every convex combination of the vertices passes the test |
| Geometry.PointInTriangleIffConvexCombination | src/utils/geometry.tsx:23-37 | for a non-degenerate triangle, the test holds iff the point lies in the closed triangle |
| Geometry.IntersectingSegmentsCrossProperly | src/utils/geometry.tsx:39-44 | a reported crossing means non-parallel segments that meet at an interior point of both |
| Geometry.ProperCrossingIntersects | src/utils/geometry.tsx:39-44 | non-parallel segments that meet at an interior point of both are reported as crossing |
| Geometry.DoLinesIntersectIffCrossProperly | src/utils/geometry.tsx:39-44 | the crossing test holds iff the segments meet at an interior point of both, strictly transversally |
| Geometry.SharedEndpointDoesNotIntersect | src/utils/geometry.tsx:41-42 | segments sharing an endpoint position never count as crossing |
| Geometry.FlatTriangleContainsItsLine | src/utils/geometry.tsx:23-37 | for three vertices on one horizontal line, every point of that line passes the closed test |
| Geometry.CollinearSegmentsDoNotIntersect | src/utils/geometry.tsx:39-44 | segments on one horizontal line never cross, even when they overlap |
| Geometry.DoLinesIntersectSymmetric | src/utils/geometry.tsx:39-44 | the crossing test is unchanged by swapping the segments or reversing either of them |
| Geometry.CanDrawMoreEdges | src/utils/geometry.tsx:46-69 | the scan returns true iff some pair i < j is not joined in either orientation and crosses no edge |
| GameRules.CanDrawMoreWithoutEdges | src/utils/geometry.tsx:47-65 | with at least two points and no edge, a legal edge exists |
| GameRules.CannotDrawWithFewPoints | src/utils/geometry.tsx:47-48 | with fewer than two points, no legal edge exists |
| GameRules.ValidState | src/Game.tsx:15-31 | the session invariant over the state fields: settings in range, generated points, in-range, loop-free, distinct and non-crossing edges, well-formed distinct triangles, scores equal to the triangles owned, a current player in range, at most one point pending, and the flag set iff there are two points and no legal edge |
| GameRules.ClosedTriangles | src/Game.tsx:102-135 | the triangles the scan over the first n points records, in scan order, one for each third point that closes an empty triangle with the new edge |
| GameRules.Click | src/Game.tsx:65-152 | the handler's writes, made from the pre-click snapshot, with the last write to a field winning |
| GameRules.DrawEdge | src/Game.tsx:98-150 | the accepted branch: append the edge, record and score the closed triangles or pass the turn, clear the selection and message, and set the flag iff no legal edge remains |
| GameRules.Initial | src/Game.tsx:46-58 | the reset state: given points, no edges or triangles, nothing selected, player 0 to move, all scores zero, no message, not over |
| GameRules.ClosedTrianglesSpec | src/Game.tsx:102-135 | the scan records exactly the points that close an empty triangle with the new edge, once each, in increasing order, for the given player |
| GameRules.ClickAfterGameOver | src/Game.tsx:65-66 | once the game is over, a click changes nothing |
| GameRules.ClickDeselects | src/Game.tsx:67-71 | clicking the pending point empties the selection, clears the message and leaves the board unchanged |
| GameRules.ClickSelects | src/Game.tsx:72-74 | with nothing pending, a click selects the point and leaves the board unchanged |
| GameRules.ClickRejects | src/Game.tsx:76-96 | a pair that is already joined, or that crosses an edge, is rejected with the matching message; the selection is emptied and the board is unchanged |
| GameRules.ClickDrawsEdge | src/Game.tsx:98-100 | an accepted pair appends exactly one edge between two distinct points, owned by the player to move |
| GameRules.ClickScoresEmptyTriangles | src/Game.tsx:102-138 | every recorded triangle has the new edge as a side and both other sides drawn, holds no other point, and belongs to the mover; every such triangle is recorded once; earlier triangles are kept |
| GameRules.ClickTurnLaw | src/Game.tsx:137-144 | k > 0 triangles add k to the mover's score and keep the turn; none passes the turn cyclically and keeps the scores |
| GameRules.ClickGameOverLaw | src/Game.tsx:146-150 | the flag, once set, stays set; after an accepted edge it holds iff no legal edge remains |
| GameRules.NewEdgeKeepsEdgeInvariant | src/Game.tsx:76-100 | appending an accepted edge keeps the edges in range, free of self-loops, pairwise distinct and non-crossing |
| GameRules.NewTrianglesKeepTriangleInvariant | src/Game.tsx:102-138 | the recorded triangles stay well formed and pairwise distinct after the new ones are appended |
| GameRules.DrawEdgeScoresMatch | src/Game.tsx:137-141 | each player's score stays the number of triangles owned by that player |
| GameRules.DrawEdgePreservesValid | src/Game.tsx:98-150 | drawing an accepted edge keeps the session invariant |
| GameRules.ClickPreservesValid | src/Game.tsx:65-152 | every click keeps the session invariant (edges distinct and non-crossing, scores match triangles, at most one point pending, flag iff no legal edge) |
| GameRules.InitialIsValid | src/Game.tsx:46-58 | a reset on generated points yields a session satisfying the invariant |
| GameRules.SinglePointNeverEnds | src/Game.tsx:146-150 | on a single point no edge is legal, yet the flag is never set |
| GameRules.CollinearLongEdgeLegal | src/Game.tsx:76-96 | on three collinear points with 0-1 and 1-2 drawn, the overlapping edge 2-0 is neither a duplicate nor a crossing |
| GameRules.CollinearTriangleScored | src/Game.tsx:102-135 | drawing that edge records the zero-area triangle on the three points |
| GameRules.FlatTriangleContainsLine | src/utils/geometry.tsx:29-36 | for that flat triangle the closed test accepts a point of the line beyond all three vertices |
| GameRules.FirstMove | src/Game.tsx:65-152 | on three points, player 0 joining 0 and 1 closes nothing and passes the turn |
| GameRules.SecondMove | src/Game.tsx:65-152 | player 1 joining 1 and 2 closes nothing and passes the turn back |
| GameRules.ThirdMove | src/Game.tsx:65-152 | player 0 joining 2 and 0 scores the triangle, keeps the turn and ends the game |
| GameRules.ThreePointGame | src/Game.tsx:65-160 | the three-point game ends after three moves with player 0 the single winner, 1 to 0 |
| GameRules.SquareRejections | src/Game.tsx:76-96 | on a square with one diagonal drawn, the other diagonal is rejected as crossing and the drawn one as a duplicate |
| GameRules.ClampPointCount | src/Game.tsx:42 | the requested count saturated to 1..30: kept when in range, else the nearer bound |
| GameRules.MaxScore | src/Game.tsx:155 | the result bounds every score and is attained by one of them |
| GameRules.IndicesWithScore | src/Game.tsx:156 | exactly the indices with the given score, in increasing order; all of them iff every score equals it |
| GameRules.Winners | src/Game.tsx:155-156 | the indices of every score equal to the maximum, in player order |
| GameRules.GetWinner | src/Game.tsx:154-160 | the banner's outcome: a tie when every player wins, one winner when one does, otherwise a partial tie listing the winners |
| GameRules.WinnersAreTopScorers | src/Game.tsx:155-156 | the winners are exactly the players no one beats, in player order, and there is at least one |
| GameRules.GetWinnerOutcome | src/Game.tsx:154-160 | tie iff every player has a top score; a single winner iff one player is strictly ahead of all others; otherwise a partial tie listing every top scorer |
| Game.ScanForTriangles | src/Game.tsx:102-135 | the loop records the triangles of `ClosedTriangles` over all points |
| Game.Session.constructor | src/Game.tsx:15-31 | a new session has the default settings, reset on the generated points |
| Game.Session.InitializeGame | src/Game.tsx:46-58 | the fields become the reset state, which satisfies the invariant |
| Game.Session.HandleNumberOfPointsChange | src/Game.tsx:41-44 | the clamped count is stored and the game restarts on that many points |
| Game.Session.HandleNumberOfPlayersChange | src/Game.tsx:35-39 | the player count is stored and the game restarts with that many zero scores |
| Game.Session.HandlePointClick | src/Game.tsx:65-152 | the fields after the handler are `Click` of the fields before, and the invariant still holds |
| Game.Session.DrawSelectedEdge | src/Game.tsx:98-150 | the fields after the accepted branch are `DrawEdge` of the fields before |

## Left out

- Random point generation (src/utils/geometry.tsx:7-21) is replaced by the
  precondition `GeneratedPoints`. It requires `count` points whose identities
  are their indices and which are pairwise at least 40 apart. The canvas
  margins of the generated coordinates are not modelled. The generator's
  unbounded rejection loop is not modelled either.
- Floating-point rounding: coordinates are exact reals.
- Canvas sizing from the window width (src/Game.tsx:47-49): the canvas size
  only feeds the generator.
- Rendering, colours, player names and message strings (src/Game.tsx:7-12,
  162 onward). The messages are the datatype `ErrorMessage` and the banner is
  the datatype `Outcome`.
- The timing of the re-initialising effect (src/Game.tsx:60-63):
  - Game.Session.HandleNumberOfPointsChange and
    Game.Session.HandleNumberOfPlayersChange model the net effect once the
    effect has run: a reset on the new setting.
  - The handler's own reset call reads the settings of the previous render,
    and its writes are overwritten by the effect's reset, so it is not
    modelled separately.
- Game.Session.HandleNumberOfPlayersChange: the player count is required to be
  2 to 4, the values the selector offers. Nothing in the handler clamps it.
- GameRules.ClampPointCount: the input is an integer. A non-numeric or
  fractional value from the number field is not modelled.
- The formatting and build configuration (prettier.config.js) has no logic.
