/** The game component of src/Game.tsx as a class: its state fields, the
    click handler, the reset and the two handlers of the settings. Each
    handler performs its state writes in sequence, as the component's
    handlers do from the state of the render they were called in; each is
    proved to agree with the rules in module GameRules. */
module Game {
  import opened Types
  import opened Geometry
  import opened GameRules
  import GameConfig

  /** The settings a session starts with before the first reset. */
  const DefaultPlayers: nat := 2
  const DefaultPointCount: nat := 10

  /** The triangle scan of the click handler: for every point other than the
      two endpoints of the new edge, look up its edges to both endpoints and,
      when both are drawn and no other point lies in or on the triangle,
      record the triangle for `player`. */
  method ScanForTriangles(points: seq<Point>, edges: seq<Edge>, selectedPoint1Id: nat, selectedPoint2Id: nat, player: nat)
    returns (newTriangles: seq<Triangle>)
    requires PointsIndexed(points) && selectedPoint1Id < |points| && selectedPoint2Id < |points|
    ensures newTriangles == ClosedTriangles(points, edges, selectedPoint1Id, selectedPoint2Id, player, |points|)
  {
    newTriangles := [];
    for i := 0 to |points|
      invariant newTriangles == ClosedTriangles(points, edges, selectedPoint1Id, selectedPoint2Id, player, i)
    {
      var pointId := points[i].id;
      if pointId != selectedPoint1Id && pointId != selectedPoint2Id {
        var edgeToSelectedPoint1 := HasEdge(edges, selectedPoint1Id, pointId);
        var edgeToSelectedPoint2 := HasEdge(edges, selectedPoint2Id, pointId);
        if edgeToSelectedPoint1 && edgeToSelectedPoint2 {
          var containsOtherPoint := ContainsOtherPoint(points, pointId, selectedPoint1Id, selectedPoint2Id);
          if !containsOtherPoint {
            newTriangles := newTriangles + [Triangle(pointId, selectedPoint1Id, selectedPoint2Id, player)];
          }
        }
      }
    }
  }

  class Session {
    var numPlayers: nat
    var numPoints: nat
    var points: seq<Point>
    var edges: seq<Edge>
    var triangles: seq<Triangle>
    var selectedPointsIds: seq<nat>
    var currentPlayer: nat
    var scores: seq<nat>
    var errorMessage: ErrorMessage
    var gameOver: bool

    /** The session's fields as a state value. */
    ghost function Snapshot(): State
      reads this
    {
      State(numPlayers, numPoints, points, edges, triangles, selectedPointsIds,
            currentPlayer, scores, errorMessage, gameOver)
    }

    ghost predicate Valid()
      reads this
    {
      ValidState(Snapshot())
    }

    /** A session as first shown: the default settings, then the reset the
        component performs once mounted, on the generated points. */
    constructor (initialPoints: seq<Point>)
      requires GeneratedPoints(initialPoints, DefaultPointCount)
      ensures Valid() && Snapshot() == Initial(DefaultPlayers, DefaultPointCount, initialPoints)
    {
      numPlayers := DefaultPlayers;
      numPoints := DefaultPointCount;
      points := [];
      edges := [];
      triangles := [];
      selectedPointsIds := [];
      currentPlayer := 0;
      scores := seq(DefaultPlayers, _ => 0);
      errorMessage := NoError;
      gameOver := false;
      new;
      InitializeGame(initialPoints);
    }

    /** Restart: fresh generated points, no edges, no triangles, nothing
        selected, player 0 to move, all scores zero, no message, not over. */
    method InitializeGame(newPoints: seq<Point>)
      requires GameConfig.MinPlayers <= numPlayers <= GameConfig.MaxPlayers
      requires GameConfig.MinPointCount <= numPoints <= GameConfig.MaxPointCount
      requires GeneratedPoints(newPoints, numPoints)
      modifies this
      ensures Snapshot() == Initial(old(numPlayers), old(numPoints), newPoints)
      ensures Valid()
    {
      points := newPoints;
      edges := [];
      triangles := [];
      selectedPointsIds := [];
      currentPlayer := 0;
      scores := seq(numPlayers, _ => 0);
      errorMessage := NoError;
      gameOver := false;
      InitialIsValid(numPlayers, numPoints, newPoints);
    }

    /** A new point count is saturated to the configured bounds and the game
        restarts on that many generated points. */
    method HandleNumberOfPointsChange(newNumberOfPoints: int, newPoints: seq<Point>)
      requires GameConfig.MinPlayers <= numPlayers <= GameConfig.MaxPlayers
      requires GeneratedPoints(newPoints, ClampPointCount(newNumberOfPoints))
      modifies this
      ensures Snapshot() == Initial(old(numPlayers), ClampPointCount(newNumberOfPoints), newPoints)
      ensures Valid()
    {
      numPoints := ClampPointCount(newNumberOfPoints);
      InitializeGame(newPoints);
    }

    /** A new player count restarts the game with that many zero scores. */
    method HandleNumberOfPlayersChange(newNumberOfPlayers: nat, newPoints: seq<Point>)
      requires GameConfig.MinPlayers <= newNumberOfPlayers <= GameConfig.MaxPlayers
      requires GameConfig.MinPointCount <= numPoints <= GameConfig.MaxPointCount
      requires GeneratedPoints(newPoints, numPoints)
      modifies this
      ensures Snapshot() == Initial(newNumberOfPlayers, old(numPoints), newPoints)
      ensures Valid()
    {
      numPlayers := newNumberOfPlayers;
      scores := seq(newNumberOfPlayers, _ => 0);
      InitializeGame(newPoints);
    }

    /** A click on point `pointId`: ignored once the game is over; otherwise
        it deselects, selects, or forms a pair that is rejected (already
        joined, or crossing an edge) or drawn, scoring the triangles the new
        edge closes or passing the turn, and recomputing the game-over flag. */
    method HandlePointClick(pointId: nat)
      requires Valid() && pointId < |points|
      modifies this
      ensures Snapshot() == Click(old(Snapshot()), pointId)
      ensures Valid()
    {
      ghost var before := Snapshot();
      ClickPreservesValid(before, pointId);
      if gameOver {
        assert Snapshot() == before;
        return;
      }
      errorMessage := NoError;
      if pointId in selectedPointsIds {
        selectedPointsIds := [];
        assert Snapshot() == before.(errorMessage := NoError, selectedPointsIds := []);
        return;
      }
      var newSelectedPointIds := selectedPointsIds + [pointId];
      selectedPointsIds := newSelectedPointIds;
      if |newSelectedPointIds| != 2 {
        assert Snapshot() == before.(errorMessage := NoError, selectedPointsIds := newSelectedPointIds);
      } else {
        var selectedPoint1Id, selectedPoint2Id := newSelectedPointIds[0], newSelectedPointIds[1];
        var alreadyExists := HasEdge(edges, selectedPoint1Id, selectedPoint2Id);
        if alreadyExists {
          errorMessage := EdgeAlreadyExists;
          selectedPointsIds := [];
          assert Snapshot() == before.(errorMessage := EdgeAlreadyExists, selectedPointsIds := []);
          return;
        }

        var intersecting := CrossesSomeEdge(points, edges, selectedPoint1Id, selectedPoint2Id);
        if intersecting {
          errorMessage := EdgeIntersects;
          selectedPointsIds := [];
          assert Snapshot() == before.(errorMessage := EdgeIntersects, selectedPointsIds := []);
          return;
        }

        ClickAcceptedIsDrawEdge(before, pointId);
        ghost var pending := Snapshot();
        DrawEdgeIgnoresSelection(before, pending, selectedPoint1Id, selectedPoint2Id);
        DrawSelectedEdge(selectedPoint1Id, selectedPoint2Id);
      }
    }

    /** The accepted branch of a click: append the edge for the player to
        move, score the triangles it closes or pass the turn, empty the
        selection and set the flag when no legal edge is left. */
    method DrawSelectedEdge(selectedPoint1Id: nat, selectedPoint2Id: nat)
      requires selectedPoint1Id < |points| && selectedPoint2Id < |points| && PointsIndexed(points)
      requires EdgesInRange(points, edges) && currentPlayer < |scores| && numPlayers > 0
      requires !gameOver && errorMessage == NoError
      modifies this
      ensures Snapshot() == DrawEdge(old(Snapshot()), selectedPoint1Id, selectedPoint2Id)
    {
      ghost var before := Snapshot();
      var newEdge := Edge(selectedPoint1Id, selectedPoint2Id, currentPlayer);
      var newEdges := edges + [newEdge];
      edges := newEdges;

      var newTriangles := ScanForTriangles(points, newEdges, selectedPoint1Id, selectedPoint2Id, currentPlayer);

      if |newTriangles| > 0 {
        triangles := triangles + newTriangles;
        var updatedScores := scores;
        updatedScores := updatedScores[currentPlayer := updatedScores[currentPlayer] + |newTriangles|];
        scores := updatedScores;
      } else {
        currentPlayer := (currentPlayer + 1) % numPlayers;
      }

      selectedPointsIds := [];

      var canDrawMore := CanDrawMoreEdges(points, newEdges);
      if !canDrawMore {
        gameOver := true;
      }
    }
  }
}
