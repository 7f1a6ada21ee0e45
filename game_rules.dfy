/** The rules of a game session (src/Game.tsx) as functions over a state
    value: the session invariant, the effect of one click, the reset, the
    point-count clamp and the winner outcome. The class in module Game
    performs these steps in place and is proved to agree with them. */
module GameRules {
  import opened Types
  import opened Geometry
  import GameConfig

  /** The message shown under the canvas. */
  datatype ErrorMessage = NoError | EdgeAlreadyExists | EdgeIntersects

  /** Everything a session holds (src/Game.tsx:15-31, less canvas size). */
  datatype State = State(
    numPlayers: nat,
    numPoints: nat,
    points: seq<Point>,
    edges: seq<Edge>,
    triangles: seq<Triangle>,
    selectedPointsIds: seq<nat>,
    currentPlayer: nat,
    scores: seq<nat>,
    errorMessage: ErrorMessage,
    gameOver: bool)

  // ---------------------------------------------------------------------
  // Points

  /** Every point's identity is its index. */
  predicate PointsIndexed(points: seq<Point>)
  {
    forall i :: 0 <= i < |points| ==> points[i].id == i
  }

  function SquaredDistance(p: Point, q: Point): real
  {
    (p.x - q.x) * (p.x - q.x) + (p.y - q.y) * (p.y - q.y)
  }

  /** Any two points are at least the minimum distance apart. */
  predicate Separated(points: seq<Point>)
  {
    forall i, j :: 0 <= i < j < |points| ==>
      SquaredDistance(points[i], points[j]) >= (GameConfig.MinPointDistance * GameConfig.MinPointDistance) as real
  }

  /** What the random point generator hands over: `count` points with
      identities 0 .. count - 1, pairwise at least the minimum distance apart. */
  predicate GeneratedPoints(points: seq<Point>, count: nat)
  {
    |points| == count && PointsIndexed(points) && Separated(points)
  }

  // ---------------------------------------------------------------------
  // Edges

  predicate NoSelfLoops(edges: seq<Edge>)
  {
    forall k :: 0 <= k < |edges| ==> edges[k].point1Id != edges[k].point2Id
  }

  /** No two edges join the same unordered pair. */
  predicate EdgesDistinct(edges: seq<Edge>)
  {
    forall k, l :: 0 <= k < l < |edges| ==> !Joins(edges[l], edges[k].point1Id, edges[k].point2Id)
  }

  predicate EdgeInRange(points: seq<Point>, e: Edge)
  {
    e.point1Id < |points| && e.point2Id < |points|
  }

  /** The segments of two edges cross strictly. */
  predicate EdgesCross(points: seq<Point>, e: Edge, f: Edge)
    requires EdgeInRange(points, e) && EdgeInRange(points, f)
  {
    DoLinesIntersect(points[e.point1Id], points[e.point2Id], points[f.point1Id], points[f.point2Id])
  }

  /** No two edges cross. */
  predicate NoCrossings(points: seq<Point>, edges: seq<Edge>)
    requires EdgesInRange(points, edges)
  {
    forall k, l :: 0 <= k < l < |edges| ==> !EdgesCross(points, edges[k], edges[l])
  }

  /** The edge set is a plane straight-line graph on the points, each edge
      owned by a player of the game. */
  predicate EdgeInvariant(points: seq<Point>, edges: seq<Edge>, numPlayers: nat)
  {
    EdgesInRange(points, edges) && NoSelfLoops(edges) && EdgesDistinct(edges) &&
    NoCrossings(points, edges) &&
    (forall k :: 0 <= k < |edges| ==> edges[k].player < numPlayers)
  }

  // ---------------------------------------------------------------------
  // Triangles

  predicate TriangleInRange(points: seq<Point>, t: Triangle)
  {
    t.point1Id < |points| && t.point2Id < |points| && t.point3Id < |points|
  }

  /** All three sides of `t` are drawn edges. */
  predicate SidesDrawn(edges: seq<Edge>, t: Triangle)
  {
    HasEdge(edges, t.point1Id, t.point2Id) && HasEdge(edges, t.point1Id, t.point3Id) &&
    HasEdge(edges, t.point2Id, t.point3Id)
  }

  /** Some point other than a, b and c (by identity) passes the closed
      containment test for the triangle abc. */
  predicate ContainsOtherPoint(points: seq<Point>, a: nat, b: nat, c: nat)
    requires a < |points| && b < |points| && c < |points|
  {
    exists q :: 0 <= q < |points| &&
      points[q].id != a && points[q].id != b && points[q].id != c &&
      IsPointInTriangle(points[q], points[a], points[b], points[c])
  }

  /** A scored triangle: three distinct points, all sides drawn, no other
      point in it or on its boundary, owned by a player of the game. */
  predicate WellFormedTriangle(points: seq<Point>, edges: seq<Edge>, numPlayers: nat, t: Triangle)
  {
    TriangleInRange(points, t) &&
    t.point1Id != t.point2Id && t.point1Id != t.point3Id && t.point2Id != t.point3Id &&
    SidesDrawn(edges, t) &&
    !ContainsOtherPoint(points, t.point1Id, t.point2Id, t.point3Id) &&
    t.player < numPlayers
  }

  function Corners(t: Triangle): set<nat>
  {
    {t.point1Id, t.point2Id, t.point3Id}
  }

  /** No triangle is scored twice. */
  predicate TrianglesDistinct(triangles: seq<Triangle>)
  {
    forall k, l :: 0 <= k < l < |triangles| ==> Corners(triangles[k]) != Corners(triangles[l])
  }

  predicate TriangleInvariant(points: seq<Point>, edges: seq<Edge>, numPlayers: nat, triangles: seq<Triangle>)
  {
    (forall k :: 0 <= k < |triangles| ==> WellFormedTriangle(points, edges, numPlayers, triangles[k])) &&
    TrianglesDistinct(triangles)
  }

  /** The number of triangles owned by `player`. */
  function Owned(triangles: seq<Triangle>, player: nat): nat
  {
    if |triangles| == 0 then 0
    else Owned(triangles[..|triangles| - 1], player) + (if triangles[|triangles| - 1].player == player then 1 else 0)
  }

  /** Each player's score is the number of triangles it owns. */
  predicate ScoresMatchTriangles(scores: seq<nat>, triangles: seq<Triangle>)
  {
    forall p :: 0 <= p < |scores| ==> scores[p] == Owned(triangles, p)
  }

  // ---------------------------------------------------------------------
  // The session invariant

  predicate SelectionInRange(points: seq<Point>, selected: seq<nat>)
  {
    forall i :: 0 <= i < |selected| ==> selected[i] < |points|
  }

  /** What holds of a session between two clicks. */
  ghost predicate ValidState(s: State)
  {
    GameConfig.MinPlayers <= s.numPlayers <= GameConfig.MaxPlayers &&
    GameConfig.MinPointCount <= s.numPoints <= GameConfig.MaxPointCount &&
    GeneratedPoints(s.points, s.numPoints) &&
    EdgeInvariant(s.points, s.edges, s.numPlayers) &&
    TriangleInvariant(s.points, s.edges, s.numPlayers, s.triangles) &&
    |s.scores| == s.numPlayers && ScoresMatchTriangles(s.scores, s.triangles) &&
    s.currentPlayer < s.numPlayers &&
    |s.selectedPointsIds| <= 1 && SelectionInRange(s.points, s.selectedPointsIds) &&
    (s.gameOver <==> |s.points| >= 2 && !CanDrawMore(s.points, s.edges))
  }

  // ---------------------------------------------------------------------
  // Triangles completed by a new edge

  /** Point `r` and the new edge (s1, s2) form a triangle whose two other
      sides are drawn and that holds no other point. */
  predicate ClosesEmptyTriangle(points: seq<Point>, edges: seq<Edge>, s1: nat, s2: nat, r: nat)
    requires s1 < |points| && s2 < |points| && r < |points|
  {
    r != s1 && r != s2 && HasEdge(edges, s1, r) && HasEdge(edges, s2, r) &&
    !ContainsOtherPoint(points, r, s1, s2)
  }

  /** The triangles the scan over the first `n` points records, in scan
      order, for the new edge (s1, s2) drawn by `player`. */
  function ClosedTriangles(points: seq<Point>, edges: seq<Edge>, s1: nat, s2: nat, player: nat, n: nat): seq<Triangle>
    requires s1 < |points| && s2 < |points| && n <= |points|
  {
    if n == 0 then []
    else
      ClosedTriangles(points, edges, s1, s2, player, n - 1) +
      (if ClosesEmptyTriangle(points, edges, s1, s2, n - 1) then [Triangle(n - 1, s1, s2, player)] else [])
  }

  /** The scan records exactly the points that close an empty triangle with
      the new edge, once each, in increasing order, all owned by `player`. */
  lemma {:induction false} ClosedTrianglesSpec(points: seq<Point>, edges: seq<Edge>, s1: nat, s2: nat, player: nat, n: nat)
    requires s1 < |points| && s2 < |points| && n <= |points|
    ensures var c := ClosedTriangles(points, edges, s1, s2, player, n);
      |c| <= n &&
      (forall k :: 0 <= k < |c| ==>
        c[k].point1Id < n && c[k].point2Id == s1 && c[k].point3Id == s2 && c[k].player == player &&
        ClosesEmptyTriangle(points, edges, s1, s2, c[k].point1Id)) &&
      (forall r :: 0 <= r < n && ClosesEmptyTriangle(points, edges, s1, s2, r) ==>
        exists k :: 0 <= k < |c| && c[k].point1Id == r) &&
      (forall k, l :: 0 <= k < l < |c| ==> c[k].point1Id < c[l].point1Id)
  {
    if n > 0 {
      ClosedTrianglesSpec(points, edges, s1, s2, player, n - 1);
      var prev := ClosedTriangles(points, edges, s1, s2, player, n - 1);
      var c := ClosedTriangles(points, edges, s1, s2, player, n);
      if ClosesEmptyTriangle(points, edges, s1, s2, n - 1) {
        assert c == prev + [Triangle(n - 1, s1, s2, player)];
        assert c[|prev|].point1Id == n - 1;
        assert forall k :: 0 <= k < |prev| ==> c[k] == prev[k];
      } else {
        assert c == prev;
      }
    }
  }

  // ---------------------------------------------------------------------
  // One click

  /** A point is pending and a different point is clicked: the click forms
      a pair that is either rejected or drawn. */
  predicate FormsPair(s: State, pointId: nat)
  {
    !s.gameOver && |s.selectedPointsIds| == 1 && pointId != s.selectedPointsIds[0]
  }

  /** The pair formed by the click is neither drawn already nor crossing. */
  predicate Accepts(s: State, pointId: nat)
    requires pointId < |s.points| && SelectionInRange(s.points, s.selectedPointsIds)
    requires EdgesInRange(s.points, s.edges)
  {
    FormsPair(s, pointId) &&
    IsLegalNewEdge(s.points, s.edges, s.selectedPointsIds[0], pointId)
  }

  /** What a click needs of the session to be well defined. */
  predicate ClickReady(s: State, pointId: nat)
  {
    pointId < |s.points| && SelectionInRange(s.points, s.selectedPointsIds) &&
    EdgesInRange(s.points, s.edges) && s.currentPlayer < |s.scores| && s.numPlayers > 0
  }

  /** The session after the point `pointId` is clicked: every state write of
      the click handler, made from the state before the click, the last
      write to a field winning. */
  ghost function Click(s: State, pointId: nat): State
    requires ClickReady(s, pointId)
  {
    if s.gameOver then s
    else if pointId in s.selectedPointsIds then
      s.(errorMessage := NoError, selectedPointsIds := [])
    else
      var newSelectedPointIds := s.selectedPointsIds + [pointId];
      if |newSelectedPointIds| != 2 then
        s.(errorMessage := NoError, selectedPointsIds := newSelectedPointIds)
      else
        var selectedPoint1Id, selectedPoint2Id := newSelectedPointIds[0], newSelectedPointIds[1];
        if HasEdge(s.edges, selectedPoint1Id, selectedPoint2Id) then
          s.(errorMessage := EdgeAlreadyExists, selectedPointsIds := [])
        else if CrossesSomeEdge(s.points, s.edges, selectedPoint1Id, selectedPoint2Id) then
          s.(errorMessage := EdgeIntersects, selectedPointsIds := [])
        else
          DrawEdge(s, selectedPoint1Id, selectedPoint2Id)
  }

  /** The accepted branch of a click: the edge (s1, s2) is appended for the
      player to move, the triangles it closes are recorded and scored (or the
      turn passes), the selection is emptied and the flag recomputed. */
  ghost function DrawEdge(s: State, s1: nat, s2: nat): State
    requires s1 < |s.points| && s2 < |s.points|
    requires EdgesInRange(s.points, s.edges) && s.currentPlayer < |s.scores| && s.numPlayers > 0
  {
    var newEdges := s.edges + [Edge(s1, s2, s.currentPlayer)];
    var newTriangles := ClosedTriangles(s.points, newEdges, s1, s2, s.currentPlayer, |s.points|);
    var completed := |newTriangles|;
    s.(edges := newEdges,
       triangles := if completed > 0 then s.triangles + newTriangles else s.triangles,
       scores := if completed > 0 then s.scores[s.currentPlayer := s.scores[s.currentPlayer] + completed] else s.scores,
       currentPlayer := if completed > 0 then s.currentPlayer else (s.currentPlayer + 1) % s.numPlayers,
       errorMessage := NoError,
       selectedPointsIds := [],
       // the flag was false (the click was not ignored) and is set when no edge is left
       gameOver := !CanDrawMore(s.points, newEdges))
  }

  /** Drawing does not depend on the selection or the message it replaces. */
  lemma DrawEdgeIgnoresSelection(s: State, t: State, s1: nat, s2: nat)
    requires s1 < |s.points| && s2 < |s.points|
    requires EdgesInRange(s.points, s.edges) && s.currentPlayer < |s.scores| && s.numPlayers > 0
    requires t == s.(errorMessage := t.errorMessage, selectedPointsIds := t.selectedPointsIds)
    ensures DrawEdge(t, s1, s2) == DrawEdge(s, s1, s2)
  {
  }

  /** Under the invariant, an accepted click is DrawEdge on the pending
      point and the clicked one. */
  lemma ClickAcceptedIsDrawEdge(s: State, pointId: nat)
    requires ValidState(s) && pointId < |s.points| && Accepts(s, pointId)
    ensures ClickReady(s, pointId) && Click(s, pointId) == DrawEdge(s, s.selectedPointsIds[0], pointId)
  {
  }

  /** The board of a session: what a click may change when it draws. */
  predicate SameBoard(s: State, t: State)
  {
    t.numPlayers == s.numPlayers && t.numPoints == s.numPoints && t.points == s.points &&
    t.edges == s.edges && t.triangles == s.triangles && t.scores == s.scores &&
    t.currentPlayer == s.currentPlayer && t.gameOver == s.gameOver
  }

  /** Once the game is over, a click changes nothing. */
  lemma ClickAfterGameOver(s: State, pointId: nat)
    requires ValidState(s) && pointId < |s.points| && s.gameOver
    ensures Click(s, pointId) == s
  {
  }

  /** Clicking the pending point deselects it and changes nothing else but
      the cleared message. */
  lemma ClickDeselects(s: State, pointId: nat)
    requires ValidState(s) && pointId < |s.points| && !s.gameOver && pointId in s.selectedPointsIds
    ensures var t := Click(s, pointId);
      SameBoard(s, t) && t.selectedPointsIds == [] && t.errorMessage == NoError
  {
  }

  /** With nothing pending, a click only selects the point. */
  lemma ClickSelects(s: State, pointId: nat)
    requires ValidState(s) && pointId < |s.points| && !s.gameOver && s.selectedPointsIds == []
    ensures var t := Click(s, pointId);
      SameBoard(s, t) && t.selectedPointsIds == [pointId] && t.errorMessage == NoError
  {
  }

  /** A pair that is already joined, or whose segment crosses an edge, is
      rejected with its message; the selection is emptied and the board is
      unchanged. */
  lemma ClickRejects(s: State, pointId: nat)
    requires ValidState(s) && pointId < |s.points| && FormsPair(s, pointId)
    requires !IsLegalNewEdge(s.points, s.edges, s.selectedPointsIds[0], pointId)
    ensures var t := Click(s, pointId);
      SameBoard(s, t) && t.selectedPointsIds == [] &&
      t.errorMessage == (if HasEdge(s.edges, s.selectedPointsIds[0], pointId) then EdgeAlreadyExists else EdgeIntersects)
  {
  }

  /** An accepted pair appends exactly one edge, owned by the player to move,
      between two distinct points; the selection is emptied. */
  lemma ClickDrawsEdge(s: State, pointId: nat)
    requires ValidState(s) && pointId < |s.points| && Accepts(s, pointId)
    ensures var t := Click(s, pointId);
      s.selectedPointsIds[0] != pointId &&
      t.edges == s.edges + [Edge(s.selectedPointsIds[0], pointId, s.currentPlayer)] &&
      t.selectedPointsIds == [] && t.errorMessage == NoError && t.points == s.points
  {
  }

  /** Every triangle an accepted click records has the new edge as a side,
      both other sides drawn, no other point inside or on it, and belongs to
      the player to move; and every such triangle is recorded, once. */
  lemma ClickScoresEmptyTriangles(s: State, pointId: nat)
    requires ValidState(s) && pointId < |s.points| && Accepts(s, pointId)
    ensures var t := Click(s, pointId);
      var s1 := s.selectedPointsIds[0];
      |s.triangles| <= |t.triangles| && t.triangles[..|s.triangles|] == s.triangles &&
      (forall k :: |s.triangles| <= k < |t.triangles| ==>
        var r := t.triangles[k].point1Id;
        r < |s.points| && r != s1 && r != pointId &&
        t.triangles[k] == Triangle(r, s1, pointId, s.currentPlayer) &&
        HasEdge(t.edges, s1, r) && HasEdge(t.edges, pointId, r) &&
        forall q :: 0 <= q < |s.points| && q != r && q != s1 && q != pointId ==>
          !IsPointInTriangle(s.points[q], s.points[r], s.points[s1], s.points[pointId])) &&
      (forall r :: 0 <= r < |s.points| && ClosesEmptyTriangle(s.points, t.edges, s1, pointId, r) ==>
        exists k :: |s.triangles| <= k < |t.triangles| && t.triangles[k].point1Id == r) &&
      (forall k, l :: |s.triangles| <= k < l < |t.triangles| ==> t.triangles[k].point1Id < t.triangles[l].point1Id)
  {
    ClickAcceptedIsDrawEdge(s, pointId);
    var s1 := s.selectedPointsIds[0];
    var newEdges := s.edges + [Edge(s1, pointId, s.currentPlayer)];
    var c := ClosedTriangles(s.points, newEdges, s1, pointId, s.currentPlayer, |s.points|);
    ClosedTrianglesSpec(s.points, newEdges, s1, pointId, s.currentPlayer, |s.points|);
    var t := Click(s, pointId);
    assert t.triangles == s.triangles + c;
    forall k | |s.triangles| <= k < |t.triangles|
      ensures var r := t.triangles[k].point1Id;
        forall q :: 0 <= q < |s.points| && q != r && q != s1 && q != pointId ==>
          !IsPointInTriangle(s.points[q], s.points[r], s.points[s1], s.points[pointId])
    {
      assert t.triangles[k] == c[k - |s.triangles|];
      var r := t.triangles[k].point1Id;
      forall q | 0 <= q < |s.points| && q != r && q != s1 && q != pointId
        ensures !IsPointInTriangle(s.points[q], s.points[r], s.points[s1], s.points[pointId])
      {
        assert s.points[q].id == q;
      }
    }
    forall r | 0 <= r < |s.points| && ClosesEmptyTriangle(s.points, t.edges, s1, pointId, r)
      ensures exists k :: |s.triangles| <= k < |t.triangles| && t.triangles[k].point1Id == r
    {
      var k :| 0 <= k < |c| && c[k].point1Id == r;
      assert t.triangles[|s.triangles| + k] == c[k];
    }
  }

  /** Turn law: a click that completes k > 0 triangles adds k to the mover's
      score and keeps the turn; one that completes none passes the turn to
      the next player and leaves the scores alone. */
  lemma ClickTurnLaw(s: State, pointId: nat)
    requires ValidState(s) && pointId < |s.points| && Accepts(s, pointId)
    ensures var t := Click(s, pointId);
      var completed := |t.triangles| - |s.triangles|;
      completed >= 0 &&
      (completed > 0 ==>
        t.currentPlayer == s.currentPlayer &&
        |t.scores| == |s.scores| && t.scores[s.currentPlayer] == s.scores[s.currentPlayer] + completed &&
        forall p :: 0 <= p < |s.scores| && p != s.currentPlayer ==> t.scores[p] == s.scores[p]) &&
      (completed == 0 ==>
        t.currentPlayer == (s.currentPlayer + 1) % s.numPlayers && t.scores == s.scores)
  {
    ClickAcceptedIsDrawEdge(s, pointId);
  }

  /** The game-over flag is set exactly when no legal edge remains, and only
      a reset clears it. */
  lemma ClickGameOverLaw(s: State, pointId: nat)
    requires ValidState(s) && pointId < |s.points|
    ensures var t := Click(s, pointId);
      (s.gameOver ==> t.gameOver) &&
      (Accepts(s, pointId) ==> (t.gameOver <==> !CanDrawMore(t.points, t.edges)))
  {
  }

  // ---------------------------------------------------------------------
  // The invariant is kept

  lemma HasEdgeKept(edges: seq<Edge>, e: Edge, a: nat, b: nat)
    requires HasEdge(edges, a, b)
    ensures HasEdge(edges + [e], a, b)
  {
    var k :| 0 <= k < |edges| && Joins(edges[k], a, b);
    assert (edges + [e])[k] == edges[k];
  }

  /** Drawing a legal edge keeps the edge set plane and duplicate-free. */
  lemma NewEdgeKeepsEdgeInvariant(points: seq<Point>, edges: seq<Edge>, numPlayers: nat, s1: nat, s2: nat, player: nat)
    requires EdgeInvariant(points, edges, numPlayers)
    requires s1 < |points| && s2 < |points| && s1 != s2 && player < numPlayers
    requires IsLegalNewEdge(points, edges, s1, s2)
    ensures EdgeInvariant(points, edges + [Edge(s1, s2, player)], numPlayers)
  {
    var e := Edge(s1, s2, player);
    var newEdges := edges + [e];
    forall k | 0 <= k < |edges|
      ensures !Joins(e, edges[k].point1Id, edges[k].point2Id)
      ensures !EdgesCross(points, edges[k], e)
    {
      DoLinesIntersectSymmetric(points[s1], points[s2], points[edges[k].point1Id], points[edges[k].point2Id]);
    }
    assert forall k :: 0 <= k < |edges| ==> newEdges[k] == edges[k];
  }

  /** Three distinct corners of a triangle whose sides are all drawn: any
      two of them are joined by an edge. */
  lemma CornersJoined(edges: seq<Edge>, u: Triangle, a: nat, b: nat)
    requires SidesDrawn(edges, u) && a in Corners(u) && b in Corners(u) && a != b
    ensures HasEdge(edges, a, b)
  {
    forall x: nat, y: nat | HasEdge(edges, x, y) ensures HasEdge(edges, y, x) {
      var k :| 0 <= k < |edges| && Joins(edges[k], x, y);
      assert Joins(edges[k], y, x);
    }
  }

  /** A triangle scored earlier, all of whose sides were drawn before the
      new edge (s1, s2), is not a triangle the new edge closes. */
  lemma EarlierTriangleDiffers(edges: seq<Edge>, u: Triangle, t: Triangle, s1: nat, s2: nat)
    requires SidesDrawn(edges, u) && !HasEdge(edges, s1, s2) && s1 != s2
    requires t.point2Id == s1 && t.point3Id == s2
    ensures Corners(u) != Corners(t)
  {
    if Corners(u) == Corners(t) {
      assert s1 in Corners(u) && s2 in Corners(u);
      CornersJoined(edges, u, s1, s2);
    }
  }

  /** Two triangles closed by the same new edge at different third corners
      differ. */
  lemma SiblingTrianglesDiffer(t: Triangle, t': Triangle, s1: nat, s2: nat)
    requires t.point2Id == s1 && t.point3Id == s2 && t'.point2Id == s1 && t'.point3Id == s2
    requires t.point1Id < t'.point1Id && t'.point1Id != s1 && t'.point1Id != s2
    ensures Corners(t) != Corners(t')
  {
    assert t'.point1Id in Corners(t');
  }

  /** The triangles closed by a legal edge are well formed. */
  lemma NewTrianglesWellFormed(
    points: seq<Point>, edges: seq<Edge>, numPlayers: nat, s1: nat, s2: nat, player: nat)
    requires s1 < |points| && s2 < |points| && s1 != s2 && player < numPlayers
    ensures var newEdges := edges + [Edge(s1, s2, player)];
      var c := ClosedTriangles(points, newEdges, s1, s2, player, |points|);
      forall k :: 0 <= k < |c| ==> WellFormedTriangle(points, newEdges, numPlayers, c[k])
  {
    var newEdges := edges + [Edge(s1, s2, player)];
    ClosedTrianglesSpec(points, newEdges, s1, s2, player, |points|);
    assert HasEdge(newEdges, s1, s2) by {
      assert newEdges[|edges|] == Edge(s1, s2, player);
    }
    forall x: nat, y: nat | HasEdge(newEdges, x, y) ensures HasEdge(newEdges, y, x) {
      var k :| 0 <= k < |newEdges| && Joins(newEdges[k], x, y);
      assert Joins(newEdges[k], y, x);
    }
  }

  /** Triangles scored earlier stay well formed once an edge is added. */
  lemma EarlierTrianglesStayWellFormed(
    points: seq<Point>, edges: seq<Edge>, numPlayers: nat, triangles: seq<Triangle>, e: Edge)
    requires forall k :: 0 <= k < |triangles| ==> WellFormedTriangle(points, edges, numPlayers, triangles[k])
    ensures forall k :: 0 <= k < |triangles| ==> WellFormedTriangle(points, edges + [e], numPlayers, triangles[k])
  {
    forall k | 0 <= k < |triangles|
      ensures WellFormedTriangle(points, edges + [e], numPlayers, triangles[k])
    {
      var t := triangles[k];
      HasEdgeKept(edges, e, t.point1Id, t.point2Id);
      HasEdgeKept(edges, e, t.point1Id, t.point3Id);
      HasEdgeKept(edges, e, t.point2Id, t.point3Id);
    }
  }

  /** Recording the triangles closed by a legal edge keeps every triangle
      well formed and keeps them pairwise distinct. */
  lemma NewTrianglesKeepTriangleInvariant(
    points: seq<Point>, edges: seq<Edge>, numPlayers: nat, triangles: seq<Triangle>,
    s1: nat, s2: nat, player: nat)
    requires TriangleInvariant(points, edges, numPlayers, triangles)
    requires s1 < |points| && s2 < |points| && s1 != s2 && player < numPlayers
    requires !HasEdge(edges, s1, s2)
    ensures var newEdges := edges + [Edge(s1, s2, player)];
      TriangleInvariant(points, newEdges, numPlayers,
        triangles + ClosedTriangles(points, newEdges, s1, s2, player, |points|))
  {
    var e := Edge(s1, s2, player);
    var newEdges := edges + [e];
    var c := ClosedTriangles(points, newEdges, s1, s2, player, |points|);
    var all := triangles + c;
    ClosedTrianglesSpec(points, newEdges, s1, s2, player, |points|);
    NewTrianglesWellFormed(points, edges, numPlayers, s1, s2, player);
    EarlierTrianglesStayWellFormed(points, edges, numPlayers, triangles, e);
    assert forall k :: 0 <= k < |triangles| ==> all[k] == triangles[k];
    assert forall k :: |triangles| <= k < |all| ==> all[k] == c[k - |triangles|];
    forall k, l | 0 <= k < l < |all|
      ensures Corners(all[k]) != Corners(all[l])
    {
      if l < |triangles| {
      } else if k < |triangles| {
        EarlierTriangleDiffers(edges, triangles[k], c[l - |triangles|], s1, s2);
      } else {
        SiblingTrianglesDiffer(c[k - |triangles|], c[l - |triangles|], s1, s2);
      }
    }
  }

  lemma {:induction false} OwnedAppend(a: seq<Triangle>, b: seq<Triangle>, player: nat)
    ensures Owned(a + b, player) == Owned(a, player) + Owned(b, player)
  {
    if |b| > 0 {
      var ab := a + b;
      assert ab[..|ab| - 1] == a + b[..|b| - 1];
      OwnedAppend(a, b[..|b| - 1], player);
    } else {
      assert a + b == a;
    }
  }

  lemma {:induction false} OwnedByOne(triangles: seq<Triangle>, owner: nat, player: nat)
    requires forall k :: 0 <= k < |triangles| ==> triangles[k].player == owner
    ensures Owned(triangles, player) == if player == owner then |triangles| else 0
  {
    if |triangles| > 0 {
      OwnedByOne(triangles[..|triangles| - 1], owner, player);
    }
  }

  /** Drawing an edge keeps every player's score equal to the number of
      triangles it owns. */
  lemma DrawEdgeScoresMatch(s: State, s1: nat, s2: nat)
    requires s1 < |s.points| && s2 < |s.points|
    requires EdgesInRange(s.points, s.edges) && s.currentPlayer < |s.scores| && s.numPlayers > 0
    requires ScoresMatchTriangles(s.scores, s.triangles)
    ensures ScoresMatchTriangles(DrawEdge(s, s1, s2).scores, DrawEdge(s, s1, s2).triangles)
  {
    var newEdges := s.edges + [Edge(s1, s2, s.currentPlayer)];
    var c := ClosedTriangles(s.points, newEdges, s1, s2, s.currentPlayer, |s.points|);
    ClosedTrianglesSpec(s.points, newEdges, s1, s2, s.currentPlayer, |s.points|);
    var t := DrawEdge(s, s1, s2);
    forall p | 0 <= p < |t.scores|
      ensures t.scores[p] == Owned(t.triangles, p)
    {
      OwnedAppend(s.triangles, c, p);
      OwnedByOne(c, s.currentPlayer, p);
    }
  }

  /** Drawing a legal edge between two distinct points keeps the invariant. */
  lemma DrawEdgePreservesValid(s: State, s1: nat, s2: nat)
    requires ValidState(s) && s1 < |s.points| && s2 < |s.points| && s1 != s2
    requires IsLegalNewEdge(s.points, s.edges, s1, s2)
    ensures ValidState(DrawEdge(s, s1, s2))
  {
    var t := DrawEdge(s, s1, s2);
    var newEdges := s.edges + [Edge(s1, s2, s.currentPlayer)];
    var c := ClosedTriangles(s.points, newEdges, s1, s2, s.currentPlayer, |s.points|);
    assert t.edges == newEdges && t.points == s.points;
    assert t.triangles == s.triangles + c by {
      if |c| == 0 {
        assert s.triangles + c == s.triangles;
      }
    }
    NewEdgeKeepsEdgeInvariant(s.points, s.edges, s.numPlayers, s1, s2, s.currentPlayer);
    assert EdgeInvariant(t.points, t.edges, t.numPlayers);
    NewTrianglesKeepTriangleInvariant(s.points, s.edges, s.numPlayers, s.triangles, s1, s2, s.currentPlayer);
    assert TriangleInvariant(t.points, t.edges, t.numPlayers, t.triangles);
    DrawEdgeScoresMatch(s, s1, s2);
    assert t.gameOver <==> !CanDrawMore(t.points, t.edges);
    assert |t.points| >= 2;
  }

  /** A click keeps the session invariant. */
  lemma ClickPreservesValid(s: State, pointId: nat)
    requires ValidState(s) && pointId < |s.points|
    ensures ValidState(Click(s, pointId))
  {
    if Accepts(s, pointId) {
      ClickAcceptedIsDrawEdge(s, pointId);
      DrawEdgePreservesValid(s, s.selectedPointsIds[0], pointId);
    }
  }

  // ---------------------------------------------------------------------
  // Reset and configuration

  /** A fresh session on the given points: no edges, no triangles, nothing
      selected, player 0 to move, all scores zero, game not over. */
  function Initial(numPlayers: nat, numPoints: nat, points: seq<Point>): State
  {
    State(numPlayers, numPoints, points, [], [], [], 0, seq(numPlayers, _ => 0), NoError, false)
  }

  /** With at least two points and no edge, any pair can be drawn. */
  lemma CanDrawMoreWithoutEdges(points: seq<Point>)
    requires |points| >= 2
    ensures CanDrawMore(points, [])
  {
    assert IsLegalNewEdge(points, [], 0, 1);
  }

  /** With fewer than two points no edge can ever be drawn. */
  lemma CannotDrawWithFewPoints(points: seq<Point>, edges: seq<Edge>)
    requires EdgesInRange(points, edges) && |points| < 2
    ensures !CanDrawMore(points, edges)
  {
  }

  /** A reset on generated points yields a valid session. */
  lemma InitialIsValid(numPlayers: nat, numPoints: nat, points: seq<Point>)
    requires GameConfig.MinPlayers <= numPlayers <= GameConfig.MaxPlayers
    requires GameConfig.MinPointCount <= numPoints <= GameConfig.MaxPointCount
    requires GeneratedPoints(points, numPoints)
    ensures ValidState(Initial(numPlayers, numPoints, points))
  {
    if |points| >= 2 {
      CanDrawMoreWithoutEdges(points);
    }
  }

  /** A session on a single point never ends: no edge can be drawn, yet the
      flag is only recomputed after an edge is drawn. */
  lemma SinglePointNeverEnds(s: State, pointId: nat)
    requires ValidState(s) && pointId < |s.points| && |s.points| == 1
    ensures !CanDrawMore(s.points, s.edges) && !s.gameOver && !Click(s, pointId).gameOver
  {
    ClickPreservesValid(s, pointId);
  }

  // ---------------------------------------------------------------------
  // Flat triangles

  /** Three points on one line, identities 0, 1 and 2. */
  function CollinearPoints(): seq<Point>
  {
    [Point(0, 0.0, 0.0), Point(1, 100.0, 0.0), Point(2, 200.0, 0.0)]
  }

  /** With 0-1 and 1-2 drawn on three collinear points, the edge 2-0 lying
      over both is legal: touching along a line is not a crossing. */
  lemma CollinearLongEdgeLegal()
    ensures IsLegalNewEdge(CollinearPoints(), [Edge(0, 1, 0), Edge(1, 2, 1)], 2, 0)
  {
    var pts := CollinearPoints();
    var edges := [Edge(0, 1, 0), Edge(1, 2, 1)];
    assert !HasEdge(edges, 2, 0);
    assert forall i :: 0 <= i < |pts| ==> pts[i].y == 0.0;
    forall k | 0 <= k < |edges|
      ensures !DoLinesIntersect(pts[2], pts[0], pts[edges[k].point1Id], pts[edges[k].point2Id])
    {
      CollinearSegmentsDoNotIntersect(pts[2], pts[0], pts[edges[k].point1Id], pts[edges[k].point2Id]);
    }
  }

  /** Drawing that edge scores the zero-area triangle on the three points. */
  lemma CollinearTriangleScored()
    ensures ClosedTriangles(CollinearPoints(), [Edge(0, 1, 0), Edge(1, 2, 1), Edge(2, 0, 0)], 2, 0, 0, 3) == [Triangle(1, 2, 0, 0)]
  {
    var pts := CollinearPoints();
    var edges := [Edge(0, 1, 0), Edge(1, 2, 1), Edge(2, 0, 0)];
    assert Joins(edges[0], 0, 1) && Joins(edges[1], 2, 1);
    assert !ContainsOtherPoint(pts, 1, 2, 0);
    assert ClosesEmptyTriangle(pts, edges, 2, 0, 1);
  }

  /** For that flat triangle the closed containment test accepts a point of
      the line that lies beyond all three vertices. */
  lemma FlatTriangleContainsLine()
    ensures IsPointInTriangle(Point(3, 300.0, 0.0), CollinearPoints()[1], CollinearPoints()[2], CollinearPoints()[0])
  {
    FlatTriangleContainsItsLine(Point(3, 300.0, 0.0), CollinearPoints()[1], CollinearPoints()[2], CollinearPoints()[0]);
  }

  // ---------------------------------------------------------------------
  // A complete game on three points

  /** Three points forming a right triangle, identities 0, 1 and 2. */
  function ThreePoints(): seq<Point>
  {
    [Point(0, 0.0, 0.0), Point(1, 100.0, 0.0), Point(2, 0.0, 100.0)]
  }

  /** The three sides drawn in turn by two players: 0-1 by player 0, 1-2 by
      player 1, then 2-0 by player 0. */
  function FirstSide(): Edge { Edge(0, 1, 0) }
  function SecondSide(): Edge { Edge(1, 2, 1) }
  function ThirdSide(): Edge { Edge(2, 0, 0) }

  /** The sessions between the moves of the game on three points. */
  function AfterFirstSide(): State
  {
    State(2, 3, ThreePoints(), [FirstSide()], [], [], 1, [0, 0], NoError, false)
  }

  function AfterSecondSide(): State
  {
    State(2, 3, ThreePoints(), [FirstSide(), SecondSide()], [], [], 0, [0, 0], NoError, false)
  }

  function AfterThirdSide(): State
  {
    State(2, 3, ThreePoints(), [FirstSide(), SecondSide(), ThirdSide()], [Triangle(1, 2, 0, 0)], [], 0, [1, 0], NoError, true)
  }

  /** With nothing pending, a click selects the point. */
  lemma ClickFromEmptySelection(s: State, pointId: nat)
    requires ClickReady(s, pointId) && !s.gameOver && s.selectedPointsIds == []
    ensures Click(s, pointId) == s.(errorMessage := NoError, selectedPointsIds := [pointId])
  {
  }

  /** A click that pairs the pending point with a legal new edge draws it. */
  lemma ClickOnLegalPair(s: State, pointId: nat)
    requires ClickReady(s, pointId) && FormsPair(s, pointId)
    requires IsLegalNewEdge(s.points, s.edges, s.selectedPointsIds[0], pointId)
    ensures Click(s, pointId) == DrawEdge(s, s.selectedPointsIds[0], pointId)
  {
  }

  lemma FirstSideClosesNothing()
    ensures ClosedTriangles(ThreePoints(), [FirstSide()], 0, 1, 0, 3) == []
  {
    assert !HasEdge([FirstSide()], 0, 2);
  }

  lemma FirstSideLeavesMoves()
    ensures CanDrawMore(ThreePoints(), [FirstSide()])
  {
    var pts := ThreePoints();
    assert !HasEdge([FirstSide()], 0, 2);
    assert !DoLinesIntersect(pts[0], pts[2], pts[0], pts[1]);
    assert IsLegalNewEdge(pts, [FirstSide()], 0, 2);
  }

  /** The first side closes nothing and passes the turn. */
  lemma FirstMove()
    ensures Click(Click(Initial(2, 3, ThreePoints()), 0), 1) == AfterFirstSide()
  {
    var s0 := Initial(2, 3, ThreePoints());
    ClickFromEmptySelection(s0, 0);
    var a := s0.(selectedPointsIds := [0]);
    assert !HasEdge([], 0, 1);
    ClickOnLegalPair(a, 1);
    assert a.edges + [Edge(0, 1, a.currentPlayer)] == [FirstSide()];
    FirstSideClosesNothing();
    FirstSideLeavesMoves();
    assert DrawEdge(a, 0, 1) == AfterFirstSide();
  }

  lemma SecondSideIsLegal()
    ensures IsLegalNewEdge(ThreePoints(), [FirstSide()], 1, 2)
  {
    var pts := ThreePoints();
    assert !HasEdge([FirstSide()], 1, 2);
    assert !DoLinesIntersect(pts[1], pts[2], pts[0], pts[1]);
  }

  lemma SecondSideClosesNothing()
    ensures ClosedTriangles(ThreePoints(), [FirstSide(), SecondSide()], 1, 2, 1, 3) == []
  {
    assert !HasEdge([FirstSide(), SecondSide()], 2, 0);
  }

  lemma SecondSideLeavesMoves()
    ensures CanDrawMore(ThreePoints(), [FirstSide(), SecondSide()])
  {
    var pts := ThreePoints();
    var edges := [FirstSide(), SecondSide()];
    assert !HasEdge(edges, 0, 2);
    assert !DoLinesIntersect(pts[0], pts[2], pts[0], pts[1]);
    assert !DoLinesIntersect(pts[0], pts[2], pts[1], pts[2]);
    assert IsLegalNewEdge(pts, edges, 0, 2);
  }

  /** The second side closes nothing either and passes the turn back. */
  lemma SecondMove()
    ensures Click(Click(AfterFirstSide(), 1), 2) == AfterSecondSide()
  {
    var s1 := AfterFirstSide();
    ClickFromEmptySelection(s1, 1);
    var b := s1.(selectedPointsIds := [1]);
    SecondSideIsLegal();
    ClickOnLegalPair(b, 2);
    assert b.edges + [Edge(1, 2, b.currentPlayer)] == [FirstSide(), SecondSide()];
    SecondSideClosesNothing();
    SecondSideLeavesMoves();
    assert DrawEdge(b, 1, 2) == AfterSecondSide();
  }

  lemma ThirdSideIsLegal()
    ensures IsLegalNewEdge(ThreePoints(), [FirstSide(), SecondSide()], 2, 0)
  {
    var pts := ThreePoints();
    assert !HasEdge([FirstSide(), SecondSide()], 2, 0);
    assert !DoLinesIntersect(pts[2], pts[0], pts[0], pts[1]);
    assert !DoLinesIntersect(pts[2], pts[0], pts[1], pts[2]);
  }

  lemma ThirdSideClosesTriangle()
    ensures ClosedTriangles(ThreePoints(), [FirstSide(), SecondSide(), ThirdSide()], 2, 0, 0, 3) == [Triangle(1, 2, 0, 0)]
  {
    var pts := ThreePoints();
    var edges := [FirstSide(), SecondSide(), ThirdSide()];
    assert Joins(edges[0], 0, 1) && Joins(edges[1], 2, 1);
    assert !ContainsOtherPoint(pts, 1, 2, 0);
    assert ClosesEmptyTriangle(pts, edges, 2, 0, 1);
  }

  lemma ThirdSideEndsGame()
    ensures !CanDrawMore(ThreePoints(), [FirstSide(), SecondSide(), ThirdSide()])
  {
    var edges := [FirstSide(), SecondSide(), ThirdSide()];
    assert Joins(edges[0], 0, 1) && Joins(edges[1], 1, 2) && Joins(edges[2], 0, 2);
  }

  /** Drawing the third side records the triangle for player 0, who keeps
      the turn, and ends the game. */
  lemma ThirdSideDrawn()
    ensures DrawEdge(AfterSecondSide().(selectedPointsIds := [2]), 2, 0) == AfterThirdSide()
  {
    var c := AfterSecondSide().(selectedPointsIds := [2]);
    assert c.edges + [Edge(2, 0, c.currentPlayer)] == [FirstSide(), SecondSide(), ThirdSide()];
    ThirdSideClosesTriangle();
    ThirdSideEndsGame();
    assert c.scores[0 := c.scores[0] + 1] == [1, 0];
  }

  /** The third side closes the triangle for player 0, who keeps the turn,
      and leaves no legal edge, so the game ends. */
  lemma ThirdMove()
    ensures Click(Click(AfterSecondSide(), 2), 0) == AfterThirdSide()
  {
    var s2 := AfterSecondSide();
    ClickFromEmptySelection(s2, 2);
    ThirdSideIsLegal();
    ClickOnLegalPair(s2.(selectedPointsIds := [2]), 0);
    ThirdSideDrawn();
  }

  lemma OneTriangleToNoneWins()
    ensures GetWinner([1, 0]) == Winner(0)
  {
    assert MaxScore([1, 0]) == 1;
    assert IndicesWithScore([1, 0], 1, 1) == [0];
    assert Winners([1, 0]) == [0];
  }

  /** A whole game on three points: the three sides are drawn in turn, the
      third ends the game and player 0 wins, one triangle to none. */
  lemma ThreePointGame()
    ensures Click(Click(Initial(2, 3, ThreePoints()), 0), 1) == AfterFirstSide()
    ensures Click(Click(AfterFirstSide(), 1), 2) == AfterSecondSide()
    ensures Click(Click(AfterSecondSide(), 2), 0) == AfterThirdSide()
    ensures AfterThirdSide().gameOver && GetWinner(AfterThirdSide().scores) == Winner(0)
  {
    FirstMove();
    SecondMove();
    ThirdMove();
    OneTriangleToNoneWins();
  }

  // ---------------------------------------------------------------------
  // Rejected pairs on a square

  /** Four points at the corners of a square, in order around it. */
  function SquarePoints(): seq<Point>
  {
    [Point(0, 0.0, 0.0), Point(1, 100.0, 0.0), Point(2, 100.0, 100.0), Point(3, 0.0, 100.0)]
  }

  /** A session on the square where player 0 has drawn the diagonal 0-2 and
      player 1 has `pending` selected. */
  function SquareWithDiagonal(pending: nat): State
  {
    State(2, 4, SquarePoints(), [Edge(0, 2, 0)], [], [pending], 1, [0, 0], NoError, false)
  }

  /** The other diagonal 1-3 crosses the drawn one and is rejected; joining
      2 and 0 again is rejected as a duplicate; neither changes the board. */
  lemma SquareRejections()
    ensures Click(SquareWithDiagonal(1), 3) == SquareWithDiagonal(1).(errorMessage := EdgeIntersects, selectedPointsIds := [])
    ensures Click(SquareWithDiagonal(2), 0) == SquareWithDiagonal(2).(errorMessage := EdgeAlreadyExists, selectedPointsIds := [])
  {
    var pts := SquarePoints();
    var edges := [Edge(0, 2, 0)];
    assert !HasEdge(edges, 1, 3);
    assert DoLinesIntersect(pts[1], pts[3], pts[edges[0].point1Id], pts[edges[0].point2Id]);
    assert CrossesSomeEdge(pts, edges, 1, 3);
    assert Joins(edges[0], 2, 0);
  }

  function Max(a: int, b: int): int { if a < b then b else a }
  function Min(a: int, b: int): int { if a < b then a else b }

  /** The requested number of points, saturated to the configured bounds. */
  function ClampPointCount(requested: int): (count: nat)
    ensures GameConfig.MinPointCount <= count <= GameConfig.MaxPointCount
    ensures GameConfig.MinPointCount <= requested <= GameConfig.MaxPointCount ==> count == requested
    ensures requested < GameConfig.MinPointCount ==> count == GameConfig.MinPointCount
    ensures requested > GameConfig.MaxPointCount ==> count == GameConfig.MaxPointCount
  {
    Max(GameConfig.MinPointCount, Min(requested, GameConfig.MaxPointCount))
  }

  // ---------------------------------------------------------------------
  // The winner

  /** The game-over banner: a tie among all players, one winner, or a tie
      among some of them (listed in player order). */
  datatype Outcome = Tie | Winner(player: nat) | PartialTie(players: seq<nat>)

  /** The highest score. */
  function MaxScore(scores: seq<int>): (m: int)
    requires |scores| > 0
    ensures forall i :: 0 <= i < |scores| ==> scores[i] <= m
    ensures exists i :: 0 <= i < |scores| && scores[i] == m
  {
    if |scores| == 1 then scores[0]
    else
      var front := scores[..|scores| - 1];
      assert forall i :: 0 <= i < |front| ==> scores[i] == front[i];
      Max(MaxScore(front), scores[|scores| - 1])
  }

  /** The indices below `n` whose score is `m`, in increasing order: the
      map to index-or-minus-one followed by the filter. */
  function IndicesWithScore(scores: seq<int>, m: int, n: nat): (r: seq<nat>)
    requires n <= |scores|
    ensures |r| <= n
    ensures forall k :: 0 <= k < |r| ==> r[k] < n && scores[r[k]] == m
    ensures forall i :: 0 <= i < n && scores[i] == m ==> i in r
    ensures forall k, l :: 0 <= k < l < |r| ==> r[k] < r[l]
    ensures |r| == n <==> forall i :: 0 <= i < n ==> scores[i] == m
  {
    if n == 0 then []
    else IndicesWithScore(scores, m, n - 1) + (if scores[n - 1] == m then [n - 1] else [])
  }

  /** Every player whose score is the highest. */
  function Winners(scores: seq<int>): seq<nat>
  {
    if |scores| == 0 then [] else IndicesWithScore(scores, MaxScore(scores), |scores|)
  }

  /** The outcome the game-over banner announces. */
  function GetWinner(scores: seq<int>): Outcome
  {
    var winners := Winners(scores);
    if |winners| == |scores| then Tie
    else if |winners| == 1 then Winner(winners[0])
    else PartialTie(winners)
  }

  /** Player `i` has a score no other player beats. */
  predicate IsTopScore(scores: seq<int>, i: nat)
    requires i < |scores|
  {
    forall j :: 0 <= j < |scores| ==> scores[j] <= scores[i]
  }

  /** Player `i` has a score every other player falls short of. */
  predicate StrictlyAhead(scores: seq<int>, i: nat)
    requires i < |scores|
  {
    forall j :: 0 <= j < |scores| && j != i ==> scores[j] < scores[i]
  }

  /** The winners are exactly the players with a top score, in player order,
      and there is at least one when there is a player. */
  lemma WinnersAreTopScorers(scores: seq<int>)
    ensures var w := Winners(scores);
      (|scores| > 0 ==> |w| >= 1) &&
      (forall k :: 0 <= k < |w| ==> w[k] < |scores| && IsTopScore(scores, w[k])) &&
      (forall i :: 0 <= i < |scores| && IsTopScore(scores, i) ==> i in w) &&
      (forall k, l :: 0 <= k < l < |w| ==> w[k] < w[l])
  {
    if |scores| > 0 {
      var m := MaxScore(scores);
      var i :| 0 <= i < |scores| && scores[i] == m;
      assert i in Winners(scores);
    }
  }

  /** The banner says "tie" exactly when every player has a top score,
      names one winner exactly when one player is strictly ahead of every
      other player, and otherwise lists the players tied at the top. */
  lemma GetWinnerOutcome(scores: seq<int>)
    ensures var o := GetWinner(scores);
      (o.Tie? <==> forall i :: 0 <= i < |scores| ==> IsTopScore(scores, i)) &&
      (o.Winner? ==> |scores| >= 2 && o.player < |scores| && StrictlyAhead(scores, o.player)) &&
      (forall i :: 0 <= i < |scores| && |scores| >= 2 && StrictlyAhead(scores, i) ==> o == Winner(i)) &&
      (o.PartialTie? ==>
        2 <= |o.players| < |scores| &&
        (forall k :: 0 <= k < |o.players| ==> o.players[k] < |scores| && IsTopScore(scores, o.players[k])) &&
        (forall i :: 0 <= i < |scores| && IsTopScore(scores, i) ==> i in o.players))
  {
    WinnersAreTopScorers(scores);
    var w := Winners(scores);
    if |scores| > 0 {
      var m := MaxScore(scores);
      assert forall i :: 0 <= i < |scores| ==> (IsTopScore(scores, i) <==> scores[i] == m);
      if |w| == 1 {
        forall j | 0 <= j < |scores| && j != w[0]
          ensures scores[j] < scores[w[0]]
        {
        }
      }
      forall i | 0 <= i < |scores| && |scores| >= 2 && StrictlyAhead(scores, i)
        ensures GetWinner(scores) == Winner(i)
      {
        assert i in w;
        forall k | 0 <= k < |w| ensures w[k] == i {
          assert IsTopScore(scores, w[k]);
        }
        var j :| 0 <= j < |scores| && j != i;
        assert scores[j] < m;
        assert |w| != |scores|;
        assert w[0] == i && w[|w| - 1] == i;
        assert |w| == 1;
      }
    }
  }
}
