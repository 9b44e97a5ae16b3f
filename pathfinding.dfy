/** The visibility-graph pathfinding demo: nodes placed with the mouse, walls
    dragged out as rectangles, each node's neighbour list rebuilt by casting rays,
    a breadth-first search for the path with the fewest edges and an enumeration of
    all simple paths. Nodes are named by ids handed out in creation order; a
    removed ("killed") node keeps its id, position and last neighbour list. */
module Pathfinding {
  import opened Wrappers
  import opened Seqs
  import opened Rects
  import opened Lines
  import opened Graphs

  const ScreenWidth: int := 1024
  const ScreenHeight: int := 768
  /** Side of the square sprite of a node. */
  const NodeSize: nat := 20

  /** The sprite rectangle of a node: 20 x 20, centred on its position. */
  function NodeRect(p: Point): (r: Rect)
    ensures r == Rect(p.x - 10, p.y - 10, 20, 20)
    ensures CollidePoint(r, p)
  {
    CenteredAt(p, NodeSize, NodeSize)
  }

  /** What a ray cast depends on: the live nodes in group order, every node's
      position, and the walls. */
  datatype Scene = Scene(nodes: seq<NodeId>, position: map<NodeId, Point>, walls: seq<Rect>)
  {
    predicate Wf()
    {
      forall n :: n in nodes ==> n in position
    }
  }

  /** The ray cast from a's position to b's. */
  function Ray(s: Scene, a: NodeId, b: NodeId): Line
    requires a in s.position && b in s.position
  {
    Line(s.position[a], s.position[b])
  }

  /** The segment meets at least one of the rectangles. */
  predicate HitsAny(l: Line, rs: seq<Rect>)
  {
    rs != [] && (HitsAny(l, rs[..|rs| - 1]) || IntersectsRect(l, rs[|rs| - 1]))
  }

  /** The sprites of the nodes of ns other than a and b, in the order of ns. */
  function ThirdNodeRects(s: Scene, a: NodeId, b: NodeId, ns: seq<NodeId>): seq<Rect>
    requires forall n :: n in ns ==> n in s.position
  {
    if ns == [] then []
    else
      var n := ns[|ns| - 1];
      ThirdNodeRects(s, a, b, ns[..|ns| - 1]) + (if n != a && n != b then [NodeRect(s.position[n])] else [])
  }

  /** The ray from a to b meets a wall or the sprite of a live node other than a and b. */
  predicate Blocked(s: Scene, a: NodeId, b: NodeId)
    requires s.Wf() && a in s.position && b in s.position
  {
    HitsAny(Ray(s, a, b), s.walls) || HitsAny(Ray(s, a, b), ThirdNodeRects(s, a, b, s.nodes))
  }

  /** Can b be seen from a: another live node whose ray is not blocked. */
  predicate Sees(s: Scene, a: NodeId, b: NodeId)
    requires s.Wf() && a in s.position
  {
    b in s.nodes && b != a && !Blocked(s, a, b)
  }

  /** The neighbour list find_neighbors builds for a: the live nodes it sees, in
      group order. */
  function VisibleFrom(s: Scene, a: NodeId): seq<NodeId>
    requires s.Wf() && a in s.position
  {
    SeenAmong(s, a, s.nodes)
  }

  /** The nodes of ns that a sees, in the order of ns. */
  function SeenAmong(s: Scene, a: NodeId, ns: seq<NodeId>): seq<NodeId>
    requires s.Wf() && a in s.position
  {
    Filter(ns, b => Sees(s, a, b))
  }

  /** The nodes of ns whose sprite does not overlap the wall. */
  function ClearOfWall(ns: seq<NodeId>, position: map<NodeId, Point>, wall: Rect): seq<NodeId>
  {
    Filter(ns, n => n in position && !CollideRect(wall, NodeRect(position[n])))
  }

  /** The nodes of ns whose sprite is not under the mouse. */
  function NotUnderMouse(ns: seq<NodeId>, position: map<NodeId, Point>, mouse: Point): seq<NodeId>
  {
    Filter(ns, n => n in position && !CollidePoint(NodeRect(position[n]), mouse))
  }

  /** No node of ns has its sprite under the mouse. */
  predicate NoneUnder(ns: seq<NodeId>, position: map<NodeId, Point>, mouse: Point)
  {
    forall n :: n in ns && n in position ==> !CollidePoint(NodeRect(position[n]), mouse)
  }

  /** The walls not under the mouse. */
  function WallsNotUnder(ws: seq<Rect>, mouse: Point): seq<Rect>
  {
    Filter(ws, w => !CollidePoint(w, mouse))
  }

  /** The graph the breadth-first search explores: every known node with the list
      find_neighbors gives it in scene s. */
  function VisibilityGraph(s: Scene): (g: Graph)
    requires s.Wf()
    ensures g.Keys == s.position.Keys
  {
    map n | n in s.position :: VisibleFrom(s, n)
  }

  // ---------------------------------------------------------------------------
  // Properties of the neighbour relation

  /** B is a neighbour of A iff B is another live node and the ray from A to B hits no
      wall and no third node; a node is never its own neighbour; no neighbour is
      listed twice. */
  lemma VisibleFromMeaning(s: Scene, a: NodeId, b: NodeId)
    requires s.Wf() && a in s.position && NoDup(s.nodes)
    ensures b in VisibleFrom(s, a) <==> b in s.nodes && b != a && !Blocked(s, a, b)
    ensures a !in VisibleFrom(s, a)
    ensures NoDup(VisibleFrom(s, a))
  {
    SeenAmongMembers(s, a, s.nodes, b);
    SeenAmongMembers(s, a, s.nodes, a);
    FilterNoDup(s.nodes, b => Sees(s, a, b));
  }

  lemma SeenAmongMembers(s: Scene, a: NodeId, ns: seq<NodeId>, b: NodeId)
    requires s.Wf() && a in s.position
    ensures b in SeenAmong(s, a, ns) <==> b in ns && Sees(s, a, b)
  {
    FilterMembers(ns, b => Sees(s, a, b));
  }

  lemma HitsAnyMeaning(l: Line, rs: seq<Rect>)
    ensures HitsAny(l, rs) <==> exists k :: 0 <= k < |rs| && IntersectsRect(l, rs[k])
  {
    var hit := r => IntersectsRect(l, r);
    HitsAnyIsAnyOf(l, rs);
    AnyOfMeaning(rs, hit);
  }

  lemma {:induction false} HitsAnyIsAnyOf(l: Line, rs: seq<Rect>)
    ensures HitsAny(l, rs) == AnyOf(rs, r => IntersectsRect(l, r))
  {
    if rs != [] {
      HitsAnyIsAnyOf(l, rs[..|rs| - 1]);
    }
  }

  lemma {:induction false} HitsThirdNodeWitness(s: Scene, a: NodeId, b: NodeId, ns: seq<NodeId>) returns (n: NodeId)
    requires a in s.position && b in s.position
    requires forall m :: m in ns ==> m in s.position
    requires HitsAny(Ray(s, a, b), ThirdNodeRects(s, a, b, ns))
    ensures n in ns && n != a && n != b && IntersectsRect(Ray(s, a, b), NodeRect(s.position[n]))
  {
    var init, last := ns[..|ns| - 1], ns[|ns| - 1];
    var l, R := Ray(s, a, b), ThirdNodeRects(s, a, b, init);
    assert ns == init + [last];
    ThirdNodeRectsSnoc(s, a, b, init, last);
    if last != a && last != b {
      var x := NodeRect(s.position[last]);
      assert ThirdNodeRects(s, a, b, ns) == R + [x];
      HitsAnySnoc(l, R, x);
      if IntersectsRect(l, x) {
        return last;
      }
      assert HitsAny(l, R);
    } else {
      assert ThirdNodeRects(s, a, b, ns) == R;
    }
    n := HitsThirdNodeWitness(s, a, b, init);
  }

  lemma {:induction false} HitsThirdNodeFrom(s: Scene, a: NodeId, b: NodeId, ns: seq<NodeId>, n: NodeId)
    requires a in s.position && b in s.position
    requires forall m :: m in ns ==> m in s.position
    requires n in ns && n != a && n != b && IntersectsRect(Ray(s, a, b), NodeRect(s.position[n]))
    ensures HitsAny(Ray(s, a, b), ThirdNodeRects(s, a, b, ns))
  {
    var init, last := ns[..|ns| - 1], ns[|ns| - 1];
    var l, R := Ray(s, a, b), ThirdNodeRects(s, a, b, init);
    assert ns == init + [last];
    ThirdNodeRectsSnoc(s, a, b, init, last);
    if n != last {
      assert n in init;
      HitsThirdNodeFrom(s, a, b, init, n);
    }
    if last != a && last != b {
      var x := NodeRect(s.position[last]);
      assert ThirdNodeRects(s, a, b, ns) == R + [x];
      HitsAnySnoc(l, R, x);
    } else {
      assert ThirdNodeRects(s, a, b, ns) == R;
    }
  }

  /** Blocking, spelled out: B is hidden from A exactly when the ray from A to B meets
      some wall, or the sprite of some live node other than A and B. */
  lemma BlockedMeaning(s: Scene, a: NodeId, b: NodeId)
    requires s.Wf() && a in s.position && b in s.position
    ensures Blocked(s, a, b) <==>
            (exists k :: 0 <= k < |s.walls| && IntersectsRect(Ray(s, a, b), s.walls[k])) ||
            (exists n :: n in s.nodes && n != a && n != b && IntersectsRect(Ray(s, a, b), NodeRect(s.position[n])))
  {
    HitsAnyMeaning(Ray(s, a, b), s.walls);
    if HitsAny(Ray(s, a, b), ThirdNodeRects(s, a, b, s.nodes)) {
      var _ := HitsThirdNodeWitness(s, a, b, s.nodes);
    }
    if n :| n in s.nodes && n != a && n != b && IntersectsRect(Ray(s, a, b), NodeRect(s.position[n])) {
      HitsThirdNodeFrom(s, a, b, s.nodes, n);
    }
  }

  lemma {:induction false} HitsAnyReversed(l: Line, rs: seq<Rect>)
    ensures HitsAny(Reversed(l), rs) == HitsAny(l, rs)
  {
    if rs != [] {
      HitsAnyReversed(l, rs[..|rs| - 1]);
      IntersectsRectReversed(l, rs[|rs| - 1]);
    }
  }

  lemma {:induction false} ThirdNodeRectsSymmetric(s: Scene, a: NodeId, b: NodeId, ns: seq<NodeId>)
    requires forall n :: n in ns ==> n in s.position
    ensures ThirdNodeRects(s, a, b, ns) == ThirdNodeRects(s, b, a, ns)
  {
    if ns != [] {
      ThirdNodeRectsSymmetric(s, a, b, ns[..|ns| - 1]);
    }
  }

  /** Blocking does not depend on which end the ray is cast from. */
  lemma BlockedSymmetric(s: Scene, a: NodeId, b: NodeId)
    requires s.Wf() && a in s.position && b in s.position
    ensures Blocked(s, a, b) == Blocked(s, b, a)
  {
    assert Ray(s, b, a) == Reversed(Ray(s, a, b));
    HitsAnyReversed(Ray(s, a, b), s.walls);
    ThirdNodeRectsSymmetric(s, a, b, s.nodes);
    HitsAnyReversed(Ray(s, a, b), ThirdNodeRects(s, a, b, s.nodes));
  }

  /** The visibility graph is undirected among live nodes: A lists B iff B lists A. */
  lemma VisibilitySymmetric(s: Scene, a: NodeId, b: NodeId)
    requires s.Wf() && a in s.position && b in s.position
    requires a in s.nodes && b in s.nodes
    ensures b in VisibleFrom(s, a) <==> a in VisibleFrom(s, b)
  {
    SeenAmongMembers(s, a, s.nodes, b);
    SeenAmongMembers(s, b, s.nodes, a);
    BlockedSymmetric(s, a, b);
  }

  lemma SeenAmongSnoc(s: Scene, a: NodeId, ns: seq<NodeId>, b: NodeId)
    requires s.Wf() && a in s.position
    ensures SeenAmong(s, a, ns + [b]) == SeenAmong(s, a, ns) + (if Sees(s, a, b) then [b] else [])
  {
    FilterSnoc(ns, b, b => Sees(s, a, b));
  }

  lemma ThirdNodeRectsSnoc(s: Scene, a: NodeId, b: NodeId, ns: seq<NodeId>, n: NodeId)
    requires forall m :: m in ns ==> m in s.position
    requires n in s.position
    ensures ThirdNodeRects(s, a, b, ns + [n]) ==
            ThirdNodeRects(s, a, b, ns) + (if n != a && n != b then [NodeRect(s.position[n])] else [])
  {
    assert (ns + [n])[..|ns|] == ns;
  }

  lemma HitsAnySnoc(l: Line, rs: seq<Rect>, r: Rect)
    ensures HitsAny(l, rs + [r]) == (HitsAny(l, rs) || IntersectsRect(l, r))
  {
    assert (rs + [r])[..|rs|] == rs;
  }

  lemma ClearOfWallSnoc(ns: seq<NodeId>, position: map<NodeId, Point>, wall: Rect, n: NodeId)
    requires n in position
    ensures ClearOfWall(ns + [n], position, wall) ==
            ClearOfWall(ns, position, wall) + (if CollideRect(wall, NodeRect(position[n])) then [] else [n])
  {
    FilterSnoc(ns, n, n => n in position && !CollideRect(wall, NodeRect(position[n])));
  }

  lemma ClearOfWallPrefix(ns: seq<NodeId>, position: map<NodeId, Point>, wall: Rect, i: nat)
    requires i < |ns| && ns[i] in position
    ensures ClearOfWall(ns[..i + 1], position, wall) ==
            ClearOfWall(ns[..i], position, wall) + (if CollideRect(wall, NodeRect(position[ns[i]])) then [] else [ns[i]])
  {
    assert ns[..i + 1] == ns[..i] + [ns[i]];
    ClearOfWallSnoc(ns[..i], position, wall, ns[i]);
  }

  lemma NotUnderMouseSnoc(ns: seq<NodeId>, position: map<NodeId, Point>, mouse: Point, n: NodeId)
    requires n in position
    ensures NotUnderMouse(ns + [n], position, mouse) ==
            NotUnderMouse(ns, position, mouse) + (if CollidePoint(NodeRect(position[n]), mouse) then [] else [n])
  {
    FilterSnoc(ns, n, n => n in position && !CollidePoint(NodeRect(position[n]), mouse));
  }

  lemma NotUnderMousePrefix(ns: seq<NodeId>, position: map<NodeId, Point>, mouse: Point, i: nat)
    requires i < |ns| && ns[i] in position
    ensures NotUnderMouse(ns[..i + 1], position, mouse) ==
            NotUnderMouse(ns[..i], position, mouse) + (if CollidePoint(NodeRect(position[ns[i]]), mouse) then [] else [ns[i]])
  {
    assert ns[..i + 1] == ns[..i] + [ns[i]];
    NotUnderMouseSnoc(ns[..i], position, mouse, ns[i]);
  }

  lemma WallsNotUnderSnoc(ws: seq<Rect>, mouse: Point, w: Rect)
    ensures WallsNotUnder(ws + [w], mouse) == WallsNotUnder(ws, mouse) + (if CollidePoint(w, mouse) then [] else [w])
  {
    FilterSnoc(ws, w, w => !CollidePoint(w, mouse));
  }

  /** Removing nodes keeps the group free of repetitions and within the old group. */
  lemma ClearOfWallKeeps(ns: seq<NodeId>, position: map<NodeId, Point>, wall: Rect)
    requires NoDup(ns)
    ensures NoDup(ClearOfWall(ns, position, wall))
    ensures forall n :: n in ClearOfWall(ns, position, wall) ==> n in ns
  {
    FilterNoDup(ns, n => n in position && !CollideRect(wall, NodeRect(position[n])));
    FilterWithin(ns, n => n in position && !CollideRect(wall, NodeRect(position[n])));
  }

  /** A wall removes exactly the live nodes whose sprite it overlaps. */
  lemma ClearOfWallMembers(ns: seq<NodeId>, position: map<NodeId, Point>, wall: Rect)
    ensures forall n :: n in ClearOfWall(ns, position, wall) <==>
                        n in ns && n in position && !CollideRect(wall, NodeRect(position[n]))
  {
    FilterMembers(ns, n => n in position && !CollideRect(wall, NodeRect(position[n])));
  }

  /** Removing nodes under the mouse keeps the group free of repetitions and within
      the old group, and leaves no node under the mouse. */
  lemma NotUnderMouseKeeps(ns: seq<NodeId>, position: map<NodeId, Point>, mouse: Point)
    requires NoDup(ns)
    ensures NoDup(NotUnderMouse(ns, position, mouse))
    ensures forall n :: n in NotUnderMouse(ns, position, mouse) ==> n in ns
    ensures NoneUnder(NotUnderMouse(ns, position, mouse), position, mouse)
  {
    FilterNoDup(ns, n => n in position && !CollidePoint(NodeRect(position[n]), mouse));
    FilterWithin(ns, n => n in position && !CollidePoint(NodeRect(position[n]), mouse));
    NotUnderMouseMembers(ns, position, mouse);
  }

  /** A right click removes exactly the live nodes whose sprite is under the mouse. */
  lemma NotUnderMouseMembers(ns: seq<NodeId>, position: map<NodeId, Point>, mouse: Point)
    ensures forall n :: n in NotUnderMouse(ns, position, mouse) <==>
                        n in ns && n in position && !CollidePoint(NodeRect(position[n]), mouse)
  {
    FilterMembers(ns, n => n in position && !CollidePoint(NodeRect(position[n]), mouse));
  }

  lemma WallsNotUnderMembers(ws: seq<Rect>, mouse: Point)
    ensures forall w :: w in WallsNotUnder(ws, mouse) <==> w in ws && !CollidePoint(w, mouse)
  {
    FilterMembers(ws, w => !CollidePoint(w, mouse));
  }

  // ---------------------------------------------------------------------------
  // Wall dragging

  /** The wall a middle-button drag from `from` to `to` places, if any: the top-left
      corner is chosen by the signs of the drag, the size is its absolute extent, and
      no wall is made unless both extents exceed 2 pixels. */
  function WallFromDrag(from: Point, to: Point): Option<Rect>
  {
    var w := to.x - from.x;
    var h := to.y - from.y;
    var corner :=
      if w > 0 && h > 0 then from
      else if w > 0 && h < 0 then Point(to.x - w, to.y)
      else if w < 0 && h > 0 then Point(to.x, to.y - h)
      else to;
    if Abs(w) > 2 && Abs(h) > 2 then Some(Rect(corner.x, corner.y, Abs(w), Abs(h))) else None
  }

  function Abs(n: int): (r: nat)
    ensures r == n || r == -n
  {
    if n < 0 then -n else n
  }

  function Min(a: int, b: int): (r: int)
    ensures r <= a && r <= b && (r == a || r == b)
  {
    if a <= b then a else b
  }

  /** Whatever the direction of the drag, the wall spans exactly the dragged box:
      top-left at the smaller coordinates, size the absolute extents, and it exists
      iff both extents exceed 2. */
  lemma WallFromDragNormalises(from: Point, to: Point)
    ensures WallFromDrag(from, to).Some? <==> Abs(to.x - from.x) > 2 && Abs(to.y - from.y) > 2
    ensures WallFromDrag(from, to).Some? ==>
              WallFromDrag(from, to).value ==
                Rect(Min(from.x, to.x), Min(from.y, to.y), Abs(to.x - from.x), Abs(to.y - from.y))
  {
  }

  /** Dragging one way or the other makes the same wall. */
  lemma WallFromDragSymmetric(from: Point, to: Point)
    ensures WallFromDrag(from, to) == WallFromDrag(to, from)
  {
    WallFromDragNormalises(from, to);
    WallFromDragNormalises(to, from);
  }

  /** Where a drag in progress began, once this frame's middle press is seen. */
  function DragStart(input: MouseInput, rectStart: Option<Point>): Option<Point>
  {
    if input.middlePressed then Some(input.pos) else rectStart
  }

  /** The wall a frame adds: one at most, on a middle release ending a long enough drag. */
  function DraggedWall(input: MouseInput, rectStart: Option<Point>): (r: seq<Rect>)
    ensures |r| <= 1
    ensures r != [] ==> input.middleReleased && r[0].w > 2 && r[0].h > 2
  {
    var from := DragStart(input, rectStart);
    if input.middleReleased && from.Some? && WallFromDrag(from.value, input.pos).Some?
    then [WallFromDrag(from.value, input.pos).value]
    else []
  }

  /** The node group after the second half of a frame: the nodes under the wall the
      frame drags go first, then, on a right click, those under the mouse. */
  function FrameSurvivors(ns: seq<NodeId>, position: map<NodeId, Point>, dragged: seq<Rect>,
                          rightPressed: bool, mouse: Point): seq<NodeId>
  {
    var cleared := if dragged == [] then ns else ClearOfWall(ns, position, dragged[0]);
    if rightPressed then NotUnderMouse(cleared, position, mouse) else cleared
  }

  // ---------------------------------------------------------------------------
  // Ray casting

  /** The inner loops of find_neighbors: does any wall, or any live node other than
      the two ends, stand in the ray from a to b. */
  method RayBlocked(sc: Scene, a: NodeId, b: NodeId) returns (intersects: bool)
    requires sc.Wf() && a in sc.position && b in sc.position
    ensures intersects == Blocked(sc, a, b)
  {
    var ray := Line(sc.position[a], sc.position[b]);
    intersects := RayHitsWalls(ray, sc.walls);
    intersects := RayHitsNodes(sc, a, b, intersects);
  }

  /** The wall loop of find_neighbors: does the ray cross any wall. */
  method RayHitsWalls(ray: Line, walls: seq<Rect>) returns (intersects: bool)
    ensures intersects == HitsAny(ray, walls)
  {
    intersects := false;
    for k := 0 to |walls|
      invariant intersects == HitsAny(ray, walls[..k])
    {
      assert walls[..k + 1] == walls[..k] + [walls[k]];
      HitsAnySnoc(ray, walls[..k], walls[k]);
      if IntersectsRect(ray, walls[k]) {
        intersects := true;
      }
    }
    assert walls[..|walls|] == walls;
  }

  /** The node loop of find_neighbors, which keeps the flag the wall loop left: does
      the ray from a to b cross the sprite of any other live node. */
  method RayHitsNodes(sc: Scene, a: NodeId, b: NodeId, hitWall: bool) returns (intersects: bool)
    requires sc.Wf() && a in sc.position && b in sc.position
    ensures intersects == (hitWall || HitsAny(Ray(sc, a, b), ThirdNodeRects(sc, a, b, sc.nodes)))
  {
    var ray, nodes := Ray(sc, a, b), sc.nodes;
    intersects := hitWall;
    for k := 0 to |nodes|
      invariant intersects == (hitWall || HitsAny(ray, ThirdNodeRects(sc, a, b, nodes[..k])))
    {
      var other := nodes[k];
      assert nodes[..k + 1] == nodes[..k] + [other];
      ThirdNodeRectsSnoc(sc, a, b, nodes[..k], other);
      ghost var R := ThirdNodeRects(sc, a, b, nodes[..k]);
      if other == a || other == b {
        assert ThirdNodeRects(sc, a, b, nodes[..k + 1]) == R;
      } else {
        var rect := NodeRect(sc.position[other]);
        assert ThirdNodeRects(sc, a, b, nodes[..k + 1]) == R + [rect];
        HitsAnySnoc(ray, R, rect);
        if IntersectsRect(ray, rect) {
          intersects := true;
        }
      }
    }
    assert nodes[..|nodes|] == nodes;
  }

  /** The loop of Node.find_neighbors: every other live node, in group order, whose
      ray from a is not blocked. */
  method SeenList(sc: Scene, a: NodeId) returns (list: seq<NodeId>)
    requires sc.Wf() && a in sc.position
    ensures list == VisibleFrom(sc, a)
  {
    var nodes := sc.nodes;
    list := [];
    for i := 0 to |nodes|
      invariant list == SeenAmong(sc, a, nodes[..i])
    {
      var node := nodes[i];
      assert nodes[..i + 1] == nodes[..i] + [node];
      SeenAmongSnoc(sc, a, nodes[..i], node);
      if node != a {
        var intersects := RayBlocked(sc, a, node);
        if !intersects {
          list := list + [node];
        }
      }
    }
    assert nodes[..|nodes|] == nodes;
  }

  /** The loop of Wall.__init__ that kills every node the new wall overlaps. */
  method ClearList(ns: seq<NodeId>, position: map<NodeId, Point>, wall: Rect) returns (kept: seq<NodeId>)
    requires forall n :: n in ns ==> n in position
    ensures kept == ClearOfWall(ns, position, wall)
  {
    kept := [];
    for i := 0 to |ns|
      invariant kept == ClearOfWall(ns[..i], position, wall)
    {
      var n := ns[i];
      ClearOfWallPrefix(ns, position, wall, i);
      if !CollideRect(wall, NodeRect(position[n])) {
        kept := kept + [n];
      }
    }
    assert ns[..|ns|] == ns;
  }

  /** The loop of the right-click branch that kills every node under the mouse. */
  method UnderMouseList(ns: seq<NodeId>, position: map<NodeId, Point>, mouse: Point) returns (kept: seq<NodeId>)
    requires forall n :: n in ns ==> n in position
    ensures kept == NotUnderMouse(ns, position, mouse)
  {
    kept := [];
    for i := 0 to |ns|
      invariant kept == NotUnderMouse(ns[..i], position, mouse)
    {
      var n := ns[i];
      NotUnderMousePrefix(ns, position, mouse, i);
      if !CollidePoint(NodeRect(position[n]), mouse) {
        kept := kept + [n];
      }
    }
    assert ns[..|ns|] == ns;
  }

  // ---------------------------------------------------------------------------
  // Breadth-first search over a fixed scene

  /** The exploration loop of breadth_first_search: a FIFO frontier from s, each
      dequeued node's neighbour list recomputed in the scene (find_neighbors), every
      undiscovered neighbour queued with the dequeued node as its parent. Returns
      came_from, the distances it implies, and the lists computed on the way. */
  method Explore(sc: Scene, s: NodeId)
    returns (cameFrom: map<NodeId, Option<NodeId>>, ghost dist: map<NodeId, nat>, lists: map<NodeId, seq<NodeId>>,
             ghost order: seq<NodeId>)
    requires sc.Wf() && s in sc.position
    ensures BfsState(VisibilityGraph(sc), s, cameFrom, dist, [])
    ensures IsBfsOrder(VisibilityGraph(sc), s, order) && ParentIsLister(VisibilityGraph(sc), s, cameFrom, order)
    ensures cameFrom.Keys <= sc.position.Keys
    ensures lists.Keys == cameFrom.Keys
    ensures forall n :: n in lists ==> lists[n] == VisibleFrom(sc, n)
  {
    ExploreInit(sc, s);
    ghost var d;
    cameFrom, dist, lists, order, d := ExploreLoop(sc, s, map[s := None], map[s := 0], [s], map[], [s], 0);
    ExploreDone(sc, s, cameFrom, dist, lists, order, d);
  }

  /** The while loop of the exploration, run until the frontier is empty. */
  method ExploreLoop(sc: Scene, s: NodeId, cameFrom0: map<NodeId, Option<NodeId>>, ghost dist0: map<NodeId, nat>,
                     frontier0: seq<NodeId>, lists0: map<NodeId, seq<NodeId>>, ghost order0: seq<NodeId>,
                     ghost d0: nat)
    returns (cameFrom: map<NodeId, Option<NodeId>>, ghost dist: map<NodeId, nat>, lists: map<NodeId, seq<NodeId>>,
             ghost order: seq<NodeId>, ghost d: nat)
    requires sc.Wf() && Exploring(sc, s, cameFrom0, dist0, frontier0, lists0, order0, d0)
    ensures Exploring(sc, s, cameFrom, dist, [], lists, order, d)
  {
    ghost var U := sc.position.Keys;
    var frontier := frontier0;
    cameFrom, dist, lists, order, d := cameFrom0, dist0, lists0, order0, d0;
    while frontier != []
      invariant Exploring(sc, s, cameFrom, dist, frontier, lists, order, d)
      decreases |U - cameFrom.Keys|, |frontier|
    {
      cameFrom, dist, frontier, lists, order := ExploreStep(sc, s, cameFrom, dist, frontier, lists, order, d);
      d := d + 1;
    }
  }

  lemma ExploreInit(sc: Scene, s: NodeId)
    requires sc.Wf() && s in sc.position
    ensures Exploring(sc, s, map[s := None], map[s := 0], [s], map[], [s], 0)
  {
    BfsInit(VisibilityGraph(sc), s);
    OrderInit(VisibilityGraph(sc), s);
  }

  lemma ExploreDone(sc: Scene, s: NodeId, cameFrom: map<NodeId, Option<NodeId>>, dist: map<NodeId, nat>,
                    lists: map<NodeId, seq<NodeId>>, order: seq<NodeId>, d: nat)
    requires sc.Wf() && Exploring(sc, s, cameFrom, dist, [], lists, order, d)
    ensures BfsState(VisibilityGraph(sc), s, cameFrom, dist, [])
    ensures cameFrom.Keys <= sc.position.Keys
    ensures lists.Keys == cameFrom.Keys
    ensures forall n :: n in lists ==> lists[n] == VisibleFrom(sc, n)
    ensures IsBfsOrder(VisibilityGraph(sc), s, order) && ParentIsLister(VisibilityGraph(sc), s, cameFrom, order)
  {
    assert |order[d..]| == 0;
    OrderDone(VisibilityGraph(sc), s, cameFrom, order);
  }

  /** The state of the exploration loop together with the dequeue order: the frontier
      is the tail of the order past the d nodes dequeued so far. */
  ghost predicate Exploring(sc: Scene, s: NodeId, cameFrom: map<NodeId, Option<NodeId>>, dist: map<NodeId, nat>,
                            frontier: seq<NodeId>, lists: map<NodeId, seq<NodeId>>, order: seq<NodeId>, d: nat)
    requires sc.Wf()
  {
    OrderedSearch(VisibilityGraph(sc), s, cameFrom, dist, frontier, order, d) &&
    cameFrom.Keys <= sc.position.Keys && ListsOk(sc, cameFrom.Keys, frontier, lists)
  }

  /** What the exploration loop keeps: the search state in the visibility graph, only
      known nodes discovered, and the list of every dequeued node recomputed. */
  ghost predicate ExploreState(sc: Scene, s: NodeId, cameFrom: map<NodeId, Option<NodeId>>,
                               dist: map<NodeId, nat>, frontier: seq<NodeId>, lists: map<NodeId, seq<NodeId>>)
    requires sc.Wf()
  {
    BfsState(VisibilityGraph(sc), s, cameFrom, dist, frontier) &&
    cameFrom.Keys <= sc.position.Keys && ListsOk(sc, cameFrom.Keys, frontier, lists)
  }

  /** The lists recomputed so far: one per discovered node that has left the frontier
      F, each what find_neighbors gives in scene sc. */
  ghost predicate ListsOk(sc: Scene, K: set<NodeId>, F: seq<NodeId>, lists: map<NodeId, seq<NodeId>>)
    requires sc.Wf()
  {
    lists.Keys <= K && (forall n :: n in K ==> n in lists || n in F) &&
    (forall n :: n in lists ==> n in sc.position && lists[n] == VisibleFrom(sc, n))
  }

  /** One turn of the exploration loop: dequeue the head, recompute its list, queue its
      undiscovered neighbours. Either a node is discovered or the frontier shrinks. */
  method ExploreStep(sc: Scene, s: NodeId, cameFrom: map<NodeId, Option<NodeId>>, ghost dist: map<NodeId, nat>,
                     frontier: seq<NodeId>, lists: map<NodeId, seq<NodeId>>, ghost order: seq<NodeId>, ghost d: nat)
    returns (cameFrom': map<NodeId, Option<NodeId>>, ghost dist': map<NodeId, nat>, frontier': seq<NodeId>,
             lists': map<NodeId, seq<NodeId>>, ghost order': seq<NodeId>)
    requires sc.Wf() && Exploring(sc, s, cameFrom, dist, frontier, lists, order, d) && frontier != []
    ensures Exploring(sc, s, cameFrom', dist', frontier', lists', order', d + 1)
    ensures |sc.position.Keys - cameFrom'.Keys| < |sc.position.Keys - cameFrom.Keys| ||
            (|sc.position.Keys - cameFrom'.Keys| == |sc.position.Keys - cameFrom.Keys| && |frontier'| < |frontier|)
  {
    ghost var G := VisibilityGraph(sc);
    var current := frontier[0];
    var nbrs := SeenList(sc, current);
    VisibilityGraphSucc(sc, current);
    VisibleAmongNodes(sc, current);
    cameFrom', dist', frontier' := VisitSuccessors(G, s, cameFrom, dist, frontier, nbrs);
    lists' := lists[current := nbrs];
    ListsStep(sc, cameFrom.Keys, frontier, lists, frontier', cameFrom'.Keys, nbrs);
    FewerUndiscovered(sc.position.Keys, cameFrom.Keys, cameFrom'.Keys);
    order' := OrderAfterVisit(G, s, cameFrom, order, d, frontier, cameFrom', frontier');
  }

  /** The visibility graph gives each known node its find_neighbors list. */
  lemma VisibilityGraphSucc(sc: Scene, n: NodeId)
    requires sc.Wf() && n in sc.position
    ensures Succ(VisibilityGraph(sc), n) == VisibleFrom(sc, n)
  {
  }

  /** Recording the dequeued head's list keeps the lists in step with the frontier. */
  lemma ListsStep(sc: Scene, K: set<NodeId>, F: seq<NodeId>, lists: map<NodeId, seq<NodeId>>,
                  F': seq<NodeId>, K': set<NodeId>, nbrs: seq<NodeId>)
    requires sc.Wf() && ListsOk(sc, K, F, lists) && F != [] && F[0] in K && K <= K'
    requires K <= sc.position.Keys && nbrs == VisibleFrom(sc, F[0])
    requires |F| - 1 <= |F'| && F'[..|F| - 1] == F[1..]
    requires forall n :: n in K' && n !in K ==> n in F'
    ensures ListsOk(sc, K', F', lists[F[0] := nbrs])
  {
    forall n | n in K' && n in K && n !in lists && n != F[0]
      ensures n in F'
    {
      var k :| 0 <= k < |F| && F[k] == n;
      assert F'[k - 1] == F[1..][k - 1];
    }
  }

  /** Every node find_neighbors lists is a live node. */
  lemma VisibleAmongNodes(sc: Scene, a: NodeId)
    requires sc.Wf() && a in sc.position
    ensures forall n :: n in VisibleFrom(sc, a) ==> n in sc.position
  {
    forall n | n in VisibleFrom(sc, a)
      ensures n in sc.position
    {
      SeenAmongMembers(sc, a, sc.nodes, n);
    }
  }

  /** breadth_first_search over scene sc with stored lists nb: explores from s,
      stores the recomputed list of every reached node, and walks back from goal. */
  method Search(sc: Scene, nb: Graph, s: NodeId, goal: NodeId)
    returns (refreshed: Graph, r: Result<seq<NodeId>, Failure>, ghost order: seq<NodeId>)
    requires sc.Wf() && NoDup(sc.nodes) && SuccNoDup(nb) && sc.position.Keys == nb.Keys
    requires s in sc.position && goal in sc.position
    ensures SuccNoDup(refreshed) && refreshed.Keys == nb.Keys
    ensures forall n :: n in refreshed ==>
              refreshed[n] == if Reachable(VisibilityGraph(sc), s, n) then VisibleFrom(sc, n) else nb[n]
    ensures r.Ok? <==> Reachable(VisibilityGraph(sc), s, goal)
    ensures r.Err? ==> r.error == KeyError
    ensures r.Ok? ==> IsPath(VisibilityGraph(sc), r.value, s, goal)
    ensures r.Ok? ==> forall p :: IsPath(VisibilityGraph(sc), p, s, goal) ==> |r.value| <= |p|
    ensures IsBfsOrder(VisibilityGraph(sc), s, order)
    ensures r.Ok? ==> InBfsTree(VisibilityGraph(sc), order, r.value)
  {
    ghost var G := VisibilityGraph(sc);
    var cameFrom, lists;
    ghost var dist;
    cameFrom, dist, lists, order := Explore(sc, s);
    DiscoveredIsReachable(G, s, cameFrom, dist);
    RefreshLists(sc, nb, lists);
    refreshed := nb + lists;
    r := WalkBack(G, s, goal, cameFrom, dist);
    if r.Ok? {
      TreePath(G, s, cameFrom, order, r.value);
    }
  }

  /** Storing the recomputed lists over the old ones: every list still has no
      duplicates, no node is added, and exactly the recomputed nodes change. */
  lemma RefreshLists(sc: Scene, nb: Graph, lists: map<NodeId, seq<NodeId>>)
    requires sc.Wf() && NoDup(sc.nodes) && SuccNoDup(nb) && lists.Keys <= nb.Keys
    requires forall n :: n in lists ==> n in sc.position && lists[n] == VisibleFrom(sc, n)
    ensures SuccNoDup(nb + lists) && (nb + lists).Keys == nb.Keys
    ensures forall n :: n in nb ==> (nb + lists)[n] == if n in lists then VisibleFrom(sc, n) else nb[n]
  {
    forall n | n in lists
      ensures NoDup(lists[n])
    {
      VisibleFromMeaning(sc, n, n);
    }
  }

  /** The path reconstruction of breadth_first_search: follows came_from back from
      goal to s and reverses. A goal that was never discovered fails with a KeyError;
      otherwise the path is a shortest one. */
  method WalkBack(ghost g: Graph, s: NodeId, goal: NodeId, cameFrom: map<NodeId, Option<NodeId>>,
                  ghost dist: map<NodeId, nat>) returns (r: Result<seq<NodeId>, Failure>)
    requires BfsState(g, s, cameFrom, dist, [])
    ensures r.Ok? <==> goal in cameFrom
    ensures r.Err? ==> r.error == KeyError
    ensures r.Ok? ==> IsPath(g, r.value, s, goal)
    ensures r.Ok? ==> forall p :: IsPath(g, p, s, goal) ==> |r.value| <= |p|
    ensures r.Ok? ==> FollowsParents(cameFrom, r.value)
  {
    var current := goal;
    var path: seq<NodeId> := [];
    while current != s
      invariant current in cameFrom || (current == goal && path == [])
      invariant current in cameFrom ==> |path| + dist[current] == dist[goal]
      invariant current in cameFrom ==> IsBackWalk(g, path + [current])
      invariant BackParents(cameFrom, path + [current])
      invariant path != [] ==> path[0] == goal
      invariant path == [] ==> current == goal
      decreases if current in cameFrom then dist[current] + 1 else 0
    {
      if current !in cameFrom {
        return Err(KeyError);
      }
      var parent := cameFrom[current].value;
      assert IsBackWalk(g, path + [current] + [parent]) by {
        BackWalkSnoc(g, path + [current], parent);
      }
      BackParentsSnoc(cameFrom, path + [current], parent);
      path := path + [current];
      current := parent;
    }
    path := path + [s];
    assert path[0] == goal;
    ReverseBackWalk(g, path);
    ReverseBackParents(cameFrom, path);
    r := Ok(Reverse(path));
  }

  // ---------------------------------------------------------------------------
  // The game

  datatype Failure = AttributeError | KeyError

  /** The mouse state of one frame, as Game.events collects it. */
  datatype MouseInput = MouseInput(pos: Point, leftPressed: bool, middlePressed: bool,
                                   middleReleased: bool, rightPressed: bool)

  class Game {
    /** The node group, in insertion order. */
    var nodes: seq<NodeId>
    /** Position of every node ever created. */
    var position: map<NodeId, Point>
    /** The neighbour list of every node ever created. */
    var neighbors: map<NodeId, seq<NodeId>>
    /** The wall group, in insertion order. */
    var walls: seq<Rect>
    /** Where the current wall drag began; None after a drag has ended. */
    var rectStart: Option<Point>
    var nextId: NodeId
    var start: NodeId
    var finish: NodeId

    function CurrentScene(): Scene
      reads this`nodes, this`position, this`walls
    {
      Scene(nodes, position, walls)
    }

    ghost predicate Valid()
      reads this
    {
      CurrentScene().Wf() && NoDup(nodes) &&
      start in position && finish in position &&
      position.Keys == neighbors.Keys &&
      (forall n :: n in position ==> n < nextId) &&
      SuccNoDup(neighbors)
    }

    /** Every live node's list is what find_neighbors computes in the current scene. */
    ghost predicate Consistent()
      reads this
      requires Valid()
    {
      forall i :: 0 <= i < |nodes| ==> neighbors[nodes[i]] == VisibleFrom(CurrentScene(), nodes[i])
    }

    /** Game.__init__: a start node at the left and a finish node at the right of the
        window's middle row, neighbours computed, and the drag start at (0, 0). */
    constructor ()
      ensures Valid() && Consistent()
      ensures nodes == [start, finish] && walls == []
      ensures position[start] == Point(40, ScreenHeight / 2)
      ensures position[finish] == Point(ScreenWidth - 40, ScreenHeight / 2)
      ensures rectStart == Some(Point(0, 0))
    {
      nodes := [0, 1];
      position := map[0 := Point(40, 384), 1 := Point(984, 384)];
      neighbors := map[0 := [], 1 := []];
      walls := [];
      rectStart := Some(Point(0, 0));
      nextId := 2;
      start := 0;
      finish := 1;
      new;
      RebuildNeighbors();
    }

    /** Node.__init__: a new node joins the group at p with an empty neighbour list. */
    method AddNode(p: Point) returns (id: NodeId)
      requires Valid()
      modifies this
      ensures Valid()
      ensures id == old(nextId) && id !in old(position)
      ensures nodes == old(nodes) + [id]
      ensures position == old(position)[id := p] && neighbors == old(neighbors)[id := []]
      ensures walls == old(walls) && rectStart == old(rectStart)
      ensures start == old(start) && finish == old(finish)
    {
      id := nextId;
      assert id !in nodes;
      NoDupSnoc(nodes, id);
      SuccNoDupUpdate(neighbors, id, []);
      nodes := nodes + [id];
      position := position[id := p];
      neighbors := neighbors[id := []];
      nextId := nextId + 1;
    }

    /** Node.find_neighbors: clears a's list and refills it with the nodes a sees. */
    method FindNeighbors(a: NodeId) returns (r: seq<NodeId>)
      requires Valid() && a in position
      modifies this`neighbors
      ensures Valid()
      ensures neighbors == old(neighbors)[a := VisibleFrom(CurrentScene(), a)]
      ensures r == neighbors[a]
    {
      var list := SeenList(CurrentScene(), a);
      VisibleFromMeaning(CurrentScene(), a, a);
      neighbors := neighbors[a := list];
      r := list;
    }

    /** `for node in self.nodes: node.find_neighbors()`: every live node's list is
        rebuilt; the lists of removed nodes are left as they were. */
    method RebuildNeighbors()
      requires Valid()
      modifies this`neighbors
      ensures Valid() && Consistent()
      ensures neighbors.Keys == old(neighbors).Keys
      ensures forall n :: n in neighbors && n !in nodes ==> neighbors[n] == old(neighbors)[n]
    {
      var ns := nodes;
      for i := 0 to |ns|
        invariant Valid() && nodes == ns
        invariant neighbors.Keys == old(neighbors).Keys
        invariant forall j :: 0 <= j < i ==> neighbors[ns[j]] == VisibleFrom(CurrentScene(), ns[j])
        invariant forall n :: n in neighbors && n !in ns[..i] ==> neighbors[n] == old(neighbors)[n]
      {
        assert ns[..i + 1] == ns[..i] + [ns[i]];
        var _ := FindNeighbors(ns[i]);
      }
    }

    /** Wall.update for every wall: a right click removes the walls under the mouse. */
    method UpdateWalls(mouse: Point, rightPressed: bool)
      modifies this`walls
      ensures walls == if rightPressed then WallsNotUnder(old(walls), mouse) else old(walls)
    {
      if rightPressed {
        var ws := walls;
        var kept: seq<Rect> := [];
        for i := 0 to |ws|
          invariant kept == WallsNotUnder(ws[..i], mouse)
        {
          assert ws[..i + 1] == ws[..i] + [ws[i]];
          WallsNotUnderSnoc(ws[..i], mouse, ws[i]);
          if !CollidePoint(ws[i], mouse) {
            kept := kept + [ws[i]];
          }
        }
        assert ws[..|ws|] == ws;
        walls := kept;
      }
    }

    /** Wall.__init__: the wall joins the group and every live node whose sprite
        overlaps it is removed. */
    method PlaceWall(wall: Rect)
      requires Valid()
      modifies this`walls, this`nodes
      ensures Valid()
      ensures walls == old(walls) + [wall]
      ensures nodes == ClearOfWall(old(nodes), position, wall)
    {
      walls := walls + [wall];
      var kept := ClearList(nodes, position, wall);
      ClearOfWallKeeps(nodes, position, wall);
      nodes := kept;
    }

    /** The right-click branch of Game.update: removes the live nodes under the mouse. */
    method RemoveNodesAt(mouse: Point)
      requires Valid()
      modifies this`nodes
      ensures Valid()
      ensures nodes == NotUnderMouse(old(nodes), position, mouse)
      ensures NoneUnder(nodes, position, mouse)
    {
      var kept := UnderMouseList(nodes, position, mouse);
      NotUnderMouseKeeps(nodes, position, mouse);
      nodes := kept;
    }

    /** The left-click branch of Game.update: a node is placed at the mouse, without
        any check against the walls, and all neighbour lists are rebuilt. */
    method LeftClick(p: Point)
      requires Valid()
      modifies this
      ensures Valid() && Consistent()
      ensures nodes == old(nodes) + [old(nextId)] && old(nextId) !in old(position)
      ensures position == old(position)[old(nextId) := p]
      ensures walls == old(walls) && rectStart == old(rectStart)
      ensures start == old(start) && finish == old(finish)
    {
      var _ := AddNode(p);
      RebuildNeighbors();
    }

    /** The wall placement of the middle-release branch: the dragged rectangle becomes
        a wall if it is large enough, and the drag ends. */
    method EndDrag(p: Point)
      requires Valid() && rectStart.Some?
      modifies this`walls, this`nodes, this`rectStart
      ensures Valid() && rectStart == None
      ensures walls == old(walls) + DraggedWall(MouseInput(p, false, false, true, false), old(rectStart))
      ensures var w := WallFromDrag(old(rectStart).value, p);
                nodes == if w.Some? then ClearOfWall(old(nodes), position, w.value) else old(nodes)
    {
      var wall := WallFromDrag(rectStart.value, p);
      assert DraggedWall(MouseInput(p, false, false, true, false), rectStart)
             == if wall.Some? then [wall.value] else [];
      rectStart := None;
      if wall.Some? {
        PlaceWall(wall.value);
      }
    }

    /** The middle-release branch of Game.update: the dragged wall is placed if it is
        large enough, the drag ends and all neighbour lists are rebuilt. With no drag in
        progress, reading the drag start fails. */
    method MiddleRelease(p: Point) returns (failed: Option<Failure>)
      requires Valid()
      modifies this
      ensures Valid()
      ensures failed.Some? <==> old(rectStart).None?
      ensures failed.Some? ==> failed.value == AttributeError && unchanged(this)
      ensures failed.None? ==> Consistent() && rectStart == None
      ensures failed.None? ==> walls == old(walls) + DraggedWall(MouseInput(p, false, false, true, false), old(rectStart))
      ensures failed.None? ==> var w := WallFromDrag(old(rectStart).value, p);
                nodes == if w.Some? then ClearOfWall(old(nodes), position, w.value) else old(nodes)
      ensures position == old(position) && start == old(start) && finish == old(finish)
    {
      if rectStart.None? {
        return Some(AttributeError);
      }
      EndDrag(p);
      RebuildNeighbors();
      failed := None;
    }

    /** The right-click branch of Game.update: the live nodes under the mouse are removed
        and all neighbour lists are rebuilt. */
    method RightClick(p: Point)
      requires Valid()
      modifies this
      ensures Valid() && Consistent()
      ensures nodes == NotUnderMouse(old(nodes), position, p)
      ensures NoneUnder(nodes, position, p)
      ensures position == old(position) && walls == old(walls) && rectStart == old(rectStart)
      ensures start == old(start) && finish == old(finish)
    {
      RemoveNodesAt(p);
      ghost var kept, pos := nodes, position;
      RebuildNeighbors();
      assert nodes == kept && position == pos;
    }

    /** Game.update for one frame: walls under a right click go first (the sprite
        update), then a left click places a node, a middle press starts a drag, a
        middle release places the dragged wall, and a right click removes nodes; each
        change is followed by a rebuild of all neighbour lists. A middle release with
        no drag in progress fails, as reading `rect_start.x` from None does. */
    method Update(input: MouseInput) returns (failed: Option<Failure>)
      requires Valid()
      modifies this
      ensures Valid()
      ensures failed.Some? <==> input.middleReleased && !input.middlePressed && old(rectStart).None?
      ensures failed.None? && (old(Consistent()) || input.leftPressed || input.middleReleased || input.rightPressed) ==>
                Consistent()
      ensures failed.None? && input.middleReleased ==> rectStart == None
      ensures input.middlePressed && !input.middleReleased ==> rectStart == Some(input.pos)
      ensures failed.None? ==>
                walls == (if input.rightPressed then WallsNotUnder(old(walls), input.pos) else old(walls))
                         + DraggedWall(input, old(rectStart))
      ensures input.leftPressed ==> old(nextId) in position && position[old(nextId)] == input.pos
      ensures input.leftPressed && !input.middleReleased && !input.rightPressed ==> old(nextId) in nodes
      ensures failed.None? && input.rightPressed ==>
                NoneUnder(nodes, position, input.pos)
      ensures position == if input.leftPressed then old(position)[old(nextId) := input.pos] else old(position)
      ensures failed.None? ==>
                nodes == FrameSurvivors(if input.leftPressed then old(nodes) + [old(nextId)] else old(nodes),
                                        position, DraggedWall(input, old(rectStart)), input.rightPressed, input.pos)
      ensures start == old(start) && finish == old(finish)
    {
      HandlePresses(input);
      assert DraggedWall(MouseInput(input.pos, false, false, input.middleReleased, false), rectStart)
             == DraggedWall(input, old(rectStart));
      failed := HandleReleaseAndRight(input);
    }

    /** The first half of Game.update: the wall sprites' update, the left-click branch
        and the middle-press branch. */
    method HandlePresses(input: MouseInput)
      requires Valid()
      modifies this
      ensures Valid()
      ensures (old(Consistent()) && !input.rightPressed) || input.leftPressed ==> Consistent()
      ensures rectStart == if input.middlePressed then Some(input.pos) else old(rectStart)
      ensures walls == if input.rightPressed then WallsNotUnder(old(walls), input.pos) else old(walls)
      ensures input.leftPressed ==> nodes == old(nodes) + [old(nextId)]
      ensures input.leftPressed ==> position == old(position)[old(nextId) := input.pos]
      ensures !input.leftPressed ==>
                nodes == old(nodes) && position == old(position) && neighbors == old(neighbors)
      ensures start == old(start) && finish == old(finish)
    {
      UpdateWalls(input.pos, input.rightPressed);
      if input.leftPressed {
        LeftClick(input.pos);
      }
      if input.middlePressed {
        rectStart := Some(input.pos);
      }
    }

    /** The second half of Game.update: the middle-release branch, which fails with no
        drag in progress, then the right-click branch. */
    method HandleReleaseAndRight(input: MouseInput) returns (failed: Option<Failure>)
      requires Valid()
      modifies this
      ensures Valid()
      ensures failed.Some? <==> input.middleReleased && old(rectStart).None?
      ensures failed.None? && (old(Consistent()) || input.middleReleased || input.rightPressed) ==>
                Consistent()
      ensures failed.None? && input.middleReleased ==> rectStart == None
      ensures !input.middleReleased ==> rectStart == old(rectStart)
      ensures failed.None? ==>
                walls == old(walls) + DraggedWall(MouseInput(input.pos, false, false, input.middleReleased, false),
                                                  old(rectStart))
      ensures !input.middleReleased && !input.rightPressed ==> nodes == old(nodes)
      ensures failed.None? ==>
                nodes == FrameSurvivors(old(nodes), position,
                                        DraggedWall(MouseInput(input.pos, false, false, input.middleReleased, false),
                                                    old(rectStart)),
                                        input.rightPressed, input.pos)
      ensures failed.None? && input.rightPressed ==> NoneUnder(nodes, position, input.pos)
      ensures position == old(position) && start == old(start) && finish == old(finish)
    {
      if input.middleReleased {
        failed := MiddleRelease(input.pos);
        if failed.Some? {
          return;
        }
      }
      if input.rightPressed {
        RightClick(input.pos);
      }
      failed := None;
    }

    /** `empty()` on every sprite group: no live node and no wall remain. */
    method EmptyGroups()
      requires Valid()
      modifies this`nodes, this`walls
      ensures Valid() && nodes == [] && walls == []
    {
      nodes := [];
      walls := [];
    }

    /** The start and finish nodes, at the left and right ends of the window's middle
        row, added to the node group. */
    method AddEndpoints()
      requires Valid()
      modifies this
      ensures Valid() && start != finish
      ensures nodes == old(nodes) + [start, finish] && walls == old(walls)
      ensures position[start] == Point(40, ScreenHeight / 2)
      ensures position[finish] == Point(ScreenWidth - 40, ScreenHeight / 2)
      ensures rectStart == old(rectStart)
    {
      var s := AddNode(Point(40, 384));
      var f := AddNode(Point(984, 384));
      start, finish := s, f;
    }

    /** The R key: every sprite is removed, fresh start and finish nodes are created
        and the neighbour lists rebuilt. */
    method Restart()
      requires Valid()
      modifies this
      ensures Valid() && Consistent()
      ensures walls == [] && nodes == [start, finish] && start != finish
      ensures position[start] == Point(40, ScreenHeight / 2)
      ensures position[finish] == Point(ScreenWidth - 40, ScreenHeight / 2)
      ensures rectStart == old(rectStart)
    {
      EmptyGroups();
      AddEndpoints();
      RebuildNeighbors();
    }

    /** Game.breadth_first_search: explores from s, recomputing the neighbour list of
        each node it dequeues, then walks came_from back from goal. The path has the
        fewest edges of any path in the visibility graph; an unreachable goal fails with
        a KeyError. Exactly the lists of the nodes reachable from s are recomputed. */
    method BreadthFirstSearch(s: NodeId, goal: NodeId) returns (r: Result<seq<NodeId>, Failure>)
      requires Valid() && s in position && goal in position
      modifies this`neighbors
      ensures Valid()
      ensures neighbors.Keys == old(neighbors).Keys
      ensures forall n :: n in neighbors ==>
                neighbors[n] == if Reachable(VisibilityGraph(CurrentScene()), s, n)
                                then VisibleFrom(CurrentScene(), n) else old(neighbors)[n]
      ensures r.Ok? <==> Reachable(VisibilityGraph(CurrentScene()), s, goal)
      ensures r.Err? ==> r.error == KeyError
      ensures r.Ok? ==> IsPath(VisibilityGraph(CurrentScene()), r.value, s, goal)
      ensures r.Ok? ==> forall p :: IsPath(VisibilityGraph(CurrentScene()), p, s, goal) ==> |r.value| <= |p|
      ensures r.Ok? ==> exists order :: IsBfsOrder(VisibilityGraph(CurrentScene()), s, order) &&
                                        InBfsTree(VisibilityGraph(CurrentScene()), order, r.value)
    {
      var refreshed;
      ghost var order;
      refreshed, r, order := Search(CurrentScene(), neighbors, s, goal);
      neighbors := refreshed;
    }

    /** Game.find_paths: a FIFO queue of paths over the stored neighbour lists, starting
        from [start]; every dequeued path ending at goal is kept, every one-node
        extension by a neighbour not yet on the path is queued, and the kept paths are
        sorted by length. */
    method FindPaths(s: NodeId, goal: NodeId) returns (r: seq<Path>)
      requires Valid()
      ensures r == AllPaths(neighbors, s, goal)
      ensures forall p :: p in r <==> IsSimplePath(neighbors, p, s, goal)
      ensures NoDup(r) && SortedByLength(r)
    {
      r := EnumeratePaths(neighbors, s, goal);
      AllPathsCorrect(neighbors, s, goal);
    }
  }

  /** The queue loop of find_paths over the lists g. */
  method EnumeratePaths(g: Graph, s: NodeId, goal: NodeId) returns (r: seq<Path>)
    ensures r == AllPaths(g, s, goal)
  {
    ghost var O := Order(g, s);
    var q: seq<Path> := [[s]];
    var paths: seq<Path> := [];
    ghost var c := 0;
    DequeuedInit(g, O, s, goal);
    while q != []
      invariant Dequeued(g, O, s, goal, c, q, paths)
      decreases |O| - c
    {
      q, paths := DequeuePath(g, O, s, goal, c, q, paths);
      c := c + 1;
    }
    DequeuedAll(g, O, s, goal, c, paths);
    r := SortByLength(paths);
  }

  lemma DequeuedInit(g: Graph, O: seq<Path>, s: NodeId, goal: NodeId)
    ensures Dequeued(g, O, s, goal, 0, [[s]], [])
  {
    assert O[..0] == [];
  }

  /** When the queue is empty every path of the order has been dequeued. */
  lemma DequeuedAll(g: Graph, O: seq<Path>, s: NodeId, goal: NodeId, c: nat, paths: seq<Path>)
    requires O == Order(g, s) && Dequeued(g, O, s, goal, c, [], paths)
    ensures paths == EndingAt(O, goal)
  {
    assert O[..c] + [] == O[..c];
    QueueDrained(g, s, c);
    assert O[..c] == O;
  }

  /** The state of the find_paths queue after c paths have been dequeued: they are
      the first c paths of the order O, the queue holds the rest of the start path and
      their children, and the kept paths are those of them that end at goal. */
  ghost predicate Dequeued(g: Graph, O: seq<Path>, s: NodeId, goal: NodeId, c: nat, q: seq<Path>, paths: seq<Path>)
  {
    c <= |O| && O[..c] + q == [[s]] + ChildrenAll(g, O[..c]) && paths == EndingAt(O[..c], goal)
  }

  /** One turn of the find_paths loop: dequeue a path, keep it when it ends at goal,
      queue its simple one-edge extensions. */
  method DequeuePath(g: Graph, ghost O: seq<Path>, s: NodeId, goal: NodeId, ghost c: nat, q: seq<Path>, paths: seq<Path>)
    returns (q': seq<Path>, paths': seq<Path>)
    requires O == Order(g, s) && Dequeued(g, O, s, goal, c, q, paths) && q != []
    ensures Dequeued(g, O, s, goal, c + 1, q', paths')
  {
    QueueHead(g, O, s, goal, c, q, paths);
    var path := q[0];
    var last := path[|path| - 1];
    paths' := paths;
    if last == goal {
      paths' := paths + [path];
    }
    q' := QueueChildren(path, Succ(g, last), q[1..]);
    DequeuedNext(g, O, s, goal, c, q, paths, q', paths');
  }

  /** The head of the queue is the next path of the order, and it is not empty. */
  lemma QueueHead(g: Graph, O: seq<Path>, s: NodeId, goal: NodeId, c: nat, q: seq<Path>, paths: seq<Path>)
    requires O == Order(g, s) && Dequeued(g, O, s, goal, c, q, paths) && q != []
    ensures c < |O| && q[0] == O[c] && q[0] != []
  {
    QueueIsPrefix(g, s, c);
    var X := [[s]] + ChildrenAll(g, O[..c]);
    assert X == O[..|X|];
    assert |X| == c + |q|;
    assert X[c] == q[0];
    OrderSorted(g, s);
    if c > 0 {
      assert |O[0]| <= |O[c]|;
    }
    assert O[0] == X[0];
  }

  /** Dequeuing the head, keeping it when it ends at goal and queueing its children
      gives the state after c + 1 paths. */
  lemma DequeuedNext(g: Graph, O: seq<Path>, s: NodeId, goal: NodeId, c: nat, q: seq<Path>, paths: seq<Path>,
                     q': seq<Path>, paths': seq<Path>)
    requires Dequeued(g, O, s, goal, c, q, paths) && c < |O| && q != [] && q[0] == O[c] && q[0] != []
    requires q' == q[1..] + ChildrenWith(q[0], Succ(g, q[0][|q[0]| - 1]))
    requires q[0][|q[0]| - 1] == goal ==> paths' == paths + [q[0]]
    requires q[0][|q[0]| - 1] != goal ==> paths' == paths
    ensures Dequeued(g, O, s, goal, c + 1, q', paths')
  {
    var path := q[0];
    var kids := ChildrenWith(path, Succ(g, path[|path| - 1]));
    DequeueShift(O, c, q, kids);
    assert paths' == EndingAt(O[..c + 1], goal) by {
      EndingAtSnoc(O[..c], path, goal);
    }
    assert O[..c + 1] + q' == [[s]] + ChildrenAll(g, O[..c + 1]) by {
      ChildrenAllConcat(g, O[..c], [path]);
      ChildrenAllSingle(g, path);
      AppendAssoc([[s]], ChildrenAll(g, O[..c]), kids);
    }
  }

  /** The inner loop of find_paths: every neighbour not already on the path extends it
      by one node at the back of the queue, in list order. */
  method QueueChildren(path: Path, nbrs: seq<NodeId>, q: seq<Path>) returns (q': seq<Path>)
    ensures q' == q + ChildrenWith(path, nbrs)
  {
    q' := q;
    for i := 0 to |nbrs|
      invariant q' == q + ChildrenWith(path, nbrs[..i])
    {
      var node := nbrs[i];
      ChildrenWithSnoc(path, nbrs[..i], node);
      assert nbrs[..i + 1] == nbrs[..i] + [node];
      if node !in path {
        q' := q' + [path + [node]];
      }
    }
    assert nbrs[..|nbrs|] == nbrs;
  }

  /** A path read from its far end: each node is a successor of the one after it. */
  predicate IsBackWalk(g: Graph, p: Path)
  {
    forall i :: 0 <= i < |p| - 1 ==> p[i] in Succ(g, p[i + 1])
  }

  lemma BackWalkSnoc(g: Graph, p: Path, n: NodeId)
    requires |p| > 0 && IsBackWalk(g, p) && p[|p| - 1] in Succ(g, n)
    ensures IsBackWalk(g, p + [n])
  {
  }

  /** p read from its far end follows came_from: each node but the last has the next
      one as parent. */
  ghost predicate BackParents(cameFrom: map<NodeId, Option<NodeId>>, p: Path)
  {
    forall i :: 0 <= i < |p| - 1 ==> p[i] in cameFrom && cameFrom[p[i]] == Some(p[i + 1])
  }

  lemma BackParentsSnoc(cameFrom: map<NodeId, Option<NodeId>>, p: Path, n: NodeId)
    requires |p| > 0 && BackParents(cameFrom, p) && p[|p| - 1] in cameFrom && cameFrom[p[|p| - 1]] == Some(n)
    ensures BackParents(cameFrom, p + [n])
  {
  }

  lemma ReverseBackParents(cameFrom: map<NodeId, Option<NodeId>>, p: Path)
    requires BackParents(cameFrom, p)
    ensures FollowsParents(cameFrom, Reverse(p))
  {
  }

  function Reverse(p: Path): (r: Path)
    ensures |r| == |p| && forall i :: 0 <= i < |p| ==> r[i] == p[|p| - 1 - i]
  {
    if p == [] then [] else Reverse(p[1..]) + [p[0]]
  }

  lemma ReverseBackWalk(g: Graph, p: Path)
    requires IsBackWalk(g, p)
    ensures IsWalk(g, Reverse(p))
  {
  }
}
