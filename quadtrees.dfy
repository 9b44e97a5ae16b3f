/** The point quadtree of the quadtree demo. A node covers a boundary rectangle and
    keeps at most `capacity` sprites of its own; once full it splits into four
    half-size quadrants and passes further sprites down. A range query collects the
    stored sprites lying in a rectangle. Sprite positions are the integer pixels
    their centres fall in. */
module Quadtrees {
  import opened Rects
  import opened Seqs

  /** The window, which is also the boundary of the tree rebuilt every frame. */
  const Width := 800
  const Height := 800
  const NodeCapacity := 4

  /** A circle sprite: an identity and the point the tree files it under. */
  datatype Sprite = Sprite(id: nat, pos: Point)

  /** The test a query applies to each stored sprite. */
  function Within(rect: Rect): Sprite -> bool
  {
    (s: Sprite) => CollidePoint(rect, s.pos)
  }

  /** Quadtree.subdivide's four child rectangles, k = 0, 1, 2, 3 for the fields
      northeast, northwest, southeast, southwest. Width and height are w / 2 and
      h / 2, and the far quadrants start at x + w / 2 and y + h / 2; pg.Rect
      truncates each of these to an integer. */
  function Quadrant(b: Rect, k: nat): Rect
    requires k < 4
  {
    var w, h := TruncHalf(b.w), TruncHalf(b.h);
    var midX, midY := TruncHalf(2 * b.x + b.w), TruncHalf(2 * b.y + b.h);
    if k == 0 then Rect(b.x, b.y, w, h)
    else if k == 1 then Rect(midX, b.y, w, h)
    else if k == 2 then Rect(b.x, midY, w, h)
    else Rect(midX, midY, w, h)
  }

  predicate InSomeQuadrant(b: Rect, p: Point)
  {
    CollidePoint(Quadrant(b, 0), p) || CollidePoint(Quadrant(b, 1), p) ||
    CollidePoint(Quadrant(b, 2), p) || CollidePoint(Quadrant(b, 3), p)
  }

  /** Every quadrant lies inside its parent's boundary, truncation included. */
  lemma QuadrantWithin(b: Rect, k: nat, p: Point)
    requires k < 4 && CollidePoint(Quadrant(b, k), p)
    ensures CollidePoint(b, p)
  {
    var w, h := TruncHalf(b.w), TruncHalf(b.h);
    var midX, midY := TruncHalf(2 * b.x + b.w), TruncHalf(2 * b.y + b.h);
    assert 2 * w <= b.w + 1 && 2 * h <= b.h + 1;
    assert 2 * midX <= 2 * b.x + b.w + 1 && 2 * b.x + b.w - 1 <= 2 * midX;
    assert 2 * midY <= 2 * b.y + b.h + 1 && 2 * b.y + b.h - 1 <= 2 * midY;
  }

  /** With even sides the four quadrants tile the boundary: a point lies in the
      boundary exactly when it lies in one of them. */
  lemma EvenQuadrantsCover(b: Rect, p: Point)
    requires b.w >= 0 && b.h >= 0 && b.w % 2 == 0 && b.h % 2 == 0
    ensures CollidePoint(b, p) <==> InSomeQuadrant(b, p)
  {
    assert TruncHalf(2 * b.x + b.w) == b.x + b.w / 2;
    assert TruncHalf(2 * b.y + b.h) == b.y + b.h / 2;
    if InSomeQuadrant(b, p) {
      if CollidePoint(Quadrant(b, 0), p) {
        QuadrantWithin(b, 0, p);
      } else if CollidePoint(Quadrant(b, 1), p) {
        QuadrantWithin(b, 1, p);
      } else if CollidePoint(Quadrant(b, 2), p) {
        QuadrantWithin(b, 2, p);
      } else {
        QuadrantWithin(b, 3, p);
      }
    }
  }

  /** With an odd width the truncated halves leave the last column uncovered: its
      points lie in the boundary and in no quadrant. */
  lemma OddWidthLeavesStrip(b: Rect)
    requires b.x >= 0 && b.w > 0 && b.w % 2 == 1 && b.h > 0
    ensures CollidePoint(b, Point(b.x + b.w - 1, b.y))
    ensures !InSomeQuadrant(b, Point(b.x + b.w - 1, b.y))
  {
    assert TruncHalf(b.w) == (b.w - 1) / 2;
    assert TruncHalf(2 * b.x + b.w) == b.x + (b.w - 1) / 2;
  }

  /** A node of the tree: its boundary, its capacity, the sprites it keeps itself and,
      once divided, its four children. The tree is a value: Quadtree.insert's
      in-place update becomes a function returning the updated node. */
  datatype Quadtree = Quadtree(boundary: Rect, capacity: int, sprites: seq<Sprite>, quads: Quads)

  datatype Quads =
    | Undivided
    | Divided(northeast: Quadtree, northwest: Quadtree, southeast: Quadtree, southwest: Quadtree)

  /** Quadtree.__init__: an empty, undivided node. */
  function Empty(boundary: Rect, capacity: int): (t: Quadtree)
    ensures Valid(t) && Elements(t) == []
  {
    Quadtree(boundary, capacity, [], Undivided)
  }

  /** The tree invariant: a node keeps at most capacity sprites, all inside its
      boundary; a divided node is full and its children cover its four quadrants
      with the same capacity. */
  ghost predicate Valid(t: Quadtree)
  {
    (|t.sprites| <= t.capacity || t.sprites == []) &&
    (forall i :: 0 <= i < |t.sprites| ==> CollidePoint(t.boundary, t.sprites[i].pos)) &&
    match t.quads
    case Undivided => true
    case Divided(ne, nw, se, sw) =>
      |t.sprites| >= t.capacity &&
      ne.boundary == Quadrant(t.boundary, 0) && nw.boundary == Quadrant(t.boundary, 1) &&
      se.boundary == Quadrant(t.boundary, 2) && sw.boundary == Quadrant(t.boundary, 3) &&
      ne.capacity == t.capacity && nw.capacity == t.capacity &&
      se.capacity == t.capacity && sw.capacity == t.capacity &&
      Valid(ne) && Valid(nw) && Valid(se) && Valid(sw)
  }

  /** Every stored sprite, in the order a query visits them: the node's own, then
      the northwest, northeast, southwest and southeast subtrees. */
  function Elements(t: Quadtree): seq<Sprite>
  {
    t.sprites +
    match t.quads
    case Undivided => []
    case Divided(ne, nw, se, sw) => ((Elements(nw) + Elements(ne)) + Elements(sw)) + Elements(se)
  }

  /** Whether an insert of a sprite at p stores it: p must lie in the boundary, and
      then either the node has room or a child takes it, the children being tried
      in the order northeast, northwest, southeast, southwest. A full node not yet
      divided gets four empty children, which take p exactly when it lies in their
      quadrant and the capacity is positive. */
  ghost predicate Accepts(t: Quadtree, p: Point)
  {
    CollidePoint(t.boundary, p) &&
    (|t.sprites| < t.capacity ||
     match t.quads
     case Divided(ne, nw, se, sw) => Accepts(ne, p) || Accepts(nw, p) || Accepts(se, p) || Accepts(sw, p)
     case Undivided => t.capacity > 0 && InSomeQuadrant(t.boundary, p))
  }

  /** The recursion measure of insert: the width of a node that can hold a point. */
  function Span(t: Quadtree): nat
  {
    if t.boundary.w > 0 then t.boundary.w else 0
  }

  /** Quadtree.subdivide: four empty children, one per quadrant. */
  function Subdivide(t: Quadtree): (r: Quadtree)
    requires Valid(t) && t.quads.Undivided? && |t.sprites| >= t.capacity
    ensures Valid(r) && r.quads.Divided? && Elements(r) == Elements(t)
    ensures r.boundary == t.boundary && r.capacity == t.capacity && r.sprites == t.sprites
  {
    var b, c := t.boundary, t.capacity;
    t.(quads := Divided(Empty(Quadrant(b, 0), c), Empty(Quadrant(b, 1), c),
                        Empty(Quadrant(b, 2), c), Empty(Quadrant(b, 3), c)))
  }

  /** What an insert returns: the updated node, and whether the sprite was stored. */
  datatype Inserted = Inserted(tree: Quadtree, ok: bool)

  /** Quadtree.insert: a sprite outside the boundary is refused and leaves the node as
      it was; one inside is kept here while there is room, and otherwise the node
      divides (once) and offers it to its children in turn until one stores it. */
  function Insert(t: Quadtree, s: Sprite): (r: Inserted)
    requires Valid(t)
    ensures Valid(r.tree) && r.tree.boundary == t.boundary && r.tree.capacity == t.capacity
    ensures r.ok == Accepts(t, s.pos)
    ensures multiset(Elements(r.tree)) == Grown(multiset(Elements(t)), s, r.ok)
    ensures !CollidePoint(t.boundary, s.pos) ==> r.tree == t
    ensures CollidePoint(t.boundary, s.pos) && |t.sprites| < t.capacity ==>
              r.tree == t.(sprites := t.sprites + [s])
    decreases Span(t), 1
  {
    if !CollidePoint(t.boundary, s.pos) then Inserted(t, false)
    else if |t.sprites| < t.capacity then
      var u := t.(sprites := t.sprites + [s]);
      AppendedValid(t, s);
      assert Elements(u) == t.sprites + [s];
      Inserted(u, true)
    else if t.quads.Undivided? then
      SubdivideAccepts(t, s.pos);
      InsertIntoChildren(Subdivide(t), s)
    else InsertIntoChildren(t, s)
  }

  /** A node with room stays valid when it keeps one more sprite of its boundary. */
  lemma AppendedValid(t: Quadtree, s: Sprite)
    requires Valid(t) && CollidePoint(t.boundary, s.pos) && |t.sprites| < t.capacity
    ensures t.quads.Undivided? && Valid(t.(sprites := t.sprites + [s]))
  {
    var u := t.(sprites := t.sprites + [s]);
    forall i | 0 <= i < |u.sprites|
      ensures CollidePoint(u.boundary, u.sprites[i].pos)
    {
      if i < |t.sprites| {
        assert u.sprites[i] == t.sprites[i];
      }
    }
  }

  /** Dividing a full node does not change which points it takes. */
  lemma SubdivideAccepts(t: Quadtree, p: Point)
    requires Valid(t) && t.quads.Undivided? && |t.sprites| >= t.capacity && CollidePoint(t.boundary, p)
    ensures Accepts(Subdivide(t), p) == Accepts(t, p)
  {
    var u := Subdivide(t);
    AcceptsOfDivided(u, p);
    var b, c := t.boundary, t.capacity;
    assert Accepts(Empty(Quadrant(b, 0), c), p) == (CollidePoint(Quadrant(b, 0), p) && c > 0);
    assert Accepts(Empty(Quadrant(b, 1), c), p) == (CollidePoint(Quadrant(b, 1), p) && c > 0);
    assert Accepts(Empty(Quadrant(b, 2), c), p) == (CollidePoint(Quadrant(b, 2), p) && c > 0);
    assert Accepts(Empty(Quadrant(b, 3), c), p) == (CollidePoint(Quadrant(b, 3), p) && c > 0);
  }

  /** The last line of Quadtree.insert: the short-circuit `or` over the children. A
      child that refuses the sprite keeps whatever division the attempt made. */
  function InsertIntoChildren(t: Quadtree, s: Sprite): (r: Inserted)
    requires Valid(t) && t.quads.Divided? && CollidePoint(t.boundary, s.pos) && |t.sprites| >= t.capacity
    ensures Valid(r.tree) && r.tree.boundary == t.boundary && r.tree.capacity == t.capacity
    ensures r.ok == Accepts(t, s.pos)
    ensures multiset(Elements(r.tree)) == Grown(multiset(Elements(t)), s, r.ok)
    decreases Span(t), 0
  {
    ChildrenNarrower(t, s.pos);
    var q := t.quads;
    var ne := Offer(q.northeast, s, false);
    var nw := Offer(q.northwest, s, ne.ok);
    var se := Offer(q.southeast, s, ne.ok || nw.ok);
    var sw := Offer(q.southwest, s, ne.ok || nw.ok || se.ok);
    var u := t.(quads := Divided(ne.tree, nw.tree, se.tree, sw.tree));
    ReplacedChildrenValid(t, u);
    AcceptsOfDivided(t, s.pos);
    MultisetOfDivided(t);
    MultisetOfDivided(u);
    BagOfParts(multiset(t.sprites), multiset(Elements(q.northwest)), multiset(Elements(q.northeast)),
               multiset(Elements(q.southwest)), multiset(Elements(q.southeast)), s, nw.ok, ne.ok, sw.ok, se.ok);
    Inserted(u, ne.ok || nw.ok || se.ok || sw.ok)
  }

  /** One operand of that `or`: the child's insert, unless an earlier child already
      stored the sprite, in which case the child is not asked and stays as it is. */
  function Offer(child: Quadtree, s: Sprite, done: bool): (r: Inserted)
    requires Valid(child)
    ensures Valid(r.tree) && r.tree.boundary == child.boundary && r.tree.capacity == child.capacity
    ensures r.ok == (!done && Accepts(child, s.pos))
    ensures multiset(Elements(r.tree)) == Grown(multiset(Elements(child)), s, r.ok)
    decreases Span(child), 2
  {
    if done then Inserted(child, false) else Insert(child, s)
  }

  /** Children replaced by valid ones over the same rectangles, with the same
      capacity, leave a divided node valid. */
  lemma ReplacedChildrenValid(t: Quadtree, u: Quadtree)
    requires Valid(t) && t.quads.Divided? && u.quads.Divided?
    requires u.boundary == t.boundary && u.capacity == t.capacity && u.sprites == t.sprites
    requires Valid(u.quads.northeast) && Valid(u.quads.northwest) && Valid(u.quads.southeast) && Valid(u.quads.southwest)
    requires u.quads.northeast.boundary == t.quads.northeast.boundary && u.quads.northeast.capacity == t.capacity
    requires u.quads.northwest.boundary == t.quads.northwest.boundary && u.quads.northwest.capacity == t.capacity
    requires u.quads.southeast.boundary == t.quads.southeast.boundary && u.quads.southeast.capacity == t.capacity
    requires u.quads.southwest.boundary == t.quads.southwest.boundary && u.quads.southwest.capacity == t.capacity
    ensures Valid(u)
  {
  }

  /** A full, divided node takes a point of its boundary exactly when a child does. */
  lemma AcceptsOfDivided(t: Quadtree, p: Point)
    requires t.quads.Divided? && CollidePoint(t.boundary, p) && |t.sprites| >= t.capacity
    ensures Accepts(t, p) == (Accepts(t.quads.northeast, p) || Accepts(t.quads.northwest, p) ||
                              Accepts(t.quads.southeast, p) || Accepts(t.quads.southwest, p))
  {
  }

  /** The sprites of a divided node, counted by part. */
  lemma MultisetOfDivided(t: Quadtree)
    requires t.quads.Divided?
    ensures multiset(Elements(t)) ==
            multiset(t.sprites) + (((multiset(Elements(t.quads.northwest)) + multiset(Elements(t.quads.northeast))) +
                                    multiset(Elements(t.quads.southwest))) + multiset(Elements(t.quads.southeast)))
  {
  }

  /** A multiset with s added when yes holds. */
  function Grown(x: multiset<Sprite>, s: Sprite, yes: bool): multiset<Sprite>
  {
    if yes then x + multiset{s} else x
  }

  /** A node's own sprites and four parts, at most one of which grew by s. */
  lemma BagOfParts(m: multiset<Sprite>, a: multiset<Sprite>, b: multiset<Sprite>, c: multiset<Sprite>,
                   d: multiset<Sprite>, s: Sprite, ka: bool, kb: bool, kc: bool, kd: bool)
    requires !(ka && kb) && !(ka && kc) && !(ka && kd) && !(kb && kc) && !(kb && kd) && !(kc && kd)
    ensures m + (((Grown(a, s, ka) + Grown(b, s, kb)) + Grown(c, s, kc)) + Grown(d, s, kd)) ==
            Grown(m + (((a + b) + c) + d), s, ka || kb || kc || kd)
  {
  }

  /** A node that holds a point has positive width, and its children are narrower,
      which is what ends the recursion of Quadtree.insert. */
  lemma ChildrenNarrower(t: Quadtree, p: Point)
    requires Valid(t) && t.quads.Divided? && CollidePoint(t.boundary, p)
    ensures Span(t.quads.northeast) < Span(t) && Span(t.quads.northwest) < Span(t)
    ensures Span(t.quads.southeast) < Span(t) && Span(t.quads.southwest) < Span(t)
  {
    var half := TruncHalf(t.boundary.w);
    assert 0 <= half < t.boundary.w;
  }

  /** Quadtree.query: nothing is added when the rectangle misses the boundary;
      otherwise the node's sprites in the rectangle are appended, then those of the
      northwest, northeast, southwest and southeast subtrees. */
  method Query(t: Quadtree, rect: Rect, found: seq<Sprite>) returns (r: seq<Sprite>)
    requires Valid(t)
    ensures r == found + Filter(Elements(t), Within(rect))
    decreases t
  {
    if !CollideRect(rect, t.boundary) {
      MissedQueryEmpty(t, rect);
      return found;
    }
    r := AppendWithin(t.sprites, rect, found);
    match t.quads {
      case Undivided =>
        assert Elements(t) == t.sprites;
      case Divided(ne, nw, se, sw) =>
        var keep := Within(rect);
        r := Query(nw, rect, r);
        r := Query(ne, rect, r);
        r := Query(sw, rect, r);
        r := Query(se, rect, r);
        FilterParts(t.sprites, Elements(nw), Elements(ne), Elements(sw), Elements(se), keep);
        AppendReassoc(found, Filter(t.sprites, keep), Filter(Elements(nw), keep),
                      Filter(Elements(ne), keep), Filter(Elements(sw), keep), Filter(Elements(se), keep));
    }
  }

  /** How a filter splits over a node's own sprites and its four subtrees. */
  lemma FilterParts(m: seq<Sprite>, a: seq<Sprite>, b: seq<Sprite>, c: seq<Sprite>, d: seq<Sprite>,
                    keep: Sprite -> bool)
    ensures Filter(m + (((a + b) + c) + d), keep) ==
            Filter(m, keep) + (((Filter(a, keep) + Filter(b, keep)) + Filter(c, keep)) + Filter(d, keep))
  {
    FilterConcat(m, ((a + b) + c) + d, keep);
    FilterConcat((a + b) + c, d, keep);
    FilterConcat(a + b, c, keep);
    FilterConcat(a, b, keep);
  }

  /** Quadtree.query called without a list: the sprites stored in rect. */
  method QueryRect(t: Quadtree, rect: Rect) returns (r: seq<Sprite>)
    requires Valid(t)
    ensures r == Filter(Elements(t), Within(rect))
    ensures forall x :: x in r <==> x in Elements(t) && CollidePoint(rect, x.pos)
  {
    r := Query(t, rect, []);
    FilterMembers(Elements(t), Within(rect));
  }

  /** The loop of Quadtree.query over a node's own sprites: those in rect are
      appended to found, in order. */
  method AppendWithin(sprites: seq<Sprite>, rect: Rect, found: seq<Sprite>) returns (r: seq<Sprite>)
    ensures r == found + Filter(sprites, Within(rect))
  {
    r := found;
    for i := 0 to |sprites|
      invariant r == found + Filter(sprites[..i], Within(rect))
    {
      assert sprites[..i + 1] == sprites[..i] + [sprites[i]];
      FilterSnoc(sprites[..i], sprites[i], Within(rect));
      if CollidePoint(rect, sprites[i].pos) {
        r := r + [sprites[i]];
      }
    }
    assert sprites[..|sprites|] == sprites;
  }

  /** A rectangle that misses the boundary contains no stored sprite. */
  lemma MissedQueryEmpty(t: Quadtree, rect: Rect)
    requires Valid(t) && !CollideRect(rect, t.boundary)
    ensures Filter(Elements(t), Within(rect)) == []
  {
    var C := Elements(t);
    ContentsInBoundary(t);
    forall i | 0 <= i < |C|
      ensures !Within(rect)(C[i])
    {
      assert C[i] in C;
      DisjointRectsSeparatePoints(rect, t.boundary, C[i].pos);
    }
    FilterNoneKept(C, Within(rect));
  }

  /** Every sprite stored anywhere in a tree lies inside the root's boundary. */
  lemma {:induction false} ContentsInBoundary(t: Quadtree)
    requires Valid(t)
    ensures forall s :: s in Elements(t) ==> CollidePoint(t.boundary, s.pos)
  {
    match t.quads {
      case Undivided =>
      case Divided(ne, nw, se, sw) =>
        ContentsInBoundary(ne);
        ContentsInBoundary(nw);
        ContentsInBoundary(se);
        ContentsInBoundary(sw);
        forall s | s in Elements(t)
          ensures CollidePoint(t.boundary, s.pos)
        {
          if s in Elements(ne) {
            QuadrantWithin(t.boundary, 0, s.pos);
          } else if s in Elements(nw) {
            QuadrantWithin(t.boundary, 1, s.pos);
          } else if s in Elements(se) {
            QuadrantWithin(t.boundary, 2, s.pos);
          } else if s in Elements(sw) {
            QuadrantWithin(t.boundary, 3, s.pos);
          }
        }
    }
  }

  /** The window, which is the boundary of the tree rebuilt every frame. */
  function Window(): Rect
  {
    Rect(0, 0, Width, Height)
  }

  /** The per-frame rebuild: an empty tree over the window with capacity 4, and every
      sprite offered to it in the order given. Nothing is stored that was not given,
      and while at most four sprites lie in the window the root keeps them all. */
  method BuildTree(all: seq<Sprite>) returns (qt: Quadtree)
    ensures Valid(qt) && qt.boundary == Window() && qt.capacity == NodeCapacity
    ensures multiset(Elements(qt)) <= multiset(all)
    ensures var inWindow := Filter(all, Within(Window()));
              |inWindow| <= NodeCapacity ==> Elements(qt) == inWindow
  {
    qt := Empty(Window(), NodeCapacity);
    for i := 0 to |all|
      invariant Building(qt, all[..i])
    {
      InsertKeepsBuilding(qt, all, i);
      qt := Insert(qt, all[i]).tree;
    }
    assert all[..|all|] == all;
    BuiltTree(qt, all);
  }

  /** Once every sprite is in, `Building` is what BuildTree promises. */
  lemma BuiltTree(qt: Quadtree, all: seq<Sprite>)
    requires Building(qt, all)
    ensures Valid(qt) && qt.boundary == Window() && qt.capacity == NodeCapacity
    ensures multiset(Elements(qt)) <= multiset(all)
    ensures var inWindow := Filter(all, Within(Window()));
              |inWindow| <= NodeCapacity ==> Elements(qt) == inWindow
  {
  }

  /** What the tree built from the sprites `done` satisfies: a valid window-sized tree
      holding some of them, which is still a single leaf holding exactly those inside
      the window while they fit in it. */
  ghost predicate Building(qt: Quadtree, done: seq<Sprite>)
  {
    && Valid(qt) && qt.boundary == Window() && qt.capacity == NodeCapacity
    && multiset(Elements(qt)) <= multiset(done)
    && (|Filter(done, Within(Window()))| <= NodeCapacity ==>
          qt.sprites == Filter(done, Within(Window())) && qt.quads.Undivided?)
  }

  /** Inserting the next sprite keeps `Building`. */
  lemma InsertKeepsBuilding(qt: Quadtree, all: seq<Sprite>, i: nat)
    requires i < |all| && Building(qt, all[..i])
    ensures Building(Insert(qt, all[i]).tree, all[..i + 1])
  {
    var done, x := all[..i], all[i];
    assert all[..i + 1] == done + [x];
    var window := Within(Window());
    FilterSnoc(done, x, window);
    var r := Insert(qt, x);
    assert multiset(done + [x]) == multiset(done) + multiset{x};
    if |Filter(done + [x], window)| <= NodeCapacity && window(x) {
      assert |qt.sprites| < qt.capacity;
    }
  }

  /** The caption's point count: the whole-window query returns every stored sprite. */
  method PointsInTree(qt: Quadtree) returns (pts: nat)
    requires Valid(qt) && qt.boundary == Window()
    ensures pts == |Elements(qt)|
  {
    var found := QueryRect(qt, Window());
    ContentsInBoundary(qt);
    FilterAllKept(Elements(qt), Within(qt.boundary));
    pts := |found|;
  }
}
