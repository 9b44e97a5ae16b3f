/** The battleship game of battleships.py on grid cells instead of pixel rectangles:
    the chain of game states, placing the player's fleet with the mouse, placing the
    enemy fleet at random, the enemy's guesses, and sinking ships. Random draws come
    from a supplied stream of naturals. */
module Battleships {
  import opened Wrappers
  import opened Seqs

  /** Both grids are 10 by 10 cells. */
  const GridSize := 10
  /** Cell sizes in pixels on the main grids and on the radar. */
  const CellSize := 40
  const SmallCellSize := 20
  /** Top-left pixel of the player's main grid, and of the radar. */
  const GridOrigin := 60
  const RadarLeft := 500
  const RadarTop := 60
  /** Tries the enemy makes around its last hit before it gives up. */
  const SafetyNet := 1000
  /** The fleet of each side, in the order the ships are placed. */
  const FleetSizes: seq<nat> := [2, 3, 3, 4, 5]
  /** Ship.__init__ puts a ship at pixel (-1000, -1000), 25 cells up and left of any
      grid, until it is placed. */
  const OffGrid := Cell(-25, -25)

  datatype Orientation = H | V

  function Flip(o: Orientation): (r: Orientation)
    ensures r != o
  {
    if o == H then V else H
  }

  lemma FlipTwice(o: Orientation)
    ensures Flip(Flip(o)) == o
  {
  }

  /** A cell of a grid: column x and row y, both from 0 to 9 inside the grid. */
  datatype Cell = Cell(x: int, y: int)

  predicate InGrid(c: Cell)
  {
    0 <= c.x < GridSize && 0 <= c.y < GridSize
  }

  /** The cells a ship of this size covers from its top-left cell: rightwards when
      horizontal, downwards when vertical. */
  function ShipCells(pos: Cell, o: Orientation, size: nat): (r: seq<Cell>)
    ensures |r| == size
    ensures forall i :: 0 <= i < size ==> r[i] == if o == H then Cell(pos.x + i, pos.y) else Cell(pos.x, pos.y + i)
  {
    seq(size, i => if o == H then Cell(pos.x + i, pos.y) else Cell(pos.x, pos.y + i))
  }

  /** Whether the cell lies in the ship's row (column) within its length. */
  predicate Covers(pos: Cell, o: Orientation, size: nat, c: Cell)
  {
    if o == H then c.y == pos.y && pos.x <= c.x < pos.x + size
    else c.x == pos.x && pos.y <= c.y < pos.y + size
  }

  /** The ship covers exactly those cells, none twice. */
  lemma ShipCellsMeaning(pos: Cell, o: Orientation, size: nat)
    ensures forall c :: c in ShipCells(pos, o, size) <==> Covers(pos, o, size, c)
    ensures NoDup(ShipCells(pos, o, size))
  {
    var r := ShipCells(pos, o, size);
    forall c: Cell | Covers(pos, o, size, c)
      ensures c in r
    {
      var i := if o == H then c.x - pos.x else c.y - pos.y;
      assert r[i] == c;
    }
  }

  /** A ship covers only grid cells exactly when its top-left cell is in the grid and
      its far end is too. */
  lemma ShipInGrid(pos: Cell, o: Orientation, size: nat)
    requires size > 0
    ensures (forall c :: c in ShipCells(pos, o, size) ==> InGrid(c)) <==>
              InGrid(pos) && (if o == H then pos.x + size <= GridSize else pos.y + size <= GridSize)
  {
    ShipCellsMeaning(pos, o, size);
    var r := ShipCells(pos, o, size);
    assert r[0] == pos && r[size - 1] in r;
  }

  // -------------------------------------------------------------------- ships

  /** A ship: its size, its orientation, its top-left cell, and whether it is still
      in its group (a sunk ship is killed and leaves it). */
  datatype Ship = Ship(size: nat, orientation: Orientation, pos: Cell, alive: bool)

  function Cells(s: Ship): seq<Cell>
  {
    ShipCells(s.pos, s.orientation, s.size)
  }

  /** Ship.__init__: horizontal, off every grid. */
  function NewShip(size: nat): Ship
  {
    Ship(size, H, OffGrid, true)
  }

  /** Ship.rotate: the other orientation, the same top-left cell. */
  function Rotate(s: Ship): (r: Ship)
    ensures r.orientation != s.orientation
    ensures r == s.(orientation := r.orientation)
  {
    s.(orientation := Flip(s.orientation))
  }

  /** Rotating twice restores the ship. */
  lemma RotateTwice(s: Ship)
    ensures Rotate(Rotate(s)) == s
  {
    FlipTwice(s.orientation);
  }

  /** What count_hits reports about a ship it sinks. */
  datatype Sunk = Sunk(pos: Cell, orientation: Orientation, size: nat)

  /** The number of markers on the cells, one per marker. */
  function Hits(cells: seq<Cell>, markers: seq<Cell>): nat
  {
    if markers == [] then 0
    else Hits(cells, markers[..|markers| - 1]) + (if markers[|markers| - 1] in cells then 1 else 0)
  }

  /** Ship.count_hits with the markers of the ship's grid: it counts the markers on
      the ship, and sinks the ship once they are at least its size. */
  method CountHits(ship: Ship, markers: seq<Cell>) returns (hits: nat, after: Ship, sunk: Option<Sunk>)
    ensures hits == Hits(Cells(ship), markers)
    ensures sunk.Some? <==> hits >= ship.size
    ensures sunk.Some? ==> sunk.value == Sunk(ship.pos, ship.orientation, ship.size) && after == ship.(alive := false)
    ensures sunk.None? ==> after == ship
  {
    var cells := Cells(ship);
    hits := 0;
    for k := 0 to |markers|
      invariant hits == Hits(cells, markers[..k])
    {
      assert markers[..k + 1][..k] == markers[..k];
      if markers[k] in cells {
        hits := hits + 1;
      }
    }
    assert markers[..|markers|] == markers;
    if hits >= ship.size {
      sunk := Some(Sunk(ship.pos, ship.orientation, ship.size));
      after := ship.(alive := false);
    } else {
      sunk := None;
      after := ship;
    }
  }

  /** Without repeated markers, the hits count the distinct marked cells of the ship. */
  lemma {:induction false} HitsAreMarkedCells(cells: seq<Cell>, markers: seq<Cell>)
    requires NoDup(markers)
    ensures Hits(cells, markers) == |set m | m in markers && m in cells|
  {
    if markers != [] {
      var init, last := markers[..|markers| - 1], markers[|markers| - 1];
      assert markers == init + [last];
      NoDupFront(init, last);
      HitsAreMarkedCells(cells, init);
      MarkedSnoc(cells, init, last);
    }
  }

  /** The marked cells of the ship after one more marker. */
  lemma MarkedSnoc(cells: seq<Cell>, init: seq<Cell>, last: Cell)
    requires last !in init
    ensures var before := set m | m in init && m in cells;
            var added := if last in cells then {last} else {};
            (set m | m in init + [last] && m in cells) == before + added && before !! added
  {
  }

  /** With no cell marked twice, a ship sinks exactly when every one of its cells is
      marked. */
  lemma SinksIffAllMarked(ship: Ship, markers: seq<Cell>)
    requires NoDup(markers)
    ensures Hits(Cells(ship), markers) >= ship.size <==> forall c :: c in Cells(ship) ==> c in markers
  {
    var cells := Cells(ship);
    ShipCellsMeaning(ship.pos, ship.orientation, ship.size);
    HitsAreMarkedCells(cells, markers);
    NoDupCard(cells);
    var marked := set m | m in markers && m in cells;
    var all := set c | c in cells;
    assert marked <= all;
    if Hits(cells, markers) >= ship.size {
      SubsetAsLarge(marked, all);
      forall c | c in cells
        ensures c in markers
      {
        assert c in all;
      }
    }
    if forall c :: c in cells ==> c in markers {
      assert marked == all;
    }
  }

  // --------------------------------------------------------------- game states

  datatype StateName = Preparation | Combat | GameEnd

  /** The `next` of each state: preparation, combat, game end, preparation. */
  function Next(s: StateName): (r: StateName)
    ensures r != s
  {
    match s
    case Preparation => Combat
    case Combat => GameEnd
    case GameEnd => Preparation
  }

  /** Three switches lead back to the same state. */
  lemma ChainCycles(s: StateName)
    ensures Next(Next(Next(s))) == s
  {
  }

  /** Which mode the enemy guesses in. */
  datatype Mode = SeekRandom | ReturnShip

  // ------------------------------------------------------------ random draws

  /** random.randint(lo, hi) with the draw d: every value from lo to hi inclusive. */
  function RandInt(lo: int, hi: int, d: nat): (r: int)
    requires lo <= hi
    ensures lo <= r <= hi
  {
    lo + d % (hi - lo + 1)
  }

  /** Every value in range is drawn by some draw. */
  lemma RandIntOnto(lo: int, hi: int, v: int)
    requires lo <= v <= hi
    ensures RandInt(lo, hi, (v - lo) as nat) == v
  {
  }

  /** random.choice between two values with the draw d. */
  function Choose<T>(a: T, b: T, d: nat): T
  {
    if d % 2 == 0 then a else b
  }

  // ------------------------------------------------------ the enemy's fleet

  /** Whether two ships share a cell. */
  predicate Overlap(a: Ship, b: Ship)
  {
    exists c :: c in Cells(a) && c in Cells(b)
  }

  /** pygame.sprite.spritecollide of ship k with its group: another ship still in the
      group shares a cell with it. */
  predicate Collides(fleet: seq<Ship>, k: nat)
    requires k < |fleet|
  {
    exists j :: 0 <= j < |fleet| && j != k && fleet[j].alive && Overlap(fleet[j], fleet[k])
  }

  /** Every cell of the ship is in the grid. */
  predicate OnGrid(s: Ship)
  {
    forall c :: c in Cells(s) ==> InGrid(c)
  }

  /** One try of place_enemy_ships for a ship of this size, exactly as written: a
      random orientation that rotate then flips, and a top-left cell whose
      coordinate along the ship is drawn from 0 to 9 - size. */
  function EnemyTryAsWritten(size: nat, d0: nat, d1: nat, d2: nat): (r: Ship)
    requires size <= GridSize - 1
  {
    var o := Flip(Choose(H, V, d0));
    if o == H then Ship(size, H, Cell(RandInt(0, 9 - size, d1), RandInt(0, 9, d2)), true)
    else Ship(size, V, Cell(RandInt(0, 9, d1), RandInt(0, 9 - size, d2)), true)
  }

  /** As written, no enemy ship ever reaches the last column lying horizontally or
      the last row standing vertically: a horizontal two-cell ship at column 8 of row
      0, inside the grid, is never drawn. */
  lemma EnemyNeverOnLastLine(size: nat, d0: nat, d1: nat, d2: nat)
    requires 1 <= size <= GridSize - 1
    ensures var s := EnemyTryAsWritten(size, d0, d1, d2);
            forall c :: c in Cells(s) ==> if s.orientation == H then c.x < GridSize - 1 else c.y < GridSize - 1
    ensures EnemyTryAsWritten(2, d0, d1, d2) != Ship(2, H, Cell(8, 0), true)
    ensures OnGrid(Ship(2, H, Cell(8, 0), true))
  {
    var s := EnemyTryAsWritten(size, d0, d1, d2);
    ShipCellsMeaning(s.pos, s.orientation, s.size);
    ShipCellsMeaning(Cell(8, 0), H, 2);
  }

  /** One try of place_enemy_ships with the range the player's own placement uses:
      the coordinate along the ship is drawn from 0 to 10 - size. */
  function EnemyTry(size: nat, d0: nat, d1: nat, d2: nat): (r: Ship)
    requires size <= GridSize
    ensures r.size == size && r.alive
  {
    var o := Flip(Choose(H, V, d0));
    if o == H then Ship(size, H, Cell(RandInt(0, GridSize - size, d1), RandInt(0, 9, d2)), true)
    else Ship(size, V, Cell(RandInt(0, 9, d1), RandInt(0, GridSize - size, d2)), true)
  }

  /** Every try lands on the grid, and every placement on the grid is some try. */
  lemma EnemyTryOnGrid(size: nat, d0: nat, d1: nat, d2: nat)
    requires 1 <= size <= GridSize
    ensures OnGrid(EnemyTry(size, d0, d1, d2))
  {
    var s := EnemyTry(size, d0, d1, d2);
    ShipInGrid(s.pos, s.orientation, size);
  }

  /** Whether the ship's far end stays inside the grid (its top-left cell being in it). */
  predicate Fits(s: Ship)
  {
    InGrid(s.pos) && if s.orientation == H then s.pos.x + s.size <= GridSize else s.pos.y + s.size <= GridSize
  }

  lemma EnemyTryOnto(s: Ship)
    requires 1 <= s.size <= GridSize && s.alive && Fits(s)
    ensures var d0 := if s.orientation == H then 1 else 0;
            EnemyTry(s.size, d0, s.pos.x as nat, s.pos.y as nat) == s
  {
    if s.orientation == H {
      assert Flip(Choose(H, V, 1)) == H;
      RandIntZero(GridSize - s.size, s.pos.x as nat);
      RandIntZero(9, s.pos.y as nat);
    } else {
      assert Flip(Choose(H, V, 0)) == V;
      RandIntZero(9, s.pos.x as nat);
      RandIntZero(GridSize - s.size, s.pos.y as nat);
    }
  }

  /** A draw already in range [0, hi] is drawn as itself. */
  lemma RandIntZero(hi: nat, v: nat)
    requires v <= hi
    ensures RandInt(0, hi, v) == v
  {
    RandIntOnto(0, hi, v);
  }

  /** A ship and the draws left after it. */
  datatype Placed = Placed(fleet: seq<Ship>, rest: seq<nat>)

  /** The retry loop of place_enemy_ships for ship k: three draws per try until the
      ship collides with no other enemy ship; None when the draws run out first. */
  function PlaceShip(fleet: seq<Ship>, k: nat, draws: seq<nat>): (r: Option<Placed>)
    requires k < |fleet| && 1 <= fleet[k].size <= GridSize
    ensures r.Some? ==> |r.value.fleet| == |fleet| && r.value.fleet[k].size == fleet[k].size &&
                        r.value.fleet[k].alive && OnGrid(r.value.fleet[k]) && !Collides(r.value.fleet, k) &&
                        r.value.fleet == fleet[k := r.value.fleet[k]]
    decreases |draws|
  {
    if |draws| < 3 then None
    else
      var s := EnemyTry(fleet[k].size, draws[0], draws[1], draws[2]);
      EnemyTryOnGrid(fleet[k].size, draws[0], draws[1], draws[2]);
      var f := fleet[k := s];
      if !Collides(f, k) then Some(Placed(f, draws[3..])) else PlaceShip(fleet, k, draws[3..])
  }

  /** Ships from k on placed one after the other. */
  function PlaceFleet(fleet: seq<Ship>, k: nat, draws: seq<nat>): (r: Option<Placed>)
    requires k <= |fleet| && forall i :: 0 <= i < |fleet| ==> 1 <= fleet[i].size <= GridSize
    ensures r.Some? ==> |r.value.fleet| == |fleet| &&
                        forall i :: 0 <= i < |fleet| ==> r.value.fleet[i].size == fleet[i].size
    decreases |fleet| - k
  {
    if k == |fleet| then Some(Placed(fleet, draws))
    else match PlaceShip(fleet, k, draws)
      case None => None
      case Some(p) => PlaceFleet(p.fleet, k + 1, p.rest)
  }

  /** The first k ships are on the grid, in their group, and share no cell. */
  predicate Deployed(fleet: seq<Ship>, k: nat)
    requires k <= |fleet|
  {
    (forall i :: 0 <= i < k ==> fleet[i].alive && OnGrid(fleet[i])) &&
    (forall i, j :: 0 <= i < k && 0 <= j < k && i != j ==> !Overlap(fleet[i], fleet[j]))
  }

  /** When place_enemy_ships ends, the whole enemy fleet is on the grid and no two
      of its ships share a cell. */
  lemma {:induction false} PlaceFleetDeploys(fleet: seq<Ship>, k: nat, draws: seq<nat>)
    requires k <= |fleet| && forall i :: 0 <= i < |fleet| ==> 1 <= fleet[i].size <= GridSize
    requires Deployed(fleet, k)
    ensures var r := PlaceFleet(fleet, k, draws);
            r.Some? ==> Deployed(r.value.fleet, |fleet|)
    decreases |fleet| - k
  {
    if k < |fleet| {
      var p := PlaceShip(fleet, k, draws);
      if p.Some? {
        var f := p.value.fleet;
        forall i, j | 0 <= i < k + 1 && 0 <= j < k + 1 && i != j
          ensures !Overlap(f[i], f[j])
        {
          if j == k {
            assert !(f[i].alive && Overlap(f[i], f[k]));
          } else if i == k {
            assert !(f[j].alive && Overlap(f[j], f[k]));
          }
        }
        assert Deployed(f, k + 1);
        PlaceFleetDeploys(f, k + 1, p.value.rest);
      }
    }
  }

  // --------------------------------------------------- the player's fleet

  /** Whether the mouse is over the player's main grid (pygame's collidepoint). */
  predicate InMainGrid(mx: int, my: int)
  {
    GridOrigin <= mx < GridOrigin + GridSize * CellSize && GridOrigin <= my < GridOrigin + GridSize * CellSize
  }

  function Min(a: int, b: int): int
  {
    if a <= b then a else b
  }

  /** The top-left cell Preparation.update gives the ship under the mouse: the cell
      under the mouse, moved left (up) so that a horizontal (vertical) ship ends in
      the last column (row) at the latest. */
  function Snap(s: Ship, mx: int, my: int): Cell
  {
    var gx := (mx - GridOrigin) / CellSize;
    var gy := (my - GridOrigin) / CellSize;
    Cell(if s.orientation == H then Min(gx, GridSize - s.size) else gx,
         if s.orientation == V then Min(gy, GridSize - s.size) else gy)
  }

  /** Over the grid, the snapped ship lies on the grid, with its top-left cell under
      the mouse whenever it fits there. */
  lemma SnapFits(s: Ship, mx: int, my: int)
    requires InMainGrid(mx, my) && 1 <= s.size <= GridSize
    ensures var m := Cell((mx - GridOrigin) / CellSize, (my - GridOrigin) / CellSize);
            var t := s.(pos := Snap(s, mx, my));
            InGrid(m) && Fits(t) && OnGrid(t) && (Fits(s.(pos := m)) ==> t.pos == m)
  {
    var t := s.(pos := Snap(s, mx, my));
    ShipInGrid(t.pos, t.orientation, t.size);
  }

  /** The ships with these ids, each rotated once. */
  function RotateAll(fleet: seq<Ship>, ids: seq<nat>): (r: seq<Ship>)
    requires forall i :: 0 <= i < |ids| ==> ids[i] < |fleet|
    ensures |r| == |fleet|
  {
    if ids == [] then fleet
    else
      var g := RotateAll(fleet, ids[..|ids| - 1]);
      var k := ids[|ids| - 1];
      g[k := Rotate(g[k])]
  }

  /** Each listed ship is rotated, once, and the others are untouched. */
  lemma {:induction false} RotateAllMeaning(fleet: seq<Ship>, ids: seq<nat>)
    requires forall i :: 0 <= i < |ids| ==> ids[i] < |fleet|
    requires NoDup(ids)
    ensures forall k :: 0 <= k < |fleet| ==> RotateAll(fleet, ids)[k] == if k in ids then Rotate(fleet[k]) else fleet[k]
  {
    if ids != [] {
      var init := ids[..|ids| - 1];
      assert NoDup(init);
      RotateAllMeaning(fleet, init);
      assert ids == init + [ids[|ids| - 1]];
    }
  }

  /** The player's ships, the ids of those still to place (the first hangs under the
      mouse), and the ids of those placed, in order. */
  datatype Prep = Prep(fleet: seq<Ship>, toPlace: seq<nat>, placed: seq<nat>)

  /** Preparation.update with the mouse at (mx, my) and the right and left buttons
      pressed this frame, without the highlight it draws. */
  function PrepUpdate(p: Prep, mx: int, my: int, right: bool, left: bool): Prep
    requires forall i :: 0 <= i < |p.toPlace| ==> p.toPlace[i] < |p.fleet|
  {
    if InMainGrid(mx, my) && |p.toPlace| > 0 then
      var id := p.toPlace[0];
      var f := p.fleet[id := p.fleet[id].(pos := Snap(p.fleet[id], mx, my))];
      if right then Prep(RotateAll(f, p.toPlace), p.toPlace, p.placed)
      else if left && !Collides(f, id) then Prep(f, p.toPlace[1..], p.placed + [id])
      else Prep(f, p.toPlace, p.placed)
    else p
  }

  /** Every id names a ship, once; all ships are in play with a size from 1 to 10; and
      the placed ships lie on the grid without sharing a cell. */
  predicate PrepValid(p: Prep)
  {
    (forall i :: 0 <= i < |p.toPlace| ==> p.toPlace[i] < |p.fleet|) &&
    (forall i :: 0 <= i < |p.placed| ==> p.placed[i] < |p.fleet|) &&
    NoDup(p.toPlace + p.placed) &&
    (forall k :: 0 <= k < |p.fleet| ==> p.fleet[k].alive && 1 <= p.fleet[k].size <= GridSize) &&
    (forall a :: 0 <= a < |p.placed| ==> OnGrid(p.fleet[p.placed[a]])) &&
    (forall a, b :: 0 <= a < |p.placed| && 0 <= b < |p.placed| && a != b ==>
       !Overlap(p.fleet[p.placed[a]], p.fleet[p.placed[b]]))
  }

  /** Ships that are not placed may move and turn: the placed ones stay valid. */
  lemma MovingUnplacedKeeps(p: Prep, f: seq<Ship>)
    requires PrepValid(p) && |f| == |p.fleet|
    requires forall k :: 0 <= k < |f| ==> f[k].alive && f[k].size == p.fleet[k].size
    requires forall a :: 0 <= a < |p.placed| ==> f[p.placed[a]] == p.fleet[p.placed[a]]
    ensures PrepValid(p.(fleet := f))
  {
    var q := p.(fleet := f);
    forall a, b | 0 <= a < |q.placed| && 0 <= b < |q.placed| && a != b
      ensures !Overlap(q.fleet[q.placed[a]], q.fleet[q.placed[b]])
    {
      assert f[p.placed[a]] == p.fleet[p.placed[a]] && f[p.placed[b]] == p.fleet[p.placed[b]];
    }
  }

  /** Placing the first waiting ship where it collides with no ship keeps the placed
      fleet on the grid and apart. */
  lemma PlacingKeeps(p: Prep)
    requires PrepValid(p) && |p.toPlace| > 0
    requires OnGrid(p.fleet[p.toPlace[0]]) && !Collides(p.fleet, p.toPlace[0])
    ensures PrepValid(Prep(p.fleet, p.toPlace[1..], p.placed + [p.toPlace[0]]))
  {
    var id := p.toPlace[0];
    var q := Prep(p.fleet, p.toPlace[1..], p.placed + [id]);
    assert q.toPlace + q.placed == p.toPlace[1..] + p.placed + [id];
    assert p.toPlace + p.placed == [id] + (p.toPlace[1..] + p.placed);
    forall i, j | 0 <= i < j < |q.toPlace + q.placed|
      ensures (q.toPlace + q.placed)[i] != (q.toPlace + q.placed)[j]
    {
      assert (q.toPlace + q.placed)[i] == (p.toPlace + p.placed)[if i < |q.toPlace| + |p.placed| then i + 1 else 0];
      assert (q.toPlace + q.placed)[j] == (p.toPlace + p.placed)[if j < |q.toPlace| + |p.placed| then j + 1 else 0];
    }
    forall a, b | 0 <= a < |q.placed| && 0 <= b < |q.placed| && a != b
      ensures !Overlap(q.fleet[q.placed[a]], q.fleet[q.placed[b]])
    {
      if a == |p.placed| || b == |p.placed| {
        var other := if a == |p.placed| then q.placed[b] else q.placed[a];
        assert other in p.placed;
        assert other != id by {
          assert (p.toPlace + p.placed)[0] == id;
          var c :| 0 <= c < |p.placed| && p.placed[c] == other;
          assert (p.toPlace + p.placed)[|p.toPlace| + c] == other;
        }
        assert !(p.fleet[other].alive && Overlap(p.fleet[other], p.fleet[id]));
      }
    }
  }

  /** Preparation.update keeps the placed fleet on the grid and apart. */
  lemma PrepUpdateKeeps(p: Prep, mx: int, my: int, right: bool, left: bool)
    requires PrepValid(p)
    ensures PrepValid(PrepUpdate(p, mx, my, right, left))
  {
    if InMainGrid(mx, my) && |p.toPlace| > 0 {
      var id := p.toPlace[0];
      var f := p.fleet[id := p.fleet[id].(pos := Snap(p.fleet[id], mx, my))];
      assert id in p.toPlace + p.placed;
      forall a | 0 <= a < |p.placed|
        ensures f[p.placed[a]] == p.fleet[p.placed[a]]
      {
        assert (p.toPlace + p.placed)[0] == id && (p.toPlace + p.placed)[|p.toPlace| + a] == p.placed[a];
      }
      MovingUnplacedKeeps(p, f);
      var q := p.(fleet := f);
      if right {
        var g := RotateAll(f, p.toPlace);
        assert NoDup(p.toPlace) by {
          forall i, j | 0 <= i < j < |p.toPlace| ensures p.toPlace[i] != p.toPlace[j] {
            assert (p.toPlace + p.placed)[i] == p.toPlace[i] && (p.toPlace + p.placed)[j] == p.toPlace[j];
          }
        }
        RotateAllMeaning(f, p.toPlace);
        forall a | 0 <= a < |p.placed|
          ensures p.placed[a] !in p.toPlace
        {
          assert (p.toPlace + p.placed)[|p.toPlace| + a] == p.placed[a];
          forall c | 0 <= c < |p.toPlace| ensures p.toPlace[c] != p.placed[a] {
            assert (p.toPlace + p.placed)[c] == p.toPlace[c];
          }
        }
        MovingUnplacedKeeps(q, g);
      } else if left && !Collides(f, id) {
        SnapFits(p.fleet[id], mx, my);
        PlacingKeeps(q);
      }
    }
  }

  // ------------------------------------------------------ the enemy's guesses

  /** The outcome of Combat.enemy_move: the cell it shoots at (None when the draws
      ran out before it found one), the guesses recorded, its mode, and the draws
      left. */
  datatype Move = Move(target: Option<Cell>, guesses: seq<Cell>, mode: Mode, rest: seq<nat>)

  /** The seek_random loop: two draws per try until a cell not guessed before. */
  function Seek(guesses: seq<Cell>, draws: seq<nat>): (r: Move)
    ensures r.mode == SeekRandom && |r.rest| <= |draws|
    ensures r.target.Some? ==> InGrid(r.target.value) && r.target.value !in guesses &&
                               r.guesses == guesses + [r.target.value]
    ensures r.target.None? ==> r.guesses == guesses
    decreases |draws|
  {
    if |draws| < 2 then Move(None, guesses, SeekRandom, draws)
    else
      var c := Cell(RandInt(0, 9, draws[0]), RandInt(0, 9, draws[1]));
      if c !in guesses then Move(Some(c), guesses + [c], SeekRandom, draws[2..])
      else Seek(guesses, draws[2..])
  }

  /** The cell next to prev that return_ship tries with two draws: horizontal or
      vertical, then one step either way. */
  function Neighbour(prev: Cell, d0: nat, d1: nat): (r: Cell)
    ensures Adjacent(prev, r)
  {
    var step := Choose(1, -1, d1);
    if Choose(H, V, d0) == H then Cell(prev.x + step, prev.y) else Cell(prev.x, prev.y + step)
  }

  predicate Adjacent(a: Cell, b: Cell)
  {
    (a.y == b.y && (b.x == a.x + 1 || b.x == a.x - 1)) || (a.x == b.x && (b.y == a.y + 1 || b.y == a.y - 1))
  }

  /** Every neighbour is some pair of draws. */
  lemma NeighbourOnto(prev: Cell, n: Cell)
    requires Adjacent(prev, n)
    ensures exists d0: nat, d1: nat :: d0 < 2 && d1 < 2 && Neighbour(prev, d0, d1) == n
  {
    if n.y == prev.y && n.x == prev.x + 1 {
      assert Neighbour(prev, 0, 0) == n;
    } else if n.y == prev.y {
      assert Neighbour(prev, 0, 1) == n;
    } else if n.y == prev.y + 1 {
      assert Neighbour(prev, 1, 0) == n;
    } else {
      assert Neighbour(prev, 1, 1) == n;
    }
  }

  /** The test return_ship applies, as written: not guessed and strictly between
      0 and 9 in both coordinates. */
  predicate AdmissibleAsWritten(t: Cell, guesses: seq<Cell>)
  {
    t !in guesses && 0 < t.x < 9 && 0 < t.y < 9
  }

  /** The test it evidently means: not guessed and on the grid. */
  predicate Admissible(t: Cell, guesses: seq<Cell>)
  {
    t !in guesses && InGrid(t)
  }

  /** Combat.enemy_move as written: in return_ship mode whenever there are correct
      guesses; its safety net, after more than 1000 tries, calls enemy_move again,
      which returns to return_ship mode. */
  function MoveAsWritten(correct: seq<Cell>, guesses: seq<Cell>, draws: seq<nat>): Move
    decreases |draws|, 1
  {
    if correct != [] then ReturnAsWritten(correct, guesses, draws, 0) else Seek(guesses, draws)
  }

  function ReturnAsWritten(correct: seq<Cell>, guesses: seq<Cell>, draws: seq<nat>, tries: nat): Move
    requires correct != []
    decreases |draws|, 0
  {
    if |draws| < 2 then Move(None, guesses, ReturnShip, draws)
    else
      var t := Neighbour(correct[|correct| - 1], draws[0], draws[1]);
      var made := AdmissibleAsWritten(t, guesses);
      var recorded := if made then guesses + [t] else guesses;
      if tries + 1 > SafetyNet then MoveAsWritten(correct, recorded, draws[2..])
      else if made then Move(Some(t), recorded, ReturnShip, draws[2..])
      else ReturnAsWritten(correct, recorded, draws[2..], tries + 1)
  }

  /** A cell enemy_move as written does shoot at passes its test against the guesses
      it started from, lies next to the last correct guess, and is recorded. */
  lemma {:induction false} ReturnAsWrittenFacts(correct: seq<Cell>, guesses: seq<Cell>, draws: seq<nat>, tries: nat)
    requires correct != []
    ensures var r := ReturnAsWritten(correct, guesses, draws, tries);
            r.target.Some? ==> AdmissibleAsWritten(r.target.value, guesses) &&
                               Adjacent(correct[|correct| - 1], r.target.value) && r.target.value in r.guesses
    decreases |draws|
  {
    if |draws| >= 2 {
      var t := Neighbour(correct[|correct| - 1], draws[0], draws[1]);
      var recorded := if AdmissibleAsWritten(t, guesses) then guesses + [t] else guesses;
      if tries + 1 > SafetyNet {
        ReturnAsWrittenFacts(correct, recorded, draws[2..], 0);
      } else if !AdmissibleAsWritten(t, guesses) {
        ReturnAsWrittenFacts(correct, recorded, draws[2..], tries + 1);
      }
    }
  }

  /** No neighbour of a hit in a corner passes the test as written. */
  lemma CornerHasNoTarget(guesses: seq<Cell>, d0: nat, d1: nat)
    ensures !AdmissibleAsWritten(Neighbour(Cell(0, 0), d0, d1), guesses)
  {
  }

  /** So once the last correct guess is the corner, enemy_move as written never
      shoots again: whatever the draws, it runs until they are exhausted. */
  lemma {:induction false} CornerNeverMoves(guesses: seq<Cell>, draws: seq<nat>, tries: nat)
    ensures ReturnAsWritten([Cell(0, 0)], guesses, draws, tries).target.None?
    decreases |draws|
  {
    if |draws| >= 2 {
      CornerHasNoTarget(guesses, draws[0], draws[1]);
      if tries + 1 > SafetyNet {
        CornerNeverMoves(guesses, draws[2..], 0);
      } else {
        CornerNeverMoves(guesses, draws[2..], tries + 1);
      }
    }
  }

  /** Combat.enemy_move with the test it evidently means and a safety net that does
      fall back to seeking at random. */
  function EnemyShot(correct: seq<Cell>, guesses: seq<Cell>, draws: seq<nat>): (r: Move)
    ensures correct == [] ==> r == Seek(guesses, draws)
  {
    if correct != [] then ReturnToShip(correct[|correct| - 1], guesses, draws, 0) else Seek(guesses, draws)
  }

  /** The return_ship loop around the last hit prev, after `tries` tries. */
  function ReturnToShip(prev: Cell, guesses: seq<Cell>, draws: seq<nat>, tries: nat): (r: Move)
    ensures r.mode == ReturnShip && r.target.Some? ==> Adjacent(prev, r.target.value)
    decreases |draws|
  {
    if |draws| < 2 then Move(None, guesses, ReturnShip, draws)
    else
      var t := Neighbour(prev, draws[0], draws[1]);
      if Admissible(t, guesses) then Move(Some(t), guesses + [t], ReturnShip, draws[2..])
      else if tries + 1 > SafetyNet then Seek(guesses, draws[2..])
      else ReturnToShip(prev, guesses, draws[2..], tries + 1)
  }

  /** The enemy shoots at a grid cell it has not guessed before, and records it as
      its only new guess; with no target it records nothing. */
  lemma {:induction false} ReturnToShipFacts(prev: Cell, guesses: seq<Cell>, draws: seq<nat>, tries: nat)
    ensures var r := ReturnToShip(prev, guesses, draws, tries);
            (r.target.Some? ==> InGrid(r.target.value) && r.target.value !in guesses &&
                                r.guesses == guesses + [r.target.value]) &&
            (r.target.None? ==> r.guesses == guesses)
    decreases |draws|
  {
    if |draws| >= 2 {
      var t := Neighbour(prev, draws[0], draws[1]);
      if !Admissible(t, guesses) && tries + 1 <= SafetyNet {
        ReturnToShipFacts(prev, guesses, draws[2..], tries + 1);
      }
    }
  }

  lemma EnemyShotFacts(correct: seq<Cell>, guesses: seq<Cell>, draws: seq<nat>)
    ensures var r := EnemyShot(correct, guesses, draws);
            (r.target.Some? ==> InGrid(r.target.value) && r.target.value !in guesses &&
                                r.guesses == guesses + [r.target.value]) &&
            (r.target.None? ==> r.guesses == guesses)
    ensures var r := EnemyShot(correct, guesses, draws);
            r.mode == ReturnShip ==>
              (correct != [] && (r.target.Some? ==> Adjacent(correct[|correct| - 1], r.target.value)))
  {
    if correct != [] {
      ReturnToShipFacts(correct[|correct| - 1], guesses, draws, 0);
    }
  }

  /** The corner that stalls the program as written: from it the enemy steps to the
      cell on its right on the first two draws. */
  lemma CornerMoves()
    ensures EnemyShot([Cell(0, 0)], [Cell(0, 0)], [0, 0]).target == Some(Cell(1, 0))
  {
    assert Neighbour(Cell(0, 0), 0, 0) == Cell(1, 0);
  }

  /** A hit whose neighbours are all guessed or off the grid: after 1001 failed tries
      the enemy seeks at random with the draws left. */
  lemma {:induction false} StuckFallsBack(prev: Cell, guesses: seq<Cell>, draws: seq<nat>, tries: nat)
    requires tries <= SafetyNet
    requires forall n :: Adjacent(prev, n) ==> !Admissible(n, guesses)
    requires |draws| >= 2 * (SafetyNet + 1 - tries)
    ensures ReturnToShip(prev, guesses, draws, tries) == Seek(guesses, draws[2 * (SafetyNet + 1 - tries)..])
    decreases SafetyNet - tries
  {
    var t := Neighbour(prev, draws[0], draws[1]);
    assert !Admissible(t, guesses);
    if tries < SafetyNet {
      StuckFallsBack(prev, guesses, draws[2..], tries + 1);
      assert draws[2..][2 * (SafetyNet + 1 - (tries + 1))..] == draws[2 * (SafetyNet + 1 - tries)..];
    }
  }

  /** Removing a sunk ship's cells from the correct guesses: exactly its cells go,
      and the others keep their order. */
  function ClearSunk(correct: seq<Cell>, s: Sunk): seq<Cell>
  {
    Filter(correct, OffShip(s))
  }

  /** The test of the list comprehension: not one of the ship's coordinates. */
  function OffShip(s: Sunk): Cell -> bool
  {
    c => c !in ShipCells(s.pos, s.orientation, s.size)
  }

  lemma ClearSunkMeaning(correct: seq<Cell>, s: Sunk)
    ensures forall c :: c in ClearSunk(correct, s) <==> c in correct && !Covers(s.pos, s.orientation, s.size, c)
    ensures NoDup(correct) ==> NoDup(ClearSunk(correct, s))
  {
    var keep := OffShip(s);
    FilterMembers(correct, keep);
    ShipCellsMeaning(s.pos, s.orientation, s.size);
    if NoDup(correct) {
      FilterNoDup(correct, keep);
    }
  }

  // ------------------------------------------------------------------ combat

  /** Whether count_hits sinks the ship: it is still in its group and the markers on
      it are at least its size. */
  predicate Sinks(s: Ship, markers: seq<Cell>)
  {
    s.alive && Hits(Cells(s), markers) >= s.size
  }

  /** A fleet after count_hits on each ship still in the group, and the last ship
      that sank, if any. */
  datatype Sinking = Sinking(fleet: seq<Ship>, sunk: Option<Sunk>)

  function SinkAll(fleet: seq<Ship>, markers: seq<Cell>): (r: Sinking)
    ensures |r.fleet| == |fleet|
  {
    if fleet == [] then Sinking([], None)
    else
      var p := SinkAll(fleet[..|fleet| - 1], markers);
      var s := fleet[|fleet| - 1];
      if Sinks(s, markers) then Sinking(p.fleet + [s.(alive := false)], Some(Sunk(s.pos, s.orientation, s.size)))
      else Sinking(p.fleet + [s], p.sunk)
  }

  /** Exactly the ships in play with at least as many markers as cells are killed,
      nothing else changes, and the ship reported is the last of them. */
  lemma SinkAllMeaning(fleet: seq<Ship>, markers: seq<Cell>)
    ensures var r := SinkAll(fleet, markers);
            forall k :: 0 <= k < |fleet| ==>
              r.fleet[k] == if Sinks(fleet[k], markers) then fleet[k].(alive := false) else fleet[k]
    ensures var r := SinkAll(fleet, markers);
            r.sunk.None? <==> forall k :: 0 <= k < |fleet| ==> !Sinks(fleet[k], markers)
    ensures var r := SinkAll(fleet, markers);
            r.sunk.Some? ==> exists k :: 0 <= k < |fleet| && Sinks(fleet[k], markers) &&
                                         r.sunk.value == Sunk(fleet[k].pos, fleet[k].orientation, fleet[k].size) &&
                                         forall j :: k < j < |fleet| ==> !Sinks(fleet[j], markers)
  {
    SinkAllShips(fleet, markers);
    SinkAllNone(fleet, markers);
    SinkAllReported(fleet, markers);
  }

  lemma {:induction false} SinkAllShips(fleet: seq<Ship>, markers: seq<Cell>)
    ensures var r := SinkAll(fleet, markers);
            forall k :: 0 <= k < |fleet| ==>
              r.fleet[k] == if Sinks(fleet[k], markers) then fleet[k].(alive := false) else fleet[k]
  {
    if fleet != [] {
      var init := fleet[..|fleet| - 1];
      SinkAllShips(init, markers);
      var p := SinkAll(init, markers);
      var r := SinkAll(fleet, markers);
      assert r.fleet[..|init|] == p.fleet;
      forall k | 0 <= k < |init|
        ensures r.fleet[k] == p.fleet[k] && fleet[k] == init[k]
      {
      }
    }
  }

  lemma {:induction false} SinkAllNone(fleet: seq<Ship>, markers: seq<Cell>)
    ensures var r := SinkAll(fleet, markers);
            r.sunk.None? <==> forall k :: 0 <= k < |fleet| ==> !Sinks(fleet[k], markers)
  {
    if fleet != [] {
      var init := fleet[..|fleet| - 1];
      SinkAllNone(init, markers);
      forall k | 0 <= k < |init|
        ensures fleet[k] == init[k]
      {
      }
    }
  }

  lemma {:induction false} SinkAllReported(fleet: seq<Ship>, markers: seq<Cell>)
    ensures var r := SinkAll(fleet, markers);
            r.sunk.Some? ==> exists k :: 0 <= k < |fleet| && Sinks(fleet[k], markers) &&
                                         r.sunk.value == Sunk(fleet[k].pos, fleet[k].orientation, fleet[k].size) &&
                                         forall j :: k < j < |fleet| ==> !Sinks(fleet[j], markers)
  {
    if fleet != [] {
      var init := fleet[..|fleet| - 1];
      var last := fleet[|fleet| - 1];
      var p := SinkAll(init, markers);
      if !Sinks(last, markers) && p.sunk.Some? {
        SinkAllReported(init, markers);
        var k :| 0 <= k < |init| && Sinks(init[k], markers) &&
                 p.sunk.value == Sunk(init[k].pos, init[k].orientation, init[k].size) &&
                 forall j :: k < j < |init| ==> !Sinks(init[j], markers);
        assert fleet[k] == init[k];
        forall j | k < j < |fleet|
          ensures !Sinks(fleet[j], markers)
        {
          if j < |init| {
            assert fleet[j] == init[j];
          }
        }
      }
    }
  }

  /** The count_hits loop over a group: each ship still in it, in order. */
  method SinkFleet(fleet: seq<Ship>, markers: seq<Cell>) returns (r: Sinking)
    ensures r == SinkAll(fleet, markers)
  {
    r := Sinking([], None);
    for k := 0 to |fleet|
      invariant r == SinkAll(fleet[..k], markers)
    {
      assert fleet[..k + 1][..k] == fleet[..k];
      var s := fleet[k];
      if s.alive {
        var hits, after, sunk := CountHits(s, markers);
        r := Sinking(r.fleet + [after], if sunk.Some? then sunk else r.sunk);
      } else {
        r := Sinking(r.fleet + [s], r.sunk);
      }
    }
    assert fleet[..|fleet|] == fleet;
  }

  /** Whether some ship still in the group covers the cell (X.update's collision). */
  predicate HitsFleet(fleet: seq<Ship>, c: Cell)
  {
    exists k :: 0 <= k < |fleet| && fleet[k].alive && c in Cells(fleet[k])
  }

  predicate AnyAlive(fleet: seq<Ship>)
  {
    exists k :: 0 <= k < |fleet| && fleet[k].alive
  }

  /** What a turn of Combat.update reads and changes: both fleets, the player's shots
      (the radar markers), the enemy's markers on the player's grid, its guesses, its
      outstanding hits and mode, and the done and lost flags. */
  datatype Battle = Battle(fleet: seq<Ship>, enemyFleet: seq<Ship>, playerShots: seq<Cell>,
                           enemyMarks: seq<Cell>, guesses: seq<Cell>, correct: seq<Cell>,
                           mode: Mode, done: bool, lost: bool)

  datatype Turn = Turn(battle: Battle, rest: seq<nat>)

  /** The player shoots at `cell`; the enemy answers; hits are counted on both
      fleets; a ship of the player's that sank leaves the enemy's list of hits; and
      the game ends once a fleet is gone. When the draws run out before the enemy
      finds a target the turn stops after the player's shot. */
  function PlayerTurn(b: Battle, cell: Cell, draws: seq<nat>): Turn
  {
    var mv := EnemyShot(b.correct, b.guesses, draws);
    var b1 := b.(playerShots := b.playerShots + [cell], guesses := mv.guesses, mode := mv.mode);
    if mv.target.None? then Turn(b1, mv.rest)
    else Turn(Resolve(Mark(b1, mv.target.value)), mv.rest)
  }

  /** The enemy's marker at t: a hit on a ship still in play is an outstanding hit
      and sends the enemy back to that ship. */
  function Mark(b: Battle, t: Cell): Battle
  {
    var hit := HitsFleet(b.fleet, t);
    b.(enemyMarks := b.enemyMarks + [t],
       correct := if hit then b.correct + [t] else b.correct,
       mode := if hit then ReturnShip else b.mode)
  }

  /** count_hits on both fleets, then the sunk ship's cells leave the outstanding
      hits, then the end of the game. */
  function Resolve(b: Battle): Battle
  {
    var own := SinkAll(b.fleet, b.enemyMarks);
    var theirs := SinkAll(b.enemyFleet, b.playerShots);
    var b1 := b.(fleet := own.fleet, enemyFleet := theirs.fleet);
    var b2 := if own.sunk.Some? then b1.(correct := ClearSunk(b1.correct, own.sunk.value), mode := SeekRandom) else b1;
    var b3 := if !AnyAlive(b2.enemyFleet) then b2.(done := true) else b2;
    if !AnyAlive(b3.fleet) then b3.(lost := true, done := true) else b3
  }

  /** The ship covering a cell, whether or not it still floats. */
  predicate OnFleet(fleet: seq<Ship>, c: Cell)
  {
    exists k :: 0 <= k < |fleet| && c in Cells(fleet[k])
  }

  /** The enemy marks each cell it guesses, once; its outstanding hits are guesses
      that lie on the player's ships; the player shoots each cell once. */
  predicate BattleValid(b: Battle)
  {
    b.enemyMarks == b.guesses && NoDup(b.guesses) && NoDup(b.playerShots) &&
    (forall i :: 0 <= i < |b.guesses| ==> InGrid(b.guesses[i])) &&
    (forall c :: c in b.correct ==> c in b.guesses && OnFleet(b.fleet, c))
  }

  /** Killing ships leaves every ship's cells where they were. */
  lemma SinkingKeepsCells(fleet: seq<Ship>, markers: seq<Cell>, c: Cell)
    ensures OnFleet(SinkAll(fleet, markers).fleet, c) <==> OnFleet(fleet, c)
  {
    SinkAllMeaning(fleet, markers);
    var f := SinkAll(fleet, markers).fleet;
    if OnFleet(fleet, c) {
      var k :| 0 <= k < |fleet| && c in Cells(fleet[k]);
      assert Cells(f[k]) == Cells(fleet[k]);
    }
    if OnFleet(f, c) {
      var k :| 0 <= k < |f| && c in Cells(f[k]);
      assert Cells(f[k]) == Cells(fleet[k]);
    }
  }

  lemma MarkKeeps(b: Battle, t: Cell)
    requires BattleValid(b) && t !in b.guesses && InGrid(t)
    ensures BattleValid(Mark(b.(guesses := b.guesses + [t]), t))
  {
    NoDupSnoc(b.guesses, t);
  }

  lemma ResolveKeeps(b: Battle)
    requires BattleValid(b)
    ensures BattleValid(Resolve(b))
  {
    var own := SinkAll(b.fleet, b.enemyMarks);
    var theirs := SinkAll(b.enemyFleet, b.playerShots);
    var b1 := b.(fleet := own.fleet, enemyFleet := theirs.fleet);
    forall c | c in b1.correct
      ensures OnFleet(b1.fleet, c)
    {
      SinkingKeepsCells(b.fleet, b.enemyMarks, c);
    }
    if own.sunk.Some? {
      ClearSunkMeaning(b1.correct, own.sunk.value);
    }
  }

  /** A turn on a cell the player has not shot at keeps the battle valid: the enemy
      never marks a cell twice, and its outstanding hits stay on the player's ships. */
  lemma TurnKeeps(b: Battle, cell: Cell, draws: seq<nat>)
    requires BattleValid(b) && cell !in b.playerShots
    ensures BattleValid(PlayerTurn(b, cell, draws).battle)
  {
    var mv := EnemyShot(b.correct, b.guesses, draws);
    EnemyShotFacts(b.correct, b.guesses, draws);
    NoDupSnoc(b.playerShots, cell);
    var b0 := b.(playerShots := b.playerShots + [cell], mode := mv.mode);
    assert BattleValid(b0);
    if mv.target.Some? {
      var t := mv.target.value;
      MarkKeeps(b0, t);
      assert b0.(guesses := b0.guesses + [t]) == b.(playerShots := b.playerShots + [cell], guesses := mv.guesses, mode := mv.mode);
      ResolveKeeps(Mark(b0.(guesses := b0.guesses + [t]), t));
    }
  }

  // -------------------------------------------------------------- the game

  /** The player's fleet as Game.start creates it, in placement order. */
  function InitialFleet(): (r: seq<Ship>)
    ensures |r| == |FleetSizes|
  {
    seq(|FleetSizes|, k requires 0 <= k < |FleetSizes| => NewShip(FleetSizes[k]))
  }

  /** The ids of the ships still to place when preparation starts: all, in order. */
  function AllIds(): seq<nat>
  {
    [0, 1, 2, 3, 4]
  }

  /** The freshly started game meets the invariant of the preparation. */
  lemma InitialPrepValid()
    ensures PrepValid(Prep(InitialFleet(), AllIds(), []))
  {
    var p := Prep(InitialFleet(), AllIds(), []);
    assert p.toPlace + p.placed == AllIds();
  }

  /** Whether the mouse is over a button: the DONE button of the preparation, and the
      RESTART GAME button of the end of the game. */
  predicate OnDoneButton(mx: int, my: int)
  {
    200 <= mx < 360 && 500 <= my < 560
  }

  predicate OnRestartButton(mx: int, my: int)
  {
    160 <= mx < 360 && 500 <= my < 560
  }

  /** Whether the mouse is over the radar, and the radar cell under it. */
  predicate InRadar(mx: int, my: int)
  {
    RadarLeft <= mx < RadarLeft + GridSize * SmallCellSize && RadarTop <= my < RadarTop + GridSize * SmallCellSize
  }

  function RadarCell(mx: int, my: int): Cell
  {
    Cell((mx - RadarLeft) / SmallCellSize, (my - RadarTop) / SmallCellSize)
  }

  /** One frame's input: the mouse position and whether the left and right
      buttons went down during it. */
  datatype Input = Input(mx: int, my: int, left: bool, right: bool)

  /** The game: the current state and each state's done flag, both fleets, the
      ships still to place and those placed, the markers, and the enemy's guesses. */
  class Game {
    var state: StateName
    var prepDone: bool
    var combatDone: bool
    var endDone: bool
    var fleet: seq<Ship>
    var enemyFleet: seq<Ship>
    var toPlace: seq<nat>
    var placed: seq<nat>
    var playerShots: seq<Cell>
    var enemyMarks: seq<Cell>
    var guesses: seq<Cell>
    var correct: seq<Cell>
    var mode: Mode
    var gameLost: bool

    function Prepared(): Prep
      reads this
    {
      Prep(fleet, toPlace, placed)
    }

    function Battled(): Battle
      reads this
    {
      Battle(fleet, enemyFleet, playerShots, enemyMarks, guesses, correct, mode, combatDone, gameLost)
    }

    /** The done flag of the current state. */
    predicate Done()
      reads this
    {
      match state
      case Preparation => prepDone
      case Combat => combatDone
      case GameEnd => endDone
    }

    /** The game as Game.start leaves it. */
    predicate Started()
      reads this
    {
      state == Preparation && !prepDone && !combatDone && !endDone &&
      fleet == InitialFleet() && enemyFleet == [] && toPlace == AllIds() && placed == [] &&
      playerShots == [] && enemyMarks == [] && guesses == [] && correct == [] &&
      mode == SeekRandom && !gameLost
    }

    /** The preparation keeps its fleet valid and nothing has been shot yet; every
        battle stays valid; the end screen is never done, since restart_game replaces
        it by a fresh one in the same call. */
    predicate Valid()
      reads this
    {
      (state == Preparation ==> PrepValid(Prepared()) && playerShots == [] && enemyMarks == [] &&
                                guesses == [] && correct == []) &&
      !endDone && BattleValid(Battled())
    }

    constructor ()
      ensures Started() && Valid()
    {
      state := Preparation;
      prepDone, combatDone, endDone := false, false, false;
      fleet := InitialFleet();
      enemyFleet := [];
      toPlace := AllIds();
      placed := [];
      playerShots, enemyMarks, guesses, correct := [], [], [], [];
      mode := SeekRandom;
      gameLost := false;
      new;
      StartedIsValid(this);
    }

    /** Game.start: fresh states, fleets and grids. */
    method Start()
      modifies this
      ensures Started() && Valid()
    {
      state := Preparation;
      prepDone, combatDone, endDone := false, false, false;
      fleet := InitialFleet();
      enemyFleet := [];
      toPlace := AllIds();
      placed := [];
      playerShots, enemyMarks, guesses, correct := [], [], [], [];
      mode := SeekRandom;
      gameLost := false;
      StartedIsValid(this);
    }

    /** Game.switch_states: a state that is done hands over to its next. */
    method SwitchStates()
      modifies this`state
      ensures state == if old(Done()) then Next(old(state)) else old(state)
    {
      if Done() {
        state := Next(state);
      }
    }

    /** The loop rotating every ship still to place. */
    method RotateWaiting()
      requires forall i :: 0 <= i < |toPlace| ==> toPlace[i] < |fleet|
      modifies this`fleet
      ensures fleet == RotateAll(old(fleet), toPlace)
    {
      for i := 0 to |toPlace|
        invariant |fleet| == |old(fleet)|
        invariant fleet == RotateAll(old(fleet), toPlace[..i])
      {
        assert toPlace[..i + 1][..i] == toPlace[..i];
        var id := toPlace[i];
        fleet := fleet[id := Rotate(fleet[id])];
      }
      assert toPlace[..|toPlace|] == toPlace;
    }

    /** The mouse handling of Preparation.update. */
    method PlaceWithMouse(mx: int, my: int, right: bool, left: bool)
      requires forall i :: 0 <= i < |toPlace| ==> toPlace[i] < |fleet|
      modifies this`fleet, this`toPlace, this`placed
      ensures Prepared() == PrepUpdate(old(Prepared()), mx, my, right, left)
    {
      if InMainGrid(mx, my) && |toPlace| > 0 {
        var id := toPlace[0];
        fleet := fleet[id := fleet[id].(pos := Snap(fleet[id], mx, my))];
        if right {
          RotateWaiting();
        } else if left && !Collides(fleet, id) {
          placed := placed + [id];
          toPlace := toPlace[1..];
        }
      }
    }

    /** Preparation.check_ships_placed, the DONE button's callback: once every ship is
        placed the enemy fleet is placed at random and the preparation is done. When
        the draws run out first nothing changes. */
    method CheckShipsPlaced(draws: seq<nat>) returns (rest: seq<nat>)
      modifies this`enemyFleet, this`prepDone
      ensures var r := PlaceFleet(EnemyFleet(), 0, draws);
              if |toPlace| == 0 && r.Some? then enemyFleet == r.value.fleet && prepDone && rest == r.value.rest &&
                                                Deployed(enemyFleet, |enemyFleet|)
              else enemyFleet == old(enemyFleet) && prepDone == old(prepDone) && rest == draws
    {
      rest := draws;
      if |toPlace| == 0 {
        var r := PlaceEnemyShips(draws);
        if r.Some? {
          PlaceFleetDeploys(EnemyFleet(), 0, draws);
          enemyFleet := r.value.fleet;
          prepDone := true;
          rest := r.value.rest;
        }
      }
    }

    /** The enemy fleet, the done flag and the draws left after the DONE button is
        handled: a click with every ship placed, and draws enough, places the enemy
        fleet as PlaceFleet does and ends the preparation; otherwise none changes. */
    ghost predicate AfterDone(clicked: bool, toPlace0: seq<nat>, enemy0: seq<Ship>, done0: bool,
                              draws: seq<nat>, rest: seq<nat>)
      reads this
    {
      var r := PlaceFleet(EnemyFleet(), 0, draws);
      if clicked && |toPlace0| == 0 && r.Some? then enemyFleet == r.value.fleet && prepDone && rest == r.value.rest
      else enemyFleet == enemy0 && prepDone == done0 && rest == draws
    }

    /** Preparation.update: the DONE button, then the mouse over the grid. The button
        lies below the grid, so a click on it never also moves or places a ship. */
    method PreparationUpdate(mx: int, my: int, right: bool, left: bool, draws: seq<nat>) returns (rest: seq<nat>)
      requires state == Preparation && Valid()
      modifies this`fleet, this`toPlace, this`placed, this`enemyFleet, this`prepDone
      ensures Valid() && state == Preparation
      ensures Prepared() == PrepUpdate(old(Prepared()), mx, my, right, left)
      ensures OnDoneButton(mx, my) ==> Prepared() == old(Prepared())
      ensures AfterDone(OnDoneButton(mx, my) && left, old(toPlace), old(enemyFleet), old(prepDone), draws, rest)
    {
      rest := draws;
      if OnDoneButton(mx, my) && left {
        rest := CheckShipsPlaced(draws);
      }
      PlaceWithMouse(mx, my, right, left);
      PrepUpdateKeeps(old(Prepared()), mx, my, right, left);
    }

    /** The seek_random loop of Combat.enemy_move. */
    method SeekLoop(draws: seq<nat>) returns (target: Option<Cell>, rest: seq<nat>)
      modifies this`guesses
      ensures Move(target, guesses, SeekRandom, rest) == Seek(old(guesses), draws)
    {
      var d := draws;
      while true
        invariant guesses == old(guesses) && Seek(guesses, draws) == Seek(guesses, d)
        decreases |d|
      {
        if |d| < 2 {
          return None, d;
        }
        var c := Cell(RandInt(0, 9, d[0]), RandInt(0, 9, d[1]));
        if c !in guesses {
          guesses := guesses + [c];
          return Some(c), d[2..];
        }
        d := d[2..];
      }
    }

    /** Combat.enemy_move, with the test and the safety net it evidently means. */
    method EnemyMove(draws: seq<nat>) returns (target: Option<Cell>, rest: seq<nat>)
      modifies this`guesses, this`mode
      ensures Move(target, guesses, mode, rest) == EnemyShot(correct, old(guesses), draws)
    {
      if |correct| > 0 {
        mode := ReturnShip;
      } else {
        mode := SeekRandom;
      }
      if mode == SeekRandom {
        target, rest := SeekLoop(draws);
        return;
      }
      var prev := correct[|correct| - 1];
      var d := draws;
      var tries := 0;
      while true
        invariant tries <= SafetyNet && guesses == old(guesses) && mode == ReturnShip
        invariant ReturnToShip(prev, guesses, draws, 0) == ReturnToShip(prev, guesses, d, tries)
        decreases |d|
      {
        if |d| < 2 {
          return None, d;
        }
        var t := if Choose(H, V, d[0]) == H then Cell(prev.x + Choose(1, -1, d[1]), prev.y)
                 else Cell(prev.x, prev.y + Choose(1, -1, d[1]));
        if t !in guesses && InGrid(t) {
          guesses := guesses + [t];
          return Some(t), d[2..];
        }
        tries := tries + 1;
        if tries > SafetyNet {
          mode := SeekRandom;
          target, rest := SeekLoop(d[2..]);
          return;
        }
        d := d[2..];
      }
    }

    /** The loop collecting a sunk ship's cells. */
    static method SunkCoords(s: Sunk) returns (coords: seq<Cell>)
      ensures coords == ShipCells(s.pos, s.orientation, s.size)
    {
      coords := [];
      for i := 0 to s.size
        invariant coords == ShipCells(s.pos, s.orientation, i)
      {
        coords := coords + [if s.orientation == H then Cell(s.pos.x + i, s.pos.y) else Cell(s.pos.x, s.pos.y + i)];
      }
    }

    /** The enemy's marker at t and what it hit. */
    method MarkEnemyShot(t: Cell)
      modifies this`enemyMarks, this`correct, this`mode
      ensures Battled() == Mark(old(Battled()), t)
    {
      enemyMarks := enemyMarks + [t];
      if HitsFleet(fleet, t) {
        correct := correct + [t];
        mode := ReturnShip;
      }
    }

    /** The list comprehension dropping a sunk ship's coordinates from the
        enemy's correct guesses. */
    static method KeepOffShip(correct: seq<Cell>, s: Sunk) returns (r: seq<Cell>)
      ensures r == ClearSunk(correct, s)
    {
      var coords := SunkCoords(s);
      r := [];
      for i := 0 to |correct|
        invariant r == ClearSunk(correct[..i], s)
      {
        FilterSnoc(correct[..i], correct[i], OffShip(s));
        assert correct[..i + 1] == correct[..i] + [correct[i]];
        if correct[i] !in coords {
          r := r + [correct[i]];
        }
      }
      assert correct[..|correct|] == correct;
    }

    /** count_hits on both fleets, the sunk ship's cells dropped from the enemy's
        outstanding hits, then the end of the game. */
    method ResolveTurn()
      modifies this`fleet, this`enemyFleet, this`correct, this`mode, this`combatDone, this`gameLost
      ensures Battled() == Resolve(old(Battled()))
    {
      ghost var b := Battled();
      var own := SinkFleet(fleet, enemyMarks);
      var theirs := SinkFleet(enemyFleet, playerShots);
      fleet := own.fleet;
      enemyFleet := theirs.fleet;
      ghost var b1 := b.(fleet := own.fleet, enemyFleet := theirs.fleet);
      assert Battled() == b1;
      if own.sunk.Some? {
        correct := KeepOffShip(correct, own.sunk.value);
        mode := SeekRandom;
      }
      ghost var b2 := if own.sunk.Some? then b1.(correct := ClearSunk(b1.correct, own.sunk.value), mode := SeekRandom) else b1;
      assert Battled() == b2;
      if !AnyAlive(enemyFleet) {
        combatDone := true;
      }
      ghost var b3 := if !AnyAlive(b2.enemyFleet) then b2.(done := true) else b2;
      assert Battled() == b3;
      if !AnyAlive(fleet) {
        gameLost := true;
        combatDone := true;
      }
    }

    /** Combat.update with the mouse at (mx, my): a left click on a radar cell not
        shot at before plays a turn. */
    method CombatUpdate(mx: int, my: int, left: bool, draws: seq<nat>) returns (rest: seq<nat>)
      modifies this`playerShots, this`guesses, this`mode, this`enemyMarks, this`correct
      modifies this`fleet, this`enemyFleet, this`combatDone, this`gameLost
      ensures var cell := RadarCell(mx, my);
              if InRadar(mx, my) && left && cell !in old(playerShots) then
                var turn := PlayerTurn(old(Battled()), cell, draws);
                Battled() == turn.battle && rest == turn.rest
              else Battled() == old(Battled()) && rest == draws
    {
      rest := draws;
      var cell := RadarCell(mx, my);
      if !(InRadar(mx, my) && left && cell !in playerShots) {
        return;
      }
      ghost var b := Battled();
      ghost var mv := EnemyShot(b.correct, b.guesses, draws);
      playerShots := playerShots + [cell];
      var target;
      target, rest := EnemyMove(draws);
      ghost var b1 := b.(playerShots := b.playerShots + [cell], guesses := mv.guesses, mode := mv.mode);
      assert Battled() == b1;
      if target.None? {
        return;
      }
      MarkEnemyShot(target.value);
      ResolveTurn();
    }

    /** Game_end.restart_game, the RESTART GAME button's callback. */
    method RestartGame()
      modifies this
      ensures Started() && Valid()
    {
      endDone := true;
      Start();
    }

    /** One pass of Game.run's loop after the events are read: switch_states, then the
        current state's update, with the mouse at (mx, my) and the buttons pressed
        this frame. The state moves along the chain, at most two steps: combat ends
        and the restart button is clicked in the same frame. */
    method Frame(mx: int, my: int, left: bool, right: bool, draws: seq<nat>) returns (rest: seq<nat>)
      requires Valid()
      modifies this
      ensures Valid()
      ensures state == old(state) || state == Next(old(state)) || state == Next(Next(old(state)))
      ensures match old(if Done() then Next(state) else state)
              case Preparation =>
                state == Preparation && Prepared() == PrepUpdate(old(Prepared()), mx, my, right, left) &&
                AfterDone(OnDoneButton(mx, my) && left, old(toPlace), old(enemyFleet), old(prepDone), draws, rest)
              case Combat =>
                state == Combat &&
                var cell := RadarCell(mx, my);
                if InRadar(mx, my) && left && cell !in old(playerShots) then
                  Battled() == PlayerTurn(old(Battled()), cell, draws).battle &&
                  rest == PlayerTurn(old(Battled()), cell, draws).rest
                else Battled() == old(Battled()) && rest == draws
              case GameEnd =>
                if OnRestartButton(mx, my) && left then Started()
                else state == GameEnd && Prepared() == old(Prepared()) && Battled() == old(Battled()) && rest == draws
    {
      rest := draws;
      SwitchStates();
      match state
      case Preparation =>
        rest := PreparationUpdate(mx, my, right, left, draws);
      case Combat =>
        ghost var before := Battled();
        rest := CombatUpdate(mx, my, left, draws);
        if InRadar(mx, my) && left && RadarCell(mx, my) !in before.playerShots {
          TurnKeeps(before, RadarCell(mx, my), draws);
        }
      case GameEnd =>
        if OnRestartButton(mx, my) && left {
          RestartGame();
        }
    }

    /** Game.run: start, then one frame per input until the inputs run out (the
        window's close button ends the loop; here the input sequence does). Every
        frame keeps the game valid. */
    method Run(inputs: seq<Input>, draws: seq<nat>) returns (rest: seq<nat>)
      modifies this
      ensures Valid()
    {
      Start();
      rest := draws;
      for i := 0 to |inputs|
        invariant Valid()
      {
        var input := inputs[i];
        rest := Frame(input.mx, input.my, input.left, input.right, rest);
      }
    }
  }

  /** A game just started is valid. */
  lemma StartedIsValid(g: Game)
    requires g.Started()
    ensures g.Valid()
  {
    assert g.Prepared() == Prep(InitialFleet(), AllIds(), []);
    InitialPrepValid();
  }

  /** The enemy fleet as place_enemy_ships creates it, off the grid. */
  function EnemyFleet(): (r: seq<Ship>)
    ensures |r| == |FleetSizes| && forall i :: 0 <= i < |r| ==> 1 <= r[i].size <= GridSize
  {
    seq(|FleetSizes|, k requires 0 <= k < |FleetSizes| => NewShip(FleetSizes[k]))
  }

  /** Preparation.place_enemy_ships: each enemy ship in turn is tried at random until
      it collides with no other. */
  method PlaceEnemyShips(draws: seq<nat>) returns (r: Option<Placed>)
    ensures r == PlaceFleet(EnemyFleet(), 0, draws)
  {
    var fleet := EnemyFleet();
    var d := draws;
    for k := 0 to |fleet|
      invariant |fleet| == |FleetSizes| && forall i :: 0 <= i < |fleet| ==> 1 <= fleet[i].size <= GridSize
      invariant PlaceFleet(EnemyFleet(), 0, draws) == PlaceFleet(fleet, k, d)
    {
      var p := PlaceOne(fleet, k, d);
      if p.None? {
        return None;
      }
      fleet, d := p.value.fleet, p.value.rest;
    }
    r := Some(Placed(fleet, d));
  }

  /** The retry loop for one enemy ship. */
  method PlaceOne(fleet: seq<Ship>, k: nat, draws: seq<nat>) returns (r: Option<Placed>)
    requires k < |fleet| && 1 <= fleet[k].size <= GridSize
    ensures r == PlaceShip(fleet, k, draws)
  {
    var d := draws;
    while true
      invariant PlaceShip(fleet, k, draws) == PlaceShip(fleet, k, d)
      decreases |d|
    {
      if |d| < 3 {
        return None;
      }
      var orientation := Flip(Choose(H, V, d[0]));
      var ship := if orientation == H then Ship(fleet[k].size, H, Cell(RandInt(0, GridSize - fleet[k].size, d[1]), RandInt(0, 9, d[2])), true)
                  else Ship(fleet[k].size, V, Cell(RandInt(0, 9, d[1]), RandInt(0, GridSize - fleet[k].size, d[2])), true);
      var f := fleet[k := ship];
      if !Collides(f, k) {
        return Some(Placed(f, d[3..]));
      }
      d := d[3..];
    }
  }
}
