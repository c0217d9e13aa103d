/** The falling piece: spawning, translation, the collision test and the
    rotation about the pivot block. */
module Pieces {
  import opened Types
  import opened Board

  /** JavaScript's `%`: the remainder takes the sign of the dividend. */
  function JsRem(a: int, m: int): (r: int)
    requires m > 0
    ensures a >= 0 ==> 0 <= r < m
    ensures a < 0 ==> -m < r <= 0
    ensures exists q :: a == q * m + r
  {
    if a >= 0 then
      assert a == (a / m) * m + a % m;
      a % m
    else
      assert -a == ((-a) / m) * m + (-a) % m;
      assert a == (-((-a) / m)) * m + -((-a) % m);
      -((-a) % m)
  }

  /** Every catalog shape lists four block offsets. */
  predicate WellFormedCatalog(catalog: seq<Shape>) {
    forall i :: 0 <= i < |catalog| ==> |catalog[i]| == 4
  }

  /** A new piece from catalog shape `shapeIndex` in palette colour
      `colorIndex` (the two random draws), moved right to the middle of the
      board; rows are kept as the shape gives them. */
  function SpawnPiece(catalog: seq<Shape>, shapeIndex: int, colorIndex: int): (p: Tetromino)
    requires 0 <= shapeIndex < |catalog|
    requires 0 <= colorIndex < |Colors|
    ensures |p.blocks| == |catalog[shapeIndex]|
    ensures forall i :: 0 <= i < |p.blocks| ==>
      p.blocks[i].x == catalog[shapeIndex][i].0 + 4 &&
      p.blocks[i].y == catalog[shapeIndex][i].1
    ensures forall i :: 0 <= i < |p.blocks| ==> p.blocks[i].color == Colors[colorIndex]
    ensures p.rotation == 0
  {
    var shape := catalog[shapeIndex];
    var color := Colors[colorIndex];
    Tetromino(seq(|shape|, i requires 0 <= i < |shape| =>
      Block(shape[i].0 + N / 2 - 1, shape[i].1, color)), 0)
  }

  /** The piece with every block moved by (dx, dy). */
  function Shift(p: Tetromino, dx: int, dy: int): (q: Tetromino)
    ensures |q.blocks| == |p.blocks| && q.rotation == p.rotation
    ensures forall i :: 0 <= i < |p.blocks| ==>
      q.blocks[i].x == p.blocks[i].x + dx &&
      q.blocks[i].y == p.blocks[i].y + dy &&
      q.blocks[i].color == p.blocks[i].color
  {
    p.(blocks := seq(|p.blocks|, i requires 0 <= i < |p.blocks| =>
      p.blocks[i].(x := p.blocks[i].x + dx, y := p.blocks[i].y + dy)))
  }

  /** Whether block b, moved by (dx, dy), hits a side wall, the floor or an
      occupied cell. Above the field only the side walls count. */
  predicate BlockHits(b: Block, g: Grid, dx: int, dy: int)
    requires IsGrid(g)
  {
    var x := b.x + dx;
    var y := b.y + dy;
    x < 0 || x >= N || y >= N || (y >= 0 && g[y][x] != Empty)
  }

  /** Whether some block hits, examined block by block from the first. */
  function SomeBlockHits(blocks: seq<Block>, g: Grid, dx: int, dy: int): (r: bool)
    requires IsGrid(g)
    ensures r <==> exists i :: 0 <= i < |blocks| && BlockHits(blocks[i], g, dx, dy)
  {
    if |blocks| == 0 then false
    else BlockHits(blocks[0], g, dx, dy) || SomeBlockHits(blocks[1..], g, dx, dy)
  }

  /** The collision test: true iff some block moved by (dx, dy) leaves the
      columns 0..N-1, falls below the last row, or lands inside the field on
      an occupied cell. */
  function Collides(p: Tetromino, g: Grid, dx: int, dy: int): (r: bool)
    requires IsGrid(g)
    ensures r <==>
      exists i :: 0 <= i < |p.blocks| &&
        var x, y := p.blocks[i].x + dx, p.blocks[i].y + dy;
        !(0 <= x < N) || y >= N || (0 <= y && g[y][x] != Empty)
  {
    SomeBlockHits(p.blocks, g, dx, dy)
  }

  /** A piece whose moved blocks are all above the field and between the
      side walls never collides, whatever the board holds. */
  lemma EnteringPieceNeverCollides(p: Tetromino, g: Grid, dx: int, dy: int)
    requires IsGrid(g)
    requires forall i :: 0 <= i < |p.blocks| ==>
      0 <= p.blocks[i].x + dx < N && p.blocks[i].y + dy < 0
    ensures !Collides(p, g, dx, dy)
  {
  }

  /** Testing a piece at an offset is testing the shifted piece in place. */
  lemma ShiftCollides(p: Tetromino, g: Grid, dx: int, dy: int)
    requires IsGrid(g)
    ensures Collides(Shift(p, dx, dy), g, 0, 0) == Collides(p, g, dx, dy)
  {
    var q := Shift(p, dx, dy);
    if Collides(q, g, 0, 0) {
      var i :| 0 <= i < |q.blocks| && BlockHits(q.blocks[i], g, 0, 0);
      assert BlockHits(p.blocks[i], g, dx, dy);
    }
    if Collides(p, g, dx, dy) {
      var i :| 0 <= i < |p.blocks| && BlockHits(p.blocks[i], g, dx, dy);
      assert BlockHits(q.blocks[i], g, 0, 0);
    }
  }

  /** Block b turned a quarter about the pivot c. */
  function TurnAbout(b: Block, c: Block): Block {
    Block(c.x - (b.y - c.y), c.y + (b.x - c.x), b.color)
  }

  /** Every block lies in the field on an empty cell. */
  predicate FitsOn(blocks: seq<Block>, g: Grid)
    requires IsGrid(g)
  {
    forall i :: 0 <= i < |blocks| ==>
      InField(blocks[i].x, blocks[i].y) && g[blocks[i].y][blocks[i].x] == Empty
  }

  /** The piece turned about its pivot, block 1, with the angle advanced. */
  function Turned(p: Tetromino): (q: Tetromino)
    requires |p.blocks| >= 2
  {
    Tetromino(seq(|p.blocks|, i requires 0 <= i < |p.blocks| => TurnAbout(p.blocks[i], p.blocks[1])),
              JsRem(p.rotation + 90, 360))
  }

  /** Advancing an angle by 90 degrees modulo 360 always changes it. */
  lemma QuarterTurnChangesAngle(a: int)
    ensures JsRem(a + 90, 360) != a
  {
    var b := a + 90;
    if b >= 0 {
      assert b == 360 * (b / 360) + b % 360;
    } else {
      assert -b == 360 * ((-b) / 360) + (-b) % 360;
    }
  }

  /** Piece rotation: all or nothing. Either the piece comes back unchanged,
      or every block has turned a quarter about the pivot (which stays put),
      keeps its colour, and lies in the field on an empty cell, and the
      angle has advanced by 90 degrees. The turn is taken exactly when every
      turned block would land in the field on an empty cell. */
  function RotatePiece(p: Tetromino, g: Grid): (r: Tetromino)
    requires |p.blocks| >= 2
    requires IsGrid(g)
    ensures |r.blocks| == |p.blocks|
    ensures r == p || (
      && r.blocks[1] == p.blocks[1]
      && r.rotation == JsRem(p.rotation + 90, 360)
      && forall i :: 0 <= i < |p.blocks| ==>
        var b, c, t := p.blocks[i], p.blocks[1], r.blocks[i];
        && t.x == c.x - (b.y - c.y)
        && t.y == c.y + (b.x - c.x)
        && t.color == b.color
        && InField(t.x, t.y)
        && g[t.y][t.x] == Empty)
    ensures r != p <==> forall i :: 0 <= i < |p.blocks| ==>
      var t := TurnAbout(p.blocks[i], p.blocks[1]);
      0 <= t.x < N && 0 <= t.y < N && g[t.y][t.x] == Empty
  {
    var q := Turned(p);
    QuarterTurnChangesAngle(p.rotation);
    if FitsOn(q.blocks, g) then q else p
  }

  /** A turn that is taken leaves the piece clear of walls, floor and
      settled cells, so the collision test accepts it where it stands. */
  lemma AcceptedTurnDoesNotCollide(p: Tetromino, g: Grid)
    requires |p.blocks| >= 2
    requires IsGrid(g)
    requires RotatePiece(p, g) != p
    ensures !Collides(RotatePiece(p, g), g, 0, 0)
  {
  }

  /** A turn that is taken yields the piece turned about its pivot. */
  lemma AcceptedTurnIsTurned(p: Tetromino, g: Grid)
    requires |p.blocks| >= 2
    requires IsGrid(g)
    requires RotatePiece(p, g) != p
    ensures RotatePiece(p, g) == Turned(p)
  {
  }

  /** Four quarter turns about a fixed pivot bring a block back, and the
      pivot itself never moves. */
  lemma TurnAboutFour(b: Block, c: Block)
    ensures TurnAbout(TurnAbout(TurnAbout(TurnAbout(b, c), c), c), c) == b
    ensures TurnAbout(Block(c.x, c.y, b.color), c) == Block(c.x, c.y, b.color)
  {
  }

  /** Four turns about the pivot restore every block, and a 0..359 angle. */
  lemma {:induction false} TurnedFourTimes(p: Tetromino)
    requires |p.blocks| >= 2
    ensures Turned(Turned(Turned(Turned(p)))).blocks == p.blocks
    ensures 0 <= p.rotation < 360 ==> Turned(Turned(Turned(Turned(p)))).rotation == p.rotation
  {
    var c := p.blocks[1];
    var p1 := Turned(p);
    var p2 := Turned(p1);
    var p3 := Turned(p2);
    var p4 := Turned(p3);
    TurnAboutFour(c, c);
    assert p1.blocks[1] == c;
    assert p2.blocks[1] == c;
    assert p3.blocks[1] == c;
    forall i | 0 <= i < |p.blocks|
      ensures p4.blocks[i] == p.blocks[i]
    {
      TurnAboutFour(p.blocks[i], c);
    }
  }

  /** Four accepted quarter turns in a row bring every block back where it
      started (whatever boards they were taken against); the angle comes
      back too when it started in 0..359. */
  lemma FourTurnsRestore(p: Tetromino, p1: Tetromino, p2: Tetromino, p3: Tetromino, p4: Tetromino,
                         g1: Grid, g2: Grid, g3: Grid, g4: Grid)
    requires |p.blocks| >= 2
    requires IsGrid(g1) && IsGrid(g2) && IsGrid(g3) && IsGrid(g4)
    requires p1 == RotatePiece(p, g1) && p1 != p
    requires p2 == RotatePiece(p1, g2) && p2 != p1
    requires p3 == RotatePiece(p2, g3) && p3 != p2
    requires p4 == RotatePiece(p3, g4) && p4 != p3
    ensures p4.blocks == p.blocks
    ensures 0 <= p.rotation < 360 ==> p4.rotation == p.rotation
  {
    AcceptedTurnIsTurned(p, g1);
    AcceptedTurnIsTurned(p1, g2);
    AcceptedTurnIsTurned(p2, g3);
    AcceptedTurnIsTurned(p3, g4);
    TurnedFourTimes(p);
  }

  /** A piece whose pivot is still above the top row cannot turn, on any
      board: the pivot stays put under the turn and so stays outside the
      field. */
  lemma PivotAboveRefused(p: Tetromino, g: Grid)
    requires |p.blocks| >= 2
    requires IsGrid(g)
    requires p.blocks[1].y < 0
    ensures RotatePiece(p, g) == p
  {
    assert TurnAbout(p.blocks[1], p.blocks[1]) == p.blocks[1];
  }

  /** An upright bar whose top block is above the field, with the pivot in
      the top row, can turn: entering is not by itself a bar to turning. */
  lemma EnteringBarCanTurn()
    ensures var p := Tetromino([Block(4, -1, Cyan), Block(4, 0, Cyan), Block(4, 1, Cyan), Block(4, 2, Cyan)], 0);
      RotatePiece(p, EmptyGrid()) == Turned(p) != p
  {
    var p := Tetromino([Block(4, -1, Cyan), Block(4, 0, Cyan), Block(4, 1, Cyan), Block(4, 2, Cyan)], 0);
    var q := Turned(p);
    assert q.blocks == [Block(5, 0, Cyan), Block(4, 0, Cyan), Block(3, 0, Cyan), Block(2, 0, Cyan)];
    assert FitsOn(q.blocks, EmptyGrid());
  }

  /** A piece lying wholly above the field cannot turn even on an empty board,
      although the turned piece would pass the collision test: the turn
      demands every block inside the field, the collision test lets blocks
      above the field through. */
  lemma EnteringPieceCannotTurn()
    ensures var p := Tetromino([Block(3, -1, Cyan), Block(4, -1, Cyan), Block(5, -1, Cyan), Block(6, -1, Cyan)], 0);
      && RotatePiece(p, EmptyGrid()) == p
      && !Collides(Turned(p), EmptyGrid(), 0, 0)
  {
    var p := Tetromino([Block(3, -1, Cyan), Block(4, -1, Cyan), Block(5, -1, Cyan), Block(6, -1, Cyan)], 0);
    var q := Turned(p);
    assert q.blocks == [Block(4, -2, Cyan), Block(4, -1, Cyan), Block(4, 0, Cyan), Block(4, 1, Cyan)];
  }
}
