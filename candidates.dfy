/** The candidate cells of GomokuBoard.get_nearby_cells, as pure functions over a grid. */
module Candidates {
  import opened Rules

  /** Empty on-board cells within Chebyshev distance 2 of (cx, cy). */
  function Ring(g: Grid, cx: int, cy: int): (r: set<Coord>)
    requires WellFormed(g)
    ensures forall c :: c in r ==> InRange(c.0, c.1) && At(g, c.0, c.1) == 0
  {
    set nx, ny | cx - 2 <= nx <= cx + 2 && cy - 2 <= ny <= cy + 2 && InRange(nx, ny) && At(g, nx, ny) == 0
      :: (nx, ny)
  }

  /** The part of Ring(g, cx, cy) whose offset (nx - cx, ny - cy) comes before (dx, dy) when the
      offsets are visited row by row. */
  function RingPrefix(g: Grid, cx: int, cy: int, dy: int, dx: int): set<Coord>
    requires WellFormed(g)
  {
    set nx, ny | cx - 2 <= nx <= cx + 2 && cy - 2 <= ny <= cy + 2 && InRange(nx, ny) && At(g, nx, ny) == 0 &&
                 (ny - cy < dy || (ny - cy == dy && nx - cx < dx))
      :: (nx, ny)
  }

  /** Union of the rings of the occupied cells that come before (x, y) in row-major order. */
  function RingsBefore(g: Grid, y: int, x: int): (r: set<Coord>)
    requires WellFormed(g) && 0 <= y <= 15 && 0 <= x <= 15 && (y == 15 ==> x == 0)
    ensures forall c :: c in r ==> InRange(c.0, c.1) && At(g, c.0, c.1) == 0
    decreases y, x
  {
    if x == 0 then (if y == 0 then {} else RingsBefore(g, y - 1, 15))
    else RingsBefore(g, y, x - 1) + (if At(g, x - 1, y) != 0 then Ring(g, x - 1, y) else {})
  }

  /** The set built by get_nearby_cells: around the last move if there is one,
      otherwise around every occupied cell. */
  function NearbySet(g: Grid, last: Option<Coord>): (r: set<Coord>)
    requires WellFormed(g)
    ensures forall c :: c in r ==> InRange(c.0, c.1) && At(g, c.0, c.1) == 0
  {
    match last
    case Some(m) => Ring(g, m.0, m.1)
    case None => RingsBefore(g, 15, 0)
  }

  /** get_nearby_cells(): the set as a list, or the centre alone when the set is empty
      (whether or not the centre is occupied). */
  function NearbyList(g: Grid, last: Option<Coord>): (r: seq<Coord>)
    requires WellFormed(g)
    ensures |r| > 0 && AllInRange(r)
  {
    var s := NearbySet(g, last);
    if s == {} then [(Centre, Centre)]
    else
      assert forall c :: c in s ==> c in RowMajor(s);
      RowMajor(s)
  }

  // ---------------------------------------------------------------------
  // Properties of get_nearby_cells

  /** c lies within Chebyshev distance 2 of (cx, cy). */
  predicate Near(c: Coord, cx: int, cy: int) { cx - 2 <= c.0 <= cx + 2 && cy - 2 <= c.1 <= cy + 2 }

  /** The rings of the cells before (x, y): the empty on-board cells near a stone that comes
      before (x, y) in row-major order. */
  lemma {:induction false} RingsBeforeAre(g: Grid, y: int, x: int)
    requires WellFormed(g) && 0 <= y <= 15 && 0 <= x <= 15 && (y == 15 ==> x == 0)
    ensures forall c :: c in RingsBefore(g, y, x) <==>
      InRange(c.0, c.1) && At(g, c.0, c.1) == 0 &&
      exists ox, oy :: InRange(ox, oy) && Before(ox, oy, x, y) && At(g, ox, oy) != 0 && Near(c, ox, oy)
    decreases y, x
  {
    if x == 0 && y > 0 {
      RingsBeforeAre(g, y - 1, 15);
      forall c: Coord | InRange(c.0, c.1) && At(g, c.0, c.1) == 0 &&
                 (exists ox, oy :: InRange(ox, oy) && Before(ox, oy, x, y) && At(g, ox, oy) != 0 && Near(c, ox, oy))
        ensures c in RingsBefore(g, y, x)
      {
        var ox, oy :| InRange(ox, oy) && Before(ox, oy, x, y) && At(g, ox, oy) != 0 && Near(c, ox, oy);
        assert Before(ox, oy, 15, y - 1);
      }
    } else if x > 0 {
      RingsBeforeAre(g, y, x - 1);
      forall c: Coord | InRange(c.0, c.1) && At(g, c.0, c.1) == 0 &&
                 (exists ox, oy :: InRange(ox, oy) && Before(ox, oy, x, y) && At(g, ox, oy) != 0 && Near(c, ox, oy))
        ensures c in RingsBefore(g, y, x)
      {
        var ox, oy :| InRange(ox, oy) && Before(ox, oy, x, y) && At(g, ox, oy) != 0 && Near(c, ox, oy);
        if oy == y && ox == x - 1 {
          assert c in Ring(g, x - 1, y);
        } else {
          assert Before(ox, oy, x - 1, y);
        }
      }
    }
  }

  /** The set built by get_nearby_cells: the empty on-board cells within distance 2 of the last
      move, or, when there is none, within distance 2 of some stone. */
  lemma NearbySetIs(g: Grid, last: Option<Coord>)
    requires WellFormed(g)
    ensures forall c :: c in NearbySet(g, last) <==>
      InRange(c.0, c.1) && At(g, c.0, c.1) == 0 &&
      if last.Some? then Near(c, last.value.0, last.value.1)
      else exists ox, oy :: InRange(ox, oy) && At(g, ox, oy) != 0 && Near(c, ox, oy)
  {
    if last.None? {
      RingsBeforeAre(g, 15, 0);
    }
  }

  /** get_nearby_cells() lists every cell of its set exactly once, and answers the centre alone
      when the set is empty, whatever the centre holds. */
  lemma NearbyListIs(g: Grid, last: Option<Coord>)
    requires WellFormed(g)
    ensures NearbySet(g, last) == {} ==> NearbyList(g, last) == [(Centre, Centre)]
    ensures NearbySet(g, last) != {} ==>
      (forall c :: c in NearbyList(g, last) <==> c in NearbySet(g, last)) &&
      forall i, j :: 0 <= i < j < |NearbyList(g, last)| ==> NearbyList(g, last)[i] != NearbyList(g, last)[j]
  {
    RowMajorLists(NearbySet(g, last));
  }

  /** A subset is no larger than its superset. */
  lemma {:induction false} SubsetSize<T>(a: set<T>, b: set<T>)
    requires a <= b
    ensures |a| <= |b|
    decreases |a|
  {
    if a != {} {
      var e :| e in a;
      SubsetSize(a - {e}, b - {e});
    }
  }

  /** A stone placed on a candidate cell removes that candidate and keeps all the others: the
      other cells stay empty, and every stone the set was built around is still there. */
  lemma NearbyAfterStone(g: Grid, last: Option<Coord>, x: int, y: int, v: int)
    requires WellFormed(g) && InRange(x, y) && (x, y) in NearbySet(g, last) && v != 0
    ensures NearbySet(g, last) - {(x, y)} <= NearbySet(Place(g, x, y, v), last)
  {
    var g' := Place(g, x, y, v);
    NearbySetIs(g, last);
    NearbySetIs(g', last);
    forall c | c in NearbySet(g, last) - {(x, y)}
      ensures c in NearbySet(g', last)
    {
      if last.None? {
        var ox, oy :| InRange(ox, oy) && At(g, ox, oy) != 0 && Near(c, ox, oy);
        assert At(g', ox, oy) != 0;
      }
    }
  }

  /** So a stone placed on a candidate shrinks the candidate set by at most one cell. */
  lemma NearbyShrinksByOne(g: Grid, last: Option<Coord>, x: int, y: int, v: int)
    requires WellFormed(g) && InRange(x, y) && (x, y) in NearbySet(g, last) && v != 0
    ensures |NearbySet(Place(g, x, y, v), last)| >= |NearbySet(g, last)| - 1
  {
    NearbyAfterStone(g, last, x, y, v);
    SubsetSize(NearbySet(g, last) - {(x, y)}, NearbySet(Place(g, x, y, v), last));
  }
}
