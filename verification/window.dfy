/** The sliding window: its bounds record, the move directions, the guard
    that keeps the window inside the world, and the edge strips a move evicts
    and exposes. Columns run `limNX..limX` (the x axis), rows `limNY..limY`
    (the y axis), both half-open. */
module Window {
  import opened Grids

  /** The `data`/`mapData` bounds record with its centre. */
  datatype Bounds = Bounds(limX: int, limNX: int, limY: int, limNY: int, centerX: int, centerY: int)

  /** A move direction `{x, y}`: `x` shifts columns, `y` shifts rows. */
  datatype Dir = Dir(x: int, y: int)

  /** The bounds the constructor sets up: both axes cover `[0, mapSize)`,
      centred on `floor(mapSize/2)`. */
  function Initial(mapSize: nat): (b: Bounds)
    ensures WellFormed(b, mapSize)
    ensures b.limNX == 0 && b.limNY == 0
  {
    Bounds(mapSize, 0, mapSize, 0, mapSize / 2, mapSize / 2)
  }

  /** The window is `mapSize` wide on both axes, with the centre
      `floor(mapSize/2)` cells past the low bound. */
  predicate WellFormed(b: Bounds, mapSize: int) {
    && b.limX - b.limNX == mapSize
    && b.limY - b.limNY == mapSize
    && b.centerX - b.limNX == mapSize / 2
    && b.centerY - b.limNY == mapSize / 2
  }

  /** The window lies within `[0, worldSize]` on both axes. */
  predicate Inside(b: Bounds, worldSize: int) {
    0 <= b.limNX && b.limX <= worldSize && 0 <= b.limNY && b.limY <= worldSize
  }

  /** Cell `p` is in the window. */
  predicate InWindow(b: Bounds, p: Pos) {
    b.limNY <= p.row < b.limY && b.limNX <= p.col < b.limX
  }

  /** A single-axis unit move, or no move at all: what the key handler issues. */
  predicate Cardinal(d: Dir) {
    (d.x == 0 && -1 <= d.y <= 1) || (d.y == 0 && -1 <= d.x <= 1)
  }

  function Reverse(d: Dir): Dir {
    Dir(-d.x, -d.y)
  }

  /** `makeMove`'s guard: the move is refused when any shifted bound would
      leave `[0, worldSize]`. */
  predicate Blocked(b: Bounds, d: Dir, worldSize: int) {
    || b.limX + d.x > worldSize
    || b.limNX + d.x < 0
    || b.limY + d.y > worldSize
    || b.limNY + d.y < 0
  }

  /** The uniform shift of centre and bounds in `updateMap`. */
  function Shift(b: Bounds, d: Dir): (nb: Bounds)
    ensures forall m :: WellFormed(b, m) ==> WellFormed(nb, m)
    ensures forall n :: !Blocked(b, d, n) ==> Inside(nb, n)
  {
    Bounds(b.limX + d.x, b.limNX + d.x, b.limY + d.y, b.limNY + d.y, b.centerX + d.x, b.centerY + d.y)
  }

  /** The `makeMove` guard rejects exactly the moves whose shifted window
      would leave the world. */
  lemma BlockedExactlyLeaves(b: Bounds, d: Dir, n: int)
    ensures Blocked(b, d, n) <==> !Inside(Shift(b, d), n)
  {
  }

  /** A move that is allowed can be undone: the reverse move is allowed from
      the new window and restores the old bounds and centre. */
  lemma ShiftReverse(b: Bounds, d: Dir, n: int)
    requires Inside(b, n) && !Blocked(b, d, n)
    ensures !Blocked(Shift(b, d), Reverse(d), n)
    ensures Shift(Shift(b, d), Reverse(d)) == b
  {
  }

  /** A run of cells visited by one of `updateMap`'s loops: the cells
      `Pos(j, col)` of a column or `Pos(row, j)` of a row, for
      `lo <= j < hi`, visited in increasing `j`. */
  datatype Strip = Column(col: int, lo: int, hi: int) | Row(row: int, lo: int, hi: int)

  predicate OnStrip(s: Strip, p: Pos) {
    match s
    case Column(c, lo, hi) => p.col == c && lo <= p.row < hi
    case Row(r, lo, hi) => p.row == r && lo <= p.col < hi
  }

  /** The cell a loop visits first. */
  function First(s: Strip): (p: Pos)
    requires s.lo < s.hi
    ensures OnStrip(s, p)
  {
    match s
    case Column(c, lo, _) => Pos(lo, c)
    case Row(r, lo, _) => Pos(r, lo)
  }

  /** The cells a loop visits after the first. */
  function Rest(s: Strip): (t: Strip)
    requires s.lo < s.hi
    ensures t.hi - t.lo < s.hi - s.lo
    ensures forall p :: OnStrip(s, p) <==> p == First(s) || OnStrip(t, p)
  {
    s.(lo := s.lo + 1)
  }

  /** The column an x-move evicts: the last one when moving left, the first
      one otherwise. */
  function TrailingX(b: Bounds, dx: int): Strip {
    Column(if dx < 0 then b.limX - 1 else b.limNX, b.limNY, b.limY)
  }

  /** The row a y-move evicts. */
  function TrailingY(b: Bounds, dy: int): Strip {
    Row(if dy < 0 then b.limY - 1 else b.limNY, b.limNX, b.limX)
  }

  /** The column an x-move renders, taken from the already shifted bounds:
      the last one when moving right, the first one otherwise. */
  function LeadingX(nb: Bounds, dx: int): Strip {
    Column(if dx > 0 then nb.limX - 1 else nb.limNX, nb.limNY, nb.limY)
  }

  /** The row a y-move renders, from the shifted bounds. */
  function LeadingY(nb: Bounds, dy: int): Strip {
    Row(if dy > 0 then nb.limY - 1 else nb.limNY, nb.limNX, nb.limX)
  }

  /** `p` is removed by one of the two eviction loops of a move by `d`. */
  predicate Evicted(b: Bounds, d: Dir, p: Pos) {
    (d.x != 0 && OnStrip(TrailingX(b, d.x), p)) || (d.y != 0 && OnStrip(TrailingY(b, d.y), p))
  }

  /** `p` is rendered by one of the two render loops of a move by `d`, given
      the shifted bounds `nb`. */
  predicate Exposed(nb: Bounds, d: Dir, p: Pos) {
    (d.x != 0 && OnStrip(LeadingX(nb, d.x), p)) || (d.y != 0 && OnStrip(LeadingY(nb, d.y), p))
  }

  /** For a cardinal move, the eviction loops remove exactly the cells that
      leave the window, and the render loops add exactly the cells that enter
      it. */
  lemma SlideStrips(b: Bounds, d: Dir, m: int)
    requires WellFormed(b, m) && Cardinal(d)
    ensures forall p :: Evicted(b, d, p) <==> InWindow(b, p) && !InWindow(Shift(b, d), p)
    ensures forall p :: Exposed(Shift(b, d), d, p) <==> InWindow(Shift(b, d), p) && !InWindow(b, p)
  {
  }

  /** The window's view of a grid, as `generateMap` builds it: entry
      `(i, j)` is the grid cell `(centerX + i - floor(m/2), centerY + j - floor(m/2))`. */
  function LocalMap<T>(g: seq<seq<T>>, b: Bounds, m: nat): (v: seq<seq<T>>)
    requires WellFormed(b, m) && Inside(b, |g|) && IsSquare(g, |g|)
    ensures IsSquare(v, m)
    ensures forall i, j :: 0 <= i < m && 0 <= j < m ==> v[i][j] == g[b.centerX + i - m / 2][b.centerY + j - m / 2]
    ensures forall i, j :: 0 <= i < m && 0 <= j < m ==> v[i][j] == g[b.limNX + i][b.limNY + j]
  {
    seq(m, i requires 0 <= i < m =>
      seq(m, j requires 0 <= j < m => g[b.centerX + i - m / 2][b.centerY + j - m / 2]))
  }

  /** The position of the world container, which a move slides instead of
      moving the camera. */
  datatype Origin = Origin(x: real, z: real)

  /** The container slid by `unit` against each axis of the move. */
  function Slide(o: Origin, unit: real, d: Dir): Origin {
    Origin(o.x - unit * d.x as real, o.z - unit * d.y as real)
  }

  /** Sliding for a move and then for the reverse move returns the container
      to where it was. */
  lemma SlideBack(o: Origin, unit: real, d: Dir)
    ensures Slide(Slide(o, unit, d), unit, Reverse(d)) == o
  {
    assert unit * (-d.x) as real == -(unit * d.x as real);
    assert unit * (-d.y) as real == -(unit * d.y as real);
  }

  /** Sliding against the reverse move is sliding with the move: each axis
      gains `unit` times the move's step. */
  lemma SlideWith(o: Origin, unit: real, d: Dir)
    ensures Slide(o, unit, Reverse(d)) == Origin(o.x + unit * d.x as real, o.z + unit * d.y as real)
  {
    assert unit * (-d.x) as real == -(unit * d.x as real);
    assert unit * (-d.y) as real == -(unit * d.y as real);
  }
}
