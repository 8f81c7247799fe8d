/** Conversions between grid cells and render-space positions. A cell's
    column becomes the render x axis and its row the render z axis; both are
    centred on the window so that cell `mapSize/2` sits at the origin. The
    arithmetic is exact (`real`), not floating point. */
module Coordinates {
  import opened Grids

  /** A render-space position. */
  datatype Vec3 = Vec3(x: real, y: real, z: real)

  /** `mapSize/2`, the unfloored half width of the window. */
  function Half(mapSize: int): real {
    mapSize as real / 2.0
  }

  /** `glb2loc`: the render position of the centre of cell `p`, raised to the
      cell's terrain height. */
  function Glb2Loc(mapSize: int, unit: real, height: real, p: Pos): Vec3 {
    var h := Half(mapSize);
    var z := (p.row as real - h) * unit;
    var x := (p.col as real - h) * unit;
    var ofst := unit / 2.0;
    Vec3(x + ofst, height, z + ofst)
  }

  /** `glb2loc` places a cell's object at the centre of the cell's square,
      half a unit past the cell's low corner on both axes, at the given
      height. */
  lemma Glb2LocCentre(mapSize: int, unit: real, height: real, p: Pos)
    ensures Glb2Loc(mapSize, unit, height, p).x == (p.col as real - Half(mapSize) + 0.5) * unit
    ensures Glb2Loc(mapSize, unit, height, p).z == (p.row as real - Half(mapSize) + 0.5) * unit
    ensures Glb2Loc(mapSize, unit, height, p).y == height
  {
  }

  /** `pos2world`: the cell whose square contains a render position; the
      height is ignored. */
  function Pos2World(mapSize: int, unit: real, v: Vec3): Pos
    requires unit != 0.0
  {
    var h := Half(mapSize);
    var i := (h + v.x / unit).Floor;
    var j := (h + v.z / unit).Floor;
    Pos(j, i)
  }

  /** A product with a non-zero factor is zero only when the other factor is. */
  lemma ZeroProduct(x: real, u: real)
    requires u != 0.0 && x * u == 0.0
    ensures x == 0.0
  {
  }

  /** Dividing by a non-zero factor undoes multiplying by it. */
  lemma DivCancel(e: real, b: real, u: real)
    requires u != 0.0 && e == b * u
    ensures e / u == b
  {
    var q := e / u;
    assert q * u == e;
    assert (q - b) * u == q * u - b * u;
    ZeroProduct(q - b, u);
  }

  /** Comparing a quotient by a positive divisor is comparing the dividend
      with the scaled bound. */
  lemma CompareQuotient(a: real, t: real, u: real)
    requires u > 0.0
    ensures a <= t / u <==> a * u <= t
    ensures t / u < a <==> t < a * u
  {
    var s := t / u;
    assert s * u == t;
    assert t - a * u == (s - a) * u;
  }

  /** One axis of the round trip: the centre `t` of cell `k` maps back to `k`. */
  lemma AxisRoundTrip(mapSize: int, unit: real, k: int, t: real)
    requires unit != 0.0
    requires t == (k as real - Half(mapSize)) * unit + unit / 2.0
    ensures (Half(mapSize) + t / unit).Floor == k
  {
    var h := Half(mapSize);
    var a := k as real - h;
    DivCancel(t, a + 0.5, unit);
    var r := h + t / unit;
    assert r == k as real + 0.5;
    assert r.Floor == k;
  }

  /** Converting a cell to its render position and back yields the same cell,
      for any non-zero cell size, even though each direction swaps the axes. */
  lemma RoundTrip(mapSize: int, unit: real, height: real, p: Pos)
    requires unit != 0.0
    ensures Pos2World(mapSize, unit, Glb2Loc(mapSize, unit, height, p)) == p
  {
    var v := Glb2Loc(mapSize, unit, height, p);
    AxisRoundTrip(mapSize, unit, p.row, v.z);
    AxisRoundTrip(mapSize, unit, p.col, v.x);
  }

  /** One axis of the cell test: `t` falls in cell `k` exactly when it lies in
      the half-open interval of that cell. */
  lemma AxisCell(mapSize: int, unit: real, t: real, k: int)
    requires unit > 0.0
    ensures (Half(mapSize) + t / unit).Floor == k
        <==> (k as real - Half(mapSize)) * unit <= t < (k as real - Half(mapSize) + 1.0) * unit
  {
    var a := k as real - Half(mapSize);
    var r := Half(mapSize) + t / unit;
    assert r.Floor == k <==> k as real <= r < k as real + 1.0;
    CompareQuotient(a, t, unit);
    CompareQuotient(a + 1.0, t, unit);
    assert r.Floor == k <==> a * unit <= t < (a + 1.0) * unit;
  }

  /** With a positive cell size, a render position resolves to cell `p`
      exactly when it lies inside `p`'s square: columns along x, rows along z. */
  lemma Pos2WorldCell(mapSize: int, unit: real, v: Vec3, p: Pos)
    requires unit > 0.0
    ensures Pos2World(mapSize, unit, v) == p
        <==> && (p.col as real - Half(mapSize)) * unit <= v.x < (p.col as real - Half(mapSize) + 1.0) * unit
             && (p.row as real - Half(mapSize)) * unit <= v.z < (p.row as real - Half(mapSize) + 1.0) * unit
  {
    AxisCell(mapSize, unit, v.x, p.col);
    AxisCell(mapSize, unit, v.z, p.row);
  }
}
