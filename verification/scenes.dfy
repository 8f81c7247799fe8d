/** Scene bookkeeping: which grid cells currently have their foreground
    object, and their ground mound, in the 3-D scene. Meshes themselves are
    not modelled; a cell's object remembers only the cell type it depicts. */
module Scenes {
  import opened Grids
  import opened Window

  /** `objects`: cells whose foreground object is in the scene, with the type
      it depicts. `mounds`: cells whose ground mound is in the scene. */
  datatype Scene<T> = Scene(objects: map<Pos, T>, mounds: set<Pos>)

  /** `renderCell`: the cell's object slot is overwritten, with a new object
      when the type has a mesh (`shown`) and with nothing otherwise; when
      `ground` is set, the cell's mound is raised as well. */
  function RenderCell<T>(sc: Scene<T>, p: Pos, t: T, shown: T -> bool, ground: bool): (r: Scene<T>)
    ensures p in r.objects <==> shown(t)
    ensures p in r.objects ==> r.objects[p] == t
    ensures forall q :: q != p ==> (q in r.objects <==> q in sc.objects)
    ensures forall q :: q != p && q in r.objects ==> r.objects[q] == sc.objects[q]
    ensures forall q :: q in r.mounds <==> q in sc.mounds || (ground && q == p)
  {
    Scene(if shown(t) then sc.objects[p := t] else sc.objects - {p},
          if ground then sc.mounds + {p} else sc.mounds)
  }

  /** `removeCell`: the cell's object leaves the scene; its mound leaves too
      unless the removal is soft. */
  function RemoveCell<T>(sc: Scene<T>, p: Pos, soft: bool): (r: Scene<T>)
    ensures forall q :: q in r.objects <==> q in sc.objects && q != p
    ensures forall q :: q in r.objects ==> r.objects[q] == sc.objects[q]
    ensures forall q :: q in r.mounds <==> q in sc.mounds && (soft || q != p)
  {
    Scene(sc.objects - {p}, if soft then sc.mounds else sc.mounds - {p})
  }

  /** An eviction loop of `updateMap`: `removeCell` (not soft) on every cell
      of the strip, in order. Exactly the strip's cells leave the scene. */
  function EvictStrip<T>(sc: Scene<T>, s: Strip): (r: Scene<T>)
    ensures forall p :: p in r.objects <==> p in sc.objects && !OnStrip(s, p)
    ensures forall p :: p in r.objects ==> r.objects[p] == sc.objects[p]
    ensures forall p :: p in r.mounds <==> p in sc.mounds && !OnStrip(s, p)
    decreases s.hi - s.lo
  {
    if s.lo >= s.hi then sc
    else EvictStrip(RemoveCell(sc, First(s), false), Rest(s))
  }

  /** A render loop of `updateMap`: `renderCell` on every cell of the strip,
      with the cell's type read from `grid`. Afterwards each strip cell shows
      exactly its grid type, and no other cell changes. */
  function RenderStrip<T>(sc: Scene<T>, s: Strip, grid: seq<seq<T>>, shown: T -> bool, ground: bool): (r: Scene<T>)
    requires forall p :: OnStrip(s, p) ==> InRange(grid, p)
    ensures forall p :: OnStrip(s, p) ==> (p in r.objects <==> shown(At(grid, p)))
    ensures forall p :: OnStrip(s, p) && p in r.objects ==> r.objects[p] == At(grid, p)
    ensures forall p :: !OnStrip(s, p) ==> (p in r.objects <==> p in sc.objects)
    ensures forall p :: !OnStrip(s, p) && p in r.objects ==> r.objects[p] == sc.objects[p]
    ensures forall p :: p in r.mounds <==> p in sc.mounds || (ground && OnStrip(s, p))
    decreases s.hi - s.lo
  {
    if s.lo >= s.hi then sc
    else
      var p := First(s);
      RenderStrip(RenderCell(sc, p, At(grid, p), shown, ground), Rest(s), grid, shown, ground)
  }

  /** Cell `p` lies in row `i` or a later row of `g`. */
  predicate InRowsFrom<T>(g: seq<seq<T>>, i: int, p: Pos) {
    i <= p.row && InRange(g, p)
  }

  /** `renderMap`: every cell `(i, j)` of `g`, from row `i` on, is rendered
      with type `g[i][j]`, row by row. */
  function RenderRows<T>(sc: Scene<T>, g: seq<seq<T>>, i: nat, shown: T -> bool, ground: bool): (r: Scene<T>)
    ensures forall p :: InRowsFrom(g, i, p) ==> (p in r.objects <==> shown(At(g, p)))
    ensures forall p :: InRowsFrom(g, i, p) && p in r.objects ==> r.objects[p] == At(g, p)
    ensures forall p :: !InRowsFrom(g, i, p) ==> (p in r.objects <==> p in sc.objects)
    ensures forall p :: !InRowsFrom(g, i, p) && p in r.objects ==> r.objects[p] == sc.objects[p]
    ensures forall p :: p in r.mounds <==> p in sc.mounds || (ground && InRowsFrom(g, i, p))
    decreases |g| - i
  {
    if i >= |g| then sc
    else
      var row := Row(i, 0, |g[i]|);
      assert forall p :: OnStrip(row, p) <==> p.row == i && InRange(g, p);
      RenderRows(RenderStrip(sc, row, g, shown, ground), g, i + 1, shown, ground)
  }

  /** The scene mirrors the grid over the window and nothing else: an object
      sits on exactly the window cells whose type has a mesh, depicting that
      type, and (when mounds are kept) a mound sits on every window cell. */
  ghost predicate Consistent<T>(sc: Scene<T>, b: Bounds, grid: seq<seq<T>>, shown: T -> bool, ground: bool)
    requires Inside(b, |grid|) && IsSquare(grid, |grid|)
  {
    && (forall p :: p in sc.mounds <==> ground && InWindow(b, p))
    && (forall p :: p in sc.objects ==> InWindow(b, p) && sc.objects[p] == At(grid, p) && shown(sc.objects[p]))
    && (forall p :: InWindow(b, p) && shown(At(grid, p)) ==> p in sc.objects)
  }

  /** `updateMap`'s scene work for a cardinal move of window `b`: the
      eviction loops over the trailing column and row, then the render loops
      over the leading column and row of the shifted window, reading types
      from `grid`. Exactly the cells leaving the window leave the scene, and
      exactly the cells entering it are rendered from the grid. */
  function SlideScene<T>(sc: Scene<T>, b: Bounds, d: Dir, m: int, grid: seq<seq<T>>, shown: T -> bool, ground: bool): (r: Scene<T>)
    requires WellFormed(b, m) && Cardinal(d) && IsSquare(grid, |grid|) && !Blocked(b, d, |grid|)
    ensures forall p :: p in r.mounds <==> (p in sc.mounds && !Evicted(b, d, p)) || (ground && Exposed(Shift(b, d), d, p))
    ensures forall p :: Exposed(Shift(b, d), d, p) ==>
      && InWindow(Shift(b, d), p) && !InWindow(b, p)
      && (p in r.objects <==> shown(At(grid, p)))
      && (p in r.objects ==> r.objects[p] == At(grid, p))
    ensures forall p :: !Exposed(Shift(b, d), d, p) ==>
      && (p in r.objects <==> p in sc.objects && !Evicted(b, d, p))
      && (p in r.objects ==> r.objects[p] == sc.objects[p])
  {
    var nb := Shift(b, d);
    SlideStrips(b, d, m);
    var s1 := if d.x != 0 then EvictStrip(sc, TrailingX(b, d.x)) else sc;
    var s2 := if d.y != 0 then EvictStrip(s1, TrailingY(b, d.y)) else s1;
    var s3 := if d.x != 0 then RenderStrip(s2, LeadingX(nb, d.x), grid, shown, ground) else s2;
    if d.y != 0 then RenderStrip(s3, LeadingY(nb, d.y), grid, shown, ground) else s3
  }

  /** The incremental update keeps the scene consistent: a scene mirroring
      the old window mirrors the shifted window after `SlideScene`, just as
      rendering the new window afresh would. */
  lemma SlideSceneConsistent<T>(sc: Scene<T>, b: Bounds, d: Dir, m: int, grid: seq<seq<T>>, shown: T -> bool, ground: bool)
    requires WellFormed(b, m) && Cardinal(d) && IsSquare(grid, |grid|) && !Blocked(b, d, |grid|)
    requires Inside(b, |grid|) && Consistent(sc, b, grid, shown, ground)
    ensures Consistent(SlideScene(sc, b, d, m, grid, shown, ground), Shift(b, d), grid, shown, ground)
  {
    var r := SlideScene(sc, b, d, m, grid, shown, ground);
    var nb := Shift(b, d);
    SlideStrips(b, d, m);
    forall p | p in r.objects
      ensures InWindow(nb, p) && r.objects[p] == At(grid, p) && shown(r.objects[p])
    {
    }
    forall p | InWindow(nb, p) && shown(At(grid, p))
      ensures p in r.objects
    {
    }
  }

  /** A consistent scene is determined by the window and the grid. */
  lemma ConsistentUnique<T>(s1: Scene<T>, s2: Scene<T>, b: Bounds, grid: seq<seq<T>>, shown: T -> bool, ground: bool)
    requires Inside(b, |grid|) && IsSquare(grid, |grid|)
    requires Consistent(s1, b, grid, shown, ground) && Consistent(s2, b, grid, shown, ground)
    ensures s1 == s2
  {
    assert s1.mounds == s2.mounds;
    assert s1.objects.Keys == s2.objects.Keys;
    assert s1.objects == s2.objects;
  }
}
