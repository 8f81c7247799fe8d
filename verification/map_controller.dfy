/** The streaming terrain window of the current program (`MapController`):
    the world grid and height field, the window bounds, the scene mirror of
    the window, and the operations that generate, slide and edit them. */
module MapController {
  import opened Results
  import opened Grids
  import opened Catalogue
  import opened Coordinates
  import opened Window
  import opened Scenes
  import opened Generation

  /** An edit whose position resolves to no cell of the world grid. */
  datatype EditError = OutsideWorld

  /** The controller's state: the fixed sizes, the cell size `unit`, the
      window bounds `data`, the world type grid and height field, the scene,
      and the world container's position. */
  datatype Controller = Controller(
    mapSize: nat,
    worldSize: nat,
    unit: real,
    data: Bounds,
    world: seq<seq<Cell>>,
    height: seq<seq<real>>,
    scene: Scene<Cell>,
    origin: Origin)

  /** `renderCell` builds a foreground object for every kind but ground. */
  predicate HasMesh(c: Cell) {
    c != Ground
  }

  /** The constructor: the window covers `[0, mapSize)` on both axes, nothing
      is rendered yet and no world exists until `GenerateMap`. */
  function New(mapSize: nat, worldSize: nat, unit: real): (c: Controller)
    ensures WellFormed(c.data, mapSize) && c.data.limNX == 0 && c.data.limNY == 0
    ensures c.scene.objects == map[] && c.scene.mounds == {}
    ensures c.mapSize == mapSize && c.worldSize == worldSize && c.unit == unit
  {
    Controller(mapSize, worldSize, unit, Initial(mapSize), [], [], Scene(map[], {}), Origin(0.0, 0.0))
  }

  /** The world exists at its full size and the window is well formed and
      inside it. */
  predicate Generated(c: Controller) {
    && c.unit > 0.0
    && IsSquare(c.world, c.worldSize) && IsSquare(c.height, c.worldSize)
    && WellFormed(c.data, c.mapSize) && Inside(c.data, c.worldSize)
  }

  /** The controller invariant: additionally the scene mirrors the world
      exactly over the window, with a mound on every window cell. */
  ghost predicate Valid(c: Controller) {
    Generated(c) && Consistent(c.scene, c.data, c.world, HasMesh, true)
  }

  /** `generateMap`: builds the world and its heights, then renders the
      window's view of it through `renderMap`. */
  function GenerateMap(c: Controller, prob: Probability, dr: Draws): (r: Controller)
    requires c.unit > 0.0 && WellFormed(c.data, c.mapSize) && Inside(c.data, c.worldSize)
    requires Sized(dr, c.worldSize)
    ensures Generated(r)
    ensures r.world == Generate(c.worldSize, prob, dr).world
    ensures r.height == Generate(c.worldSize, prob, dr).height
    ensures r == c.(world := r.world, height := r.height, scene := r.scene)
    ensures var view := LocalMap(r.world, c.data, c.mapSize);
      forall p :: InRange(view, p) ==>
        && p in r.scene.mounds
        && (p in r.scene.objects <==> HasMesh(At(view, p)))
        && (p in r.scene.objects ==> r.scene.objects[p] == At(view, p))
    ensures var view := LocalMap(r.world, c.data, c.mapSize);
      forall p :: !InRange(view, p) ==>
        && (p in r.scene.mounds <==> p in c.scene.mounds)
        && (p in r.scene.objects <==> p in c.scene.objects)
        && (p in r.scene.objects ==> r.scene.objects[p] == c.scene.objects[p])
  {
    var t := Generate(c.worldSize, prob, dr);
    var view := LocalMap(t.world, c.data, c.mapSize);
    c.(world := t.world, height := t.height, scene := RenderRows(c.scene, view, 0, HasMesh, true))
  }

  /** Generating on a fresh controller yields a valid one: the rendered view
      is the `[0, mapSize)` square of the world, every window cell has its
      mound, and the objects are exactly the window cells that are not
      ground; every world cell follows the generation precedence. */
  lemma GenerateMapStartsValid(mapSize: nat, worldSize: nat, unit: real, prob: Probability, dr: Draws)
    requires mapSize <= worldSize && unit > 0.0 && Sized(dr, worldSize)
    ensures var r := GenerateMap(New(mapSize, worldSize, unit), prob, dr);
      && Valid(r)
      && r.data == Initial(mapSize)
      && (forall i, j :: 0 <= i < mapSize && 0 <= j < mapSize ==>
            LocalMap(r.world, r.data, mapSize)[i][j] == r.world[i][j])
      && (forall i, j :: 0 <= i < worldSize && 0 <= j < worldSize ==>
            r.world[i][j] == Precedence(prob, dr, worldSize, i, j))
  {
    var c := New(mapSize, worldSize, unit);
    var r := GenerateMap(c, prob, dr);
    var view := LocalMap(r.world, c.data, mapSize);
    assert forall p :: InWindow(r.data, p) <==> InRowsFrom(view, 0, p);
    assert forall p :: InWindow(r.data, p) ==> At(view, p) == At(r.world, p);
    forall i, j | 0 <= i < worldSize && 0 <= j < worldSize
      ensures r.world[i][j] == Precedence(prob, dr, worldSize, i, j)
    {
      GenerateFollowsPrecedence(worldSize, prob, dr, i, j);
    }
  }

  /** `updateMap`: the trailing column or row is evicted, the bounds and
      centre shift, and the new leading column or row is rendered from the
      world grid, each with its ground mound. */
  function UpdateMap(c: Controller, d: Dir): (r: Controller)
    requires Generated(c) && Cardinal(d) && !Blocked(c.data, d, c.worldSize)
    ensures Generated(r)
    ensures r.data == Shift(c.data, d)
    ensures r == c.(data := r.data, scene := r.scene)
  {
    c.(data := Shift(c.data, d), scene := SlideScene(c.scene, c.data, d, c.mapSize, c.world, HasMesh, true))
  }

  /** After a move's eviction and render loops the scene mirrors the new
      window: the incremental update agrees with rendering the whole window
      afresh. */
  lemma UpdateMapRendersWindow(c: Controller, d: Dir)
    requires Valid(c) && Cardinal(d) && !Blocked(c.data, d, c.worldSize)
    ensures Valid(UpdateMap(c, d))
  {
    SlideSceneConsistent(c.scene, c.data, d, c.mapSize, c.world, HasMesh, true);
  }

  /** `makeMove`: a move that would push the window out of the world is
      ignored; any other move updates the window and slides the world
      container by one cell against the move. */
  function MakeMove(c: Controller, d: Dir): (r: Controller)
    requires Generated(c) && Cardinal(d)
    ensures Generated(r)
    ensures Blocked(c.data, d, c.worldSize) ==> r == c
    ensures !Blocked(c.data, d, c.worldSize) ==>
      && r.data == Shift(c.data, d)
      && r == c.(data := r.data, scene := r.scene, origin := r.origin)
      && r.origin == Slide(c.origin, c.unit, d)
  {
    if Blocked(c.data, d, c.worldSize) then c
    else
      var u := UpdateMap(c, d);
      u.(origin := Slide(u.origin, c.unit, d))
  }

  /** Every move keeps the invariant: the window stays `mapSize` wide with
      its centre offset, inside the world, and the scene mirrors it. */
  lemma MakeMoveKeepsValid(c: Controller, d: Dir)
    requires Valid(c) && Cardinal(d)
    ensures Valid(MakeMove(c, d))
  {
    if !Blocked(c.data, d, c.worldSize) {
      UpdateMapRendersWindow(c, d);
    }
  }

  /** A move followed by the reverse move restores the whole controller:
      bounds, centre, scene and the world container's position. */
  lemma MoveThenReverse(c: Controller, d: Dir)
    requires Valid(c) && Cardinal(d) && !Blocked(c.data, d, c.worldSize)
    ensures !Blocked(MakeMove(c, d).data, Reverse(d), c.worldSize)
    ensures MakeMove(MakeMove(c, d), Reverse(d)) == c
  {
    var c1 := MakeMove(c, d);
    MakeMoveKeepsValid(c, d);
    ShiftReverse(c.data, d, c.worldSize);
    var c2 := MakeMove(c1, Reverse(d));
    MakeMoveKeepsValid(c1, Reverse(d));
    SlideBack(c.origin, c.unit, d);
    SameWindowSameState(c2, c);
  }

  /** Two valid controllers that agree on everything but the scene agree on
      the scene too. */
  lemma SameWindowSameState(c1: Controller, c2: Controller)
    requires Valid(c1) && Valid(c2)
    requires c1 == c2.(scene := c1.scene)
    ensures c1 == c2
  {
    ConsistentUnique(c1.scene, c2.scene, c1.data, c1.world, HasMesh, true);
  }

  /** The zero direction, which the key handler issues when no movement key
      is held, changes nothing. */
  lemma StayIsNoOp(c: Controller)
    requires Generated(c)
    ensures MakeMove(c, Dir(0, 0)) == c
  {
    var d := Dir(0, 0);
    var u := UpdateMap(c, d);
    assert u.scene.mounds == c.scene.mounds;
    assert u.scene.objects.Keys == c.scene.objects.Keys;
    assert u.scene.objects == c.scene.objects;
    assert u == c;
  }

  /** The cell an edit position resolves to. */
  function Target(c: Controller, pos: Vec3): Pos
    requires c.unit > 0.0
  {
    Pos2World(c.mapSize, c.unit, pos)
  }

  /** `drawObject`: when a required current type is given and the cell holds
      another type, nothing happens; otherwise the cell is rendered with the
      new type (keeping its mound when `soft`) and the world records it. */
  function DrawObject(c: Controller, pos: Vec3, t: Cell, cond: Option<Cell>, soft: bool): (r: Result<Controller, EditError>)
    requires Generated(c)
    ensures r.Err? <==> !InGrid(Target(c, pos), c.worldSize)
    ensures r.Ok? && cond.Some? && At(c.world, Target(c, pos)) != cond.value ==> r.value == c
    ensures r.Ok? && !(cond.Some? && At(c.world, Target(c, pos)) != cond.value) ==>
      var p := Target(c, pos);
      && Generated(r.value)
      && r.value == c.(world := r.value.world, scene := r.value.scene)
      && At(r.value.world, p) == t
      && (forall q :: InGrid(q, c.worldSize) && q != p ==> At(r.value.world, q) == At(c.world, q))
      && (p in r.value.scene.objects <==> HasMesh(t))
      && (p in r.value.scene.objects ==> r.value.scene.objects[p] == t)
      && (forall q :: q != p ==> (q in r.value.scene.objects <==> q in c.scene.objects))
      && (forall q :: q != p && q in r.value.scene.objects ==> r.value.scene.objects[q] == c.scene.objects[q])
      && (forall q :: q in r.value.scene.mounds <==> q in c.scene.mounds || (!soft && q == p))
  {
    var p := Target(c, pos);
    if !InGrid(p, c.worldSize) then Err(OutsideWorld)
    else if cond.Some? && At(c.world, p) != cond.value then Ok(c)
    else Ok(c.(scene := RenderCell(c.scene, p, t, HasMesh, !soft), world := Put(c.world, p, t)))
  }

  /** A soft edit of a window cell that has no object (a ground cell, as
      `drawTree` demands) keeps the invariant: nothing is overwritten, so no
      mesh is left orphaned in the scene. */
  lemma DrawObjectKeepsValid(c: Controller, pos: Vec3, t: Cell, cond: Option<Cell>, soft: bool)
    requires Valid(c) && InWindow(c.data, Target(c, pos))
    requires soft && Target(c, pos) !in c.scene.objects
    ensures DrawObject(c, pos, t, cond, soft).Ok?
    ensures Valid(DrawObject(c, pos, t, cond, soft).value)
  {
    var r := DrawObject(c, pos, t, cond, soft).value;
    var p := Target(c, pos);
    assert forall q :: InWindow(c.data, q) ==> InGrid(q, c.worldSize);
    forall q | q in r.scene.objects
      ensures InWindow(r.data, q) && r.scene.objects[q] == At(r.world, q) && HasMesh(r.scene.objects[q])
    {
    }
  }

  /** `drawTree`: a soft edit to a tree that only applies to ground. */
  function DrawTree(c: Controller, pos: Vec3): (r: Result<Controller, EditError>)
    requires Generated(c)
    ensures r.Err? <==> !InGrid(Target(c, pos), c.worldSize)
    ensures r.Ok? && At(c.world, Target(c, pos)) != Ground ==> r.value == c
    ensures r.Ok? && At(c.world, Target(c, pos)) == Ground ==>
      && Generated(r.value)
      && r.value == c.(world := r.value.world, scene := r.value.scene)
      && InRange(r.value.world, Target(c, pos))
      && At(r.value.world, Target(c, pos)) == Tree
      && (forall q :: InGrid(q, c.worldSize) && q != Target(c, pos) ==> At(r.value.world, q) == At(c.world, q))
      && Target(c, pos) in r.value.scene.objects && r.value.scene.objects[Target(c, pos)] == Tree
      && (forall q :: q != Target(c, pos) ==> (q in r.value.scene.objects <==> q in c.scene.objects))
      && (forall q :: q != Target(c, pos) && q in r.value.scene.objects ==> r.value.scene.objects[q] == c.scene.objects[q])
      && r.value.scene.mounds == c.scene.mounds
  {
    DrawObject(c, pos, Tree, Some(Ground), true)
  }

  /** Planting on a window cell keeps the invariant, whatever the cell holds:
      ground has no object to overwrite, and any other type is refused. */
  lemma DrawTreeKeepsValid(c: Controller, pos: Vec3)
    requires Valid(c) && InWindow(c.data, Target(c, pos))
    ensures DrawTree(c, pos).Ok?
    ensures Valid(DrawTree(c, pos).value)
  {
    var p := Target(c, pos);
    assert InGrid(p, c.worldSize);
    if At(c.world, p) == Ground {
      assert p !in c.scene.objects;
      DrawObjectKeepsValid(c, pos, Tree, Some(Ground), true);
    }
  }

  /** Planting twice on the same cell: the second attempt finds a tree, not
      ground, and is rejected. */
  lemma DrawTreeTwice(c: Controller, pos: Vec3)
    requires Generated(c) && DrawTree(c, pos).Ok?
    ensures var c1 := DrawTree(c, pos).value; DrawTree(c1, pos) == Ok(c1)
  {
  }
}
