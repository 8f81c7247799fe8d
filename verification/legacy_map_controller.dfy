/** The earlier streaming terrain window (`lib/MapController.js`): integer
    cell types 0 (nothing), 1 (tree), 2 (water) and 3 (rock), no height
    field, no ground mounds, and both the world and the ground container
    slide on a move. */
module LegacyMapController {
  import opened Grids
  import opened Coordinates
  import opened Window
  import opened Scenes
  import opened Generation

  /** The controller's state: the fixed sizes, the cell size `unit`, the
      window bounds `mapData`, the world type grid, the view handed to
      `renderMap`, the scene, the positions of the world and ground
      containers, and the trees `addTree` has placed. */
  datatype Controller = Controller(
    mapSize: nat,
    worldSize: nat,
    unit: real,
    mapData: Bounds,
    worldMap: seq<seq<int>>,
    view: seq<seq<int>>,
    scene: Scene<int>,
    worldOrigin: Origin,
    groundOrigin: Origin,
    planted: seq<Vec3>)

  /** `renderCell` builds a mesh for trees (1), water (2) and rocks (3) only. */
  predicate HasMesh(t: int) {
    t == 1 || t == 2 || t == 3
  }

  /** The constructor: the window covers `[0, mapSize)` on both axes and
      nothing is rendered or generated yet. */
  function New(mapSize: nat, worldSize: nat, unit: real): (c: Controller)
    ensures WellFormed(c.mapData, mapSize) && c.mapData.limNX == 0 && c.mapData.limNY == 0
    ensures c.scene.objects == map[] && c.scene.mounds == {} && c.planted == []
    ensures c.mapSize == mapSize && c.worldSize == worldSize && c.unit == unit
  {
    Controller(mapSize, worldSize, unit, Initial(mapSize), [], [], Scene(map[], {}),
               Origin(0.0, 0.0), Origin(0.0, 0.0), [])
  }

  /** `renderCell`: the cell's slot gets a mesh of its type for types 1 to 3
      and nothing for any other type; no other cell and nothing else of the
      controller changes. */
  function RenderCell(c: Controller, p: Pos, t: int): (r: Controller)
    ensures r == c.(scene := r.scene)
    ensures p in r.scene.objects <==> t == 1 || t == 2 || t == 3
    ensures p in r.scene.objects ==> r.scene.objects[p] == t
    ensures forall q :: q != p ==> (q in r.scene.objects <==> q in c.scene.objects)
    ensures forall q :: q != p && q in r.scene.objects ==> r.scene.objects[q] == c.scene.objects[q]
    ensures r.scene.mounds == c.scene.mounds
  {
    c.(scene := Scenes.RenderCell(c.scene, p, t, HasMesh, false))
  }

  /** `renderMap`: records the view and renders each of its cells at the
      view's own indices; cells outside the view are untouched. */
  function RenderMap(c: Controller, m: seq<seq<int>>): (r: Controller)
    ensures r == c.(view := m, scene := r.scene)
    ensures forall p :: InRange(m, p) ==> (p in r.scene.objects <==> HasMesh(At(m, p)))
    ensures forall p :: InRange(m, p) && p in r.scene.objects ==> r.scene.objects[p] == At(m, p)
    ensures forall p :: !InRange(m, p) ==> (p in r.scene.objects <==> p in c.scene.objects)
    ensures forall p :: !InRange(m, p) && p in r.scene.objects ==> r.scene.objects[p] == c.scene.objects[p]
    ensures r.scene.mounds == c.scene.mounds
  {
    c.(view := m, scene := RenderRows(c.scene, m, 0, HasMesh, false))
  }

  /** The world exists at its full size and the window is well formed and
      inside it. */
  predicate Generated(c: Controller) {
    && IsSquare(c.worldMap, c.worldSize)
    && WellFormed(c.mapData, c.mapSize) && Inside(c.mapData, c.worldSize)
  }

  /** The controller invariant: additionally the scene holds a mesh on
      exactly the window cells whose type has one, depicting that type. */
  ghost predicate Valid(c: Controller) {
    Generated(c) && Consistent(c.scene, c.mapData, c.worldMap, HasMesh, false)
  }

  /** The random inputs of one generation: the tree and rock pass draws of
      every cell, and the rounded-up lake centre column of every row. */
  datatype LegacyDraws = LegacyDraws(tree: seq<seq<real>>, rock: seq<seq<real>>, centre: seq<int>)

  /** Every input covers an `n`-by-`n` world. */
  predicate Sized(dr: LegacyDraws, n: nat) {
    IsSquare(dr.tree, n) && IsSquare(dr.rock, n) && |dr.centre| == n
  }

  /** `Math.floor(Math.random() * 100)`: a draw as a whole percentage. */
  function Percent(u: real): int {
    (u * 100.0).Floor
  }

  /** Which draws of a pass fall under `pct` percent. */
  function PercentHits(us: seq<real>, pct: int): (r: seq<bool>)
    ensures |r| == |us|
    ensures forall j :: 0 <= j < |us| ==> (r[j] <==> Percent(us[j]) < pct)
  {
    seq(|us|, j requires 0 <= j < |us| => Percent(us[j]) < pct)
  }

  /** Row `i` of the world: the tree pass sets every cell to 1 or 0, the
      rock pass overwrites its hits with 3, and the lake pass turns cells
      closer than 3 to the row's centre into water (2). */
  function GenerateRow(n: nat, dr: LegacyDraws, i: nat): (r: seq<int>)
    requires Sized(dr, n) && i < n
    ensures |r| == n
  {
    var t := seq(n, j requires 0 <= j < n => if Percent(dr.tree[i][j]) < 20 then 1 else 0);
    var k := Overlay(t, PercentHits(dr.rock[i], 10), 3);
    LakeRow(k, dr.centre[i], 2)
  }

  /** The whole world, row by row. */
  function GenerateWorld(n: nat, dr: LegacyDraws): (w: seq<seq<int>>)
    requires Sized(dr, n)
    ensures IsSquare(w, n)
  {
    seq(n, i requires 0 <= i < n => GenerateRow(n, dr, i))
  }

  /** The type of cell `(i, j)` read off by precedence: water in the lake
      band, else rock when under 10 percent, else tree when under 20
      percent, else nothing. */
  function Precedence(dr: LegacyDraws, n: nat, i: nat, j: nat): int
    requires Sized(dr, n) && i < n && j < n
  {
    if Dist(j, dr.centre[i]) < 3 then 2
    else if Percent(dr.rock[i][j]) < 10 then 3
    else if Percent(dr.tree[i][j]) < 20 then 1
    else 0
  }

  /** The three passes produce exactly the precedence order, so every cell
      holds one of the four types. */
  lemma {:induction false} WorldFollowsPrecedence(n: nat, dr: LegacyDraws, i: nat, j: nat)
    requires Sized(dr, n) && i < n && j < n
    ensures GenerateWorld(n, dr)[i][j] == Precedence(dr, n, i, j)
    ensures 0 <= GenerateWorld(n, dr)[i][j] <= 3
  {
    assert GenerateWorld(n, dr)[i] == GenerateRow(n, dr, i);
  }

  /** `generateMap`: builds the world, cuts the view around the window's
      centre, and renders the view through `renderMap`. */
  function GenerateMap(c: Controller, dr: LegacyDraws): (r: Controller)
    requires WellFormed(c.mapData, c.mapSize) && Inside(c.mapData, c.worldSize)
    requires Sized(dr, c.worldSize)
    ensures Generated(r)
    ensures r.worldMap == GenerateWorld(c.worldSize, dr)
    ensures r.view == LocalMap(r.worldMap, c.mapData, c.mapSize)
    ensures r == c.(worldMap := r.worldMap, view := r.view, scene := r.scene)
  {
    var w := GenerateWorld(c.worldSize, dr);
    RenderMap(c.(worldMap := w), LocalMap(w, c.mapData, c.mapSize))
  }

  /** Generating on a fresh controller yields a valid one: the view is the
      `[0, mapSize)` square of the world and every cell of it is rendered
      by its type. */
  lemma GenerateMapStartsValid(mapSize: nat, worldSize: nat, unit: real, dr: LegacyDraws)
    requires mapSize <= worldSize && Sized(dr, worldSize)
    ensures var r := GenerateMap(New(mapSize, worldSize, unit), dr);
      && Valid(r)
      && r.mapData == Initial(mapSize)
      && (forall i, j :: 0 <= i < mapSize && 0 <= j < mapSize ==> r.view[i][j] == r.worldMap[i][j])
  {
    var c := New(mapSize, worldSize, unit);
    var r := GenerateMap(c, dr);
    assert forall p :: InWindow(r.mapData, p) <==> InRange(r.view, p);
    assert forall p :: InWindow(r.mapData, p) ==> At(r.view, p) == At(r.worldMap, p);
  }

  /** `updateMap`: the trailing column or row leaves the scene, the bounds
      and centre shift, and the new leading column or row is rendered from
      the world grid. The view `map` is not refreshed. */
  function UpdateMap(c: Controller, d: Dir): (r: Controller)
    requires Generated(c) && Cardinal(d) && !Blocked(c.mapData, d, c.worldSize)
    ensures Generated(r)
    ensures r.mapData == Shift(c.mapData, d)
    ensures r == c.(mapData := r.mapData, scene := r.scene)
  {
    c.(mapData := Shift(c.mapData, d),
       scene := SlideScene(c.scene, c.mapData, d, c.mapSize, c.worldMap, HasMesh, false))
  }

  /** After a move the scene holds exactly the new window's meshes. */
  lemma UpdateMapRendersWindow(c: Controller, d: Dir)
    requires Valid(c) && Cardinal(d) && !Blocked(c.mapData, d, c.worldSize)
    ensures Valid(UpdateMap(c, d))
  {
    SlideSceneConsistent(c.scene, c.mapData, d, c.mapSize, c.worldMap, HasMesh, false);
  }

  /** `makeMove`: a move that would push the window out of the world is
      ignored; any other move updates the window, slides the world container
      against the move and the ground container with it. */
  function MakeMove(c: Controller, d: Dir): (r: Controller)
    requires Generated(c) && Cardinal(d)
    ensures Generated(r)
    ensures Blocked(c.mapData, d, c.worldSize) ==> r == c
    ensures !Blocked(c.mapData, d, c.worldSize) ==>
      && r.mapData == Shift(c.mapData, d)
      && r == c.(mapData := r.mapData, scene := r.scene, worldOrigin := r.worldOrigin, groundOrigin := r.groundOrigin)
      && r.worldOrigin == Slide(c.worldOrigin, c.unit, d)
      && r.groundOrigin == Slide(c.groundOrigin, c.unit, Reverse(d))
  {
    if Blocked(c.mapData, d, c.worldSize) then c
    else
      var u := UpdateMap(c, d);
      var g := Origin(c.groundOrigin.x + c.unit * d.x as real, c.groundOrigin.z + c.unit * d.y as real);
      SlideWith(c.groundOrigin, c.unit, d);
      u.(worldOrigin := Slide(c.worldOrigin, c.unit, d), groundOrigin := g)
  }

  /** Every move keeps the invariant. */
  lemma MakeMoveKeepsValid(c: Controller, d: Dir)
    requires Valid(c) && Cardinal(d)
    ensures Valid(MakeMove(c, d))
  {
    if !Blocked(c.mapData, d, c.worldSize) {
      UpdateMapRendersWindow(c, d);
    }
  }

  /** A move followed by the reverse move restores the whole controller:
      bounds, centre, scene and both containers. */
  lemma MoveThenReverse(c: Controller, d: Dir)
    requires Valid(c) && Cardinal(d) && !Blocked(c.mapData, d, c.worldSize)
    ensures !Blocked(MakeMove(c, d).mapData, Reverse(d), c.worldSize)
    ensures MakeMove(MakeMove(c, d), Reverse(d)) == c
  {
    var c1 := MakeMove(c, d);
    MakeMoveKeepsValid(c, d);
    ShiftReverse(c.mapData, d, c.worldSize);
    var c2 := MakeMove(c1, Reverse(d));
    MakeMoveKeepsValid(c1, Reverse(d));
    SlideBack(c.worldOrigin, c.unit, d);
    SlideBack(c.groundOrigin, c.unit, Reverse(d));
    assert Reverse(Reverse(d)) == d;
    ConsistentUnique(c2.scene, c.scene, c.mapData, c.worldMap, HasMesh, false);
  }

  /** `addTree`: places a loose tree at the given position; the cell it
      computes is never written, so the world, the view, the window and the
      scene are all left as they were. */
  function AddTree(c: Controller, position: Vec3): (r: Controller)
    ensures r.worldMap == c.worldMap && r.view == c.view
    ensures r.mapData == c.mapData && r.scene == c.scene
    ensures r == c.(planted := r.planted)
    ensures r.planted == c.planted + [position]
  {
    c.(planted := c.planted + [position])
  }
}
