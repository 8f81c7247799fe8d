# Plato streaming terrain window, in Dafny

This project models the streaming terrain window of Plato's `MapController`. A
square world grid of `worldSize` cells holds one terrain type per cell. Only a
`mapSize`-wide window of it is in the 3-D scene at any time. Moving the window
by one cell evicts the trailing column or row and renders the newly exposed
one. Clicks plant trees on ground or clear cells back to ground.

The program ships two copies of this logic, and both are modelled:

- **Current version** (`v3.js`), in these modules:
  - `Catalogue`: `makeEnum` and the `CATALOGUE` numbering of the five terrain
    kinds.
  - `Coordinates`: `glb2loc` and `pos2world`, over exact reals.
  - `Window`: the window bounds, the move guard, the shift, and the strips the
    move loops visit.
  - `Scenes`: which cells have their object or ground mound in the scene, and
    `renderCell`, `removeCell`, `renderMap` and the update loops.
  - `Generation`: the overlay passes of `generateMap`.
  - `MapController`: the controller record and its operations.
  - `PlatoScene`: the click and key handlers that drive it.
- **Earlier version** (`lib/MapController.js`): `LegacyMapController`. It has
  integer cell types 0 to 3, no height field and no ground mounds, and it
  slides a ground container as well as the world container.

The state is an immutable record and each handler is a pure function from
state to state. The scene is modelled as cell membership: a map from cell to
the type its object depicts, plus a set of cells with a mound. Meshes are not
modelled. `Math.random()`, the sine and cosine base heights and the
rounded-up lake centre of each row are inputs to generation.

The central invariant is `Consistent`. It holds when the scene has a mound on
every window cell and an object on exactly the window cells whose type has a
mesh, each depicting the world's type for that cell. It holds after
generation, every move keeps it, and so does every edit or click on a cell
of the window. A click can also land outside the window: see "## Findings".

## Model

| member | source | states |
|---|---|---|
| Catalogue.MakeEnum | v3.js:19-24 | a name is a key exactly when it is listed; it maps to a position that holds it, and no later position holds it (a later duplicate wins) |
| Catalogue.CatalogueNumbering | v3.js:26-28 | `CATALOGUE` numbers GROUND, TREE, WATER, ROCK, GRASS as 0 to 4, matching each kind's stored number |
| Catalogue.IndexRoundTrip | v3.js:26-28 | decoding a stored number gives back its kind; exactly the numbers 0 to 4 decode |
| Coordinates.RoundTrip | v3.js:69-79 | for every cell and every non-zero unit, `pos2world` of the `glb2loc` position is the cell again, despite each function swapping the axes |
| Coordinates.Glb2LocCentre | v3.js:69-79 | `glb2loc` places a cell's object at the centre of its square, half a unit past the cell's low corner on both axes, at the given height |
| Coordinates.Pos2WorldCell | v3.js:210-218 | `pos2world` returns a cell exactly when the position lies in that cell's half-open square of side `unit` |
| Window.Initial | v3.js:54-60 | the constructor's window spans `[0, mapSize)` on both axes, with its centre `floor(mapSize/2)` past the low bounds |
| Window.BlockedExactlyLeaves | v3.js:129-134 | the `makeMove` guard rejects a move exactly when the shifted window would leave the world |
| Window.LocalMap | v3.js:308-318 | the view is `mapSize` square, and cell `(i, j)` of it is world cell `(lim_nx + i, lim_ny + j)`: the row is offset by the column bound, as the code's use of `center.x` for rows makes it |
| Window.Shift | v3.js:178-184 | the uniform shift keeps both widths at `mapSize` and the centre offsets at `floor(mapSize/2)`; a shift the guard lets through stays inside the world |
| Window.ShiftReverse | v3.js:123-133 | after an allowed move, the reverse move is allowed and restores the bounds and the centre |
| Window.SlideStrips | v3.js:157-206 | the evicted strip is exactly the cells of the old window not in the new one; the rendered strip is exactly the cells of the new window not in the old one |
| Window.SlideBack | v3.js:144-148 | the world container's slide for a move is undone by the reverse move's slide |
| Scenes.RenderCell | v3.js:81-112 | a cell's object slot becomes an object of its type exactly when the type has a mesh; the mound is raised unless soft; nothing else changes |
| Scenes.RemoveCell | v3.js:821-843 | the cell's object leaves the scene; its mound leaves too unless soft; nothing else changes |
| Scenes.EvictStrip | v3.js:157-173 | the eviction loop removes exactly the strip's objects and mounds and leaves every other cell as it was |
| Scenes.RenderStrip | v3.js:186-206 | the render loop leaves every strip cell showing exactly its world type, with its mound, and no other cell changes |
| Scenes.RenderRows | v3.js:114-121 | `renderMap` leaves every cell of the view showing exactly its type, with a mound, and no other cell changes |
| Scenes.SlideScene | v3.js:151-207 | after a move's loops, cells leaving the window have left the scene, entering cells show their world type, and every other cell is unchanged |
| Scenes.SlideSceneConsistent | v3.js:151-207 | the incremental update keeps the scene equal to the window's rendering: mounds on the window, objects on exactly its meshed cells |
| Generation.Overlay | v3.js:275-283 | an overlay pass sets exactly the cells whose draw hit to the new type and keeps all others |
| Generation.GenerateFollowsPrecedence | v3.js:269-303 | each cell is water in the lake band when the lake is on, else rock on a rock hit, else tree on a tree hit, else grass or ground by the grass draw; heights follow the shore bands |
| Generation.LakeCarving | v3.js:286-301 | water appears exactly within distance 3 of the row's centre, only when the lake is on; the bed lies at -0.5 and distances 3, 4 and 5 rise to 1, 1.5 and 2 |
| Generation.Generate | v3.js:243-303 | the generated type grid and height field are both `worldSize` by `worldSize`, and every cell holds the type the precedence order picks for it: water in the lake band, else rock, else tree, else grass or ground |
| Generation.ShippedLake | v3.js:34-39 | with the shipped settings the lake is always carved: water exactly within distance 3 of each row's centre, with its bed at -0.5 |
| Generation.AllGrass | v3.js:269-284 | with grass certain, no trees, no rocks and no lake, every cell is grass |
| MapController.New | v3.js:44-67 | a new controller has the initial window and an empty scene |
| MapController.GenerateMap | v3.js:239-324 | the world and height field are the ones `Generate` produces; every cell of the view cut around the window shows its type with a mound, at the view's own indices; the rest of the scene, the sizes, `unit`, the window and the container are unchanged |
| MapController.GenerateMapStartsValid | v3.js:306-322 | on a fresh controller the view is the world's `[0, mapSize)` square, the scene mirrors the window exactly, and every world cell follows the precedence |
| MapController.UpdateMap | v3.js:151-207 | `updateMap` shifts the bounds and centre by the move and changes nothing but the bounds and the scene |
| MapController.UpdateMapRendersWindow | v3.js:151-207 | after a move the scene mirrors the new window exactly |
| MapController.MakeMove | v3.js:123-149 | a move past the world's edge leaves the whole controller unchanged; any other move shifts the window and slides the world container by `-unit` times the move |
| MapController.MakeMoveKeepsValid | v3.js:123-149 | every move keeps the window width, the centre offset, the window inside the world and the scene mirroring it |
| MapController.MoveThenReverse | v3.js:123-207 | an allowed move followed by the reverse move restores the whole controller |
| MapController.StayIsNoOp | v3.js:159-206 | the zero direction changes nothing |
| MapController.DrawObject | v3.js:220-232 | an edit outside the world fails; a failed condition changes nothing; otherwise the cell takes the new type in the world and the scene, and nothing else changes |
| MapController.DrawObjectKeepsValid | v3.js:220-232 | a soft edit of a window cell with no object keeps the scene mirroring the window |
| MapController.DrawTree | v3.js:234-237 | planting succeeds only on ground; it sets the cell to tree in the world and gives it a tree object, keeps the mounds, and leaves every other cell's type and object unchanged |
| MapController.DrawTreeKeepsValid | v3.js:234-237 | planting on any window cell keeps the scene mirroring the window |
| MapController.DrawTreeTwice | v3.js:234-237 | a second planting on the same cell is rejected and changes nothing |
| PlatoScene.Click | v3.js:871-887 | a click turns ground into tree and any other type into ground; the cell has a tree object exactly when it was ground, the cleared cell's object leaves the scene, the mound stays, and every other cell's type and object are unchanged |
| PlatoScene.ClickKeepsValid | v3.js:871-887 | a click on a window cell keeps the scene mirroring the window |
| PlatoScene.ClickTwiceOnGround | v3.js:821-887 | two clicks on a ground cell restore the world and the scene exactly |
| PlatoScene.KeyDirection | v3.js:914-928 | held keys map to a cardinal or zero move: up exactly when an up key is held; down exactly when a down key is held and no up key; left exactly when a left key is held and no up or down key; right exactly when only right keys are held; zero exactly when no movement key is held |
| PlatoScene.KeyDown | v3.js:914-930 | the key is recorded as held, and whatever key it is, the move the held keys select is made: a blocked move changes nothing, any other shifts the window by it and slides the world container against it; for a movement key the controller stays the same exactly when that move is blocked |
| PlatoScene.KeyUp | v3.js:932-935 | the released key is no longer held and every other key keeps its state |
| PlatoScene.PressThenRelease | v3.js:914-935 | pressing a key that was not held and releasing it again leaves the held keys as they were |
| PlatoScene.ClickAfterEvictingMove | v3.js:871-909 | with the pointer pad on a ground cell of the window's trailing column, a move right keeps the invariant and leaves the pad on the same cell, now outside the window; a click there then succeeds and breaks the invariant |
| PlatoScene.PadOnTrailingGroundOccurs | v3.js:871-909 | a valid two-by-two ground world with a one-cell window and the pad on cell `(0, 0)` meets that precondition |
| PlatoScene.ClickVisible | v3.js:871-887 | the intended click edits a window cell exactly as the handler does and ignores a target outside the window |
| PlatoScene.ClickVisibleKeepsValid | v3.js:871-887 | the intended click keeps the controller invariant for every pointer position |
| PlatoScene.Run | v3.js:871-935 | over a series of keydown, keyup and click events a key ends up held only if it was held before or was pressed, and a key released last is not held |
| PlatoScene.RunKeepsValid | v3.js:871-935 | every sequence of key presses, key releases and clicks through the intended click keeps the controller invariant |
| LegacyMapController.New | lib/MapController.js:8-30 | a new controller has the window `[0, mapSize)` on both axes and an empty scene |
| LegacyMapController.RenderCell | lib/MapController.js:32-58 | types 1, 2 and 3 get a scene object of their type, any other type gets none, and the slot is overwritten either way |
| LegacyMapController.RenderMap | lib/MapController.js:60-71 | the view is recorded and every cell of it shows exactly its type; cells outside the view are untouched |
| LegacyMapController.WorldFollowsPrecedence | lib/MapController.js:195-209 | every cell is 2 in the lake band, else 3 under 10 percent, else 1 under 20 percent, else 0, so only 0 to 3 occur |
| LegacyMapController.GenerateWorld | lib/MapController.js:184-190 | the generated world is `worldSize` by `worldSize` |
| LegacyMapController.GenerateMap | lib/MapController.js:180-228 | the world is generated at full size and the view is cut from it around the window centre |
| LegacyMapController.GenerateMapStartsValid | lib/MapController.js:211-227 | on a fresh controller the view is the world's `[0, mapSize)` square and the scene holds exactly its meshed cells |
| LegacyMapController.UpdateMap | lib/MapController.js:102-164 | `updateMap` shifts the bounds and centre by the move and changes nothing but the bounds and the scene |
| LegacyMapController.UpdateMapRendersWindow | lib/MapController.js:102-164 | after a move the scene holds exactly the new window's meshed cells |
| LegacyMapController.MakeMove | lib/MapController.js:73-100 | a move past the world's edge changes nothing; any other move shifts the window, slides the world against the move and the ground with it |
| LegacyMapController.MakeMoveKeepsValid | lib/MapController.js:73-100 | every move keeps the window width, the centre offset, the window inside the world and the scene mirroring it |
| LegacyMapController.MoveThenReverse | lib/MapController.js:73-164 | an allowed move followed by the reverse move restores the whole controller, both containers included |
| LegacyMapController.AddTree | lib/MapController.js:167-178 | placing a loose tree changes neither the world nor the view nor the window nor the scene |

## Findings

| source | as written | input that shows it | evidently intended | confidence | as-written member | corrected member |
|---|---|---|---|---|---|---|
| v3.js:871-887 | the click handler edits the cell under the pointer pad; the pad is a child of the world container (v3.js:1029) and only mouse moves place it (v3.js:909), so a key move (v3.js:144-147) can evict its cell from the window while it stays there | a two-by-two ground world, `mapSize` 1, pad on cell `(0, 0)`; press ArrowRight, then click: a tree is planted on `(0, 0)`, outside the window `[1, 2)`, and when the window returns its render orphans that mesh | a click edits only a cell of the visible window, so the scene keeps mirroring the window | not executed | PlatoScene.ClickAfterEvictingMove | PlatoScene.ClickVisible |

## Left out

- Meshes, materials, shaders, lights and the camera are not modelled, and nor are the mesh factories. A rendered object is only its cell's membership in the scene.
- `removeCell` also deletes each removed mesh's shader entries. That is left out with the rest of the rendering.
- Random and trigonometric inputs are parameters of generation:
  - every `Math.random()` draw;
  - the sine and cosine base heights;
  - the lake centre function `f`. Its rounded-up value is supplied per row.
- LegacyMapController.Percent: `(u * 100).Floor` is computed exactly, while the source multiplies in floating point. For a draw just below a threshold the two can differ by one: for the double just below 0.2 the source gets 20 and the model 19. The model treats draws as exact reals.
- The lake distance is taken as the integer `|j - c|`. For two points on the same row this equals the floating-point Euclidean distance exactly.
- The mouse-move handler is not modelled. It clamps the pointer into the visible window and reads the height field there. The pointer pad it places rides on the world container, so a later key move can leave the pad on a cell outside the window; the click position is therefore an input and may lie anywhere.
- The settings panel, the resize handler, and the wind and time uniforms are left out. They do not touch the window.
- Diagonal moves are excluded by precondition. `updateMap` would evict and render the corner cell twice, and the key handler never issues one.
- The `obj3d`, `gnd3d` and `renderedMap` arrays keep stale references after removal. The model tracks scene membership instead, so it has no stale entries.
- MapController.DrawObject: writing over a cell that still has a live object replaces that object in the model. The source adds the new mesh beside the old one, and without `soft` it also adds a second mound. Only `drawTree` calls `drawObject`, and it writes only over ground. Under the invariant a ground cell has no object, but the click outside the window in "## Findings" can leave an orphaned tree mesh on a cell that is ground again.
- Scenes.RenderCell: the model replaces a live object in the cell's slot. The source overwrites its `obj3d` entry and leaves the old mesh in the scene, where nothing can remove it any more. The render loops reach only cells entering the window, which have no live object under the invariant. A tree planted outside the window (see "## Findings") is overwritten this way when its cell comes back into view, so that orphaned mesh is not modelled.
- MapController.DrawObjectKeepsValid: stated only for a soft edit of a window cell without an object. An edit outside the window puts an object outside it, and an edit over a live object orphans a mesh, as described for `Scenes.RenderCell`.
- MapController.DrawTreeKeepsValid: stated only for a target inside the window. Planting outside the window breaks the invariant, as `PlatoScene.ClickAfterEvictingMove` shows, and the mesh is orphaned once the cell is rendered again.
- PlatoScene.ClickKeepsValid: stated only for a target inside the window. After a key move the handler can receive a target outside it; `PlatoScene.ClickAfterEvictingMove` covers that case, and `PlatoScene.ClickVisibleKeepsValid` holds for every target.
- LegacyMapController.RenderCell: writing over a cell that still has a mesh replaces it in the model, while the source leaves the old mesh in the scene. The render loops only reach cells that are not in the scene yet, so under the invariant this never happens.
- MapController.DrawObject: a position outside the world grid gives `Err(OutsideWorld)`. The source indexes the grid unchecked there.
- PlatoScene.Click: a position outside the world grid gives `Err(OutsideWorld)`. The source indexes the grid unchecked there.
- MapController.MakeMove: requires a generated world. Moving before `generateMap` would read a missing grid in the source.
- LegacyMapController.MakeMove: requires a generated world, for the same reason. Moving before `generateMap` would read the missing `worldMap`.
- MapController.GenerateMap: requires the window to lie inside the world, which on a fresh controller means `mapSize <= worldSize`. Otherwise cutting the view at v3.js:316 reads a missing row and throws.
- LegacyMapController.GenerateMap: requires the window to lie inside the world, which on a fresh controller means `mapSize <= worldSize`. Otherwise cutting the view at lib/MapController.js:221 reads a missing row and throws.
- The initial centre is `floor(mapSize/2)` on both axes, as the constructors compute it.
- `generateMap` cuts the view using `center.x` for rows and `center.y` for columns, and `renderMap` renders it at the view's own indices. Both agree with the window only while the window is at its initial place, which is where both programs call it. The model computes the same thing.
- `addTree` builds a tree mesh at the given position. The model only records that position. The grid cell it computes is never written, as in the source.
