/** The scene's input handlers that drive the window: the click handler that
    toggles a cell between ground and tree, and the key handlers that turn
    held keys into one move per key press. */
module PlatoScene {
  import opened Results
  import opened Grids
  import opened Catalogue
  import opened Coordinates
  import opened Window
  import opened Scenes
  import opened MapController

  /** The click handler: ground under the pointer gets a tree (`drawTree`);
      anything else is cleared to ground by a soft `removeCell`, which keeps
      the cell's mound. */
  function Click(c: Controller, pos: Vec3): (r: Result<Controller, EditError>)
    requires Generated(c)
    ensures r.Err? <==> !InGrid(Target(c, pos), c.worldSize)
    ensures r.Ok? ==>
      var p := Target(c, pos);
      && Generated(r.value)
      && r.value == c.(world := r.value.world, scene := r.value.scene)
      && InRange(r.value.world, p)
      && At(r.value.world, p) == (if At(c.world, p) == Ground then Tree else Ground)
      && (forall q :: InGrid(q, c.worldSize) && q != p ==> At(r.value.world, q) == At(c.world, q))
      && (p in r.value.scene.objects <==> At(c.world, p) == Ground)
      && (p in r.value.scene.objects ==> r.value.scene.objects[p] == Tree)
      && (forall q :: q != p ==> (q in r.value.scene.objects <==> q in c.scene.objects))
      && (forall q :: q != p && q in r.value.scene.objects ==> r.value.scene.objects[q] == c.scene.objects[q])
      && r.value.scene.mounds == c.scene.mounds
  {
    var p := Target(c, pos);
    if !InGrid(p, c.worldSize) then Err(OutsideWorld)
    else if At(c.world, p) == Ground then DrawTree(c, pos)
    else Ok(c.(scene := RemoveCell(c.scene, p, true), world := Put(c.world, p, Ground)))
  }

  /** A click on a window cell keeps the controller invariant. */
  lemma ClickKeepsValid(c: Controller, pos: Vec3)
    requires Valid(c) && InWindow(c.data, Target(c, pos))
    ensures Click(c, pos).Ok?
    ensures Valid(Click(c, pos).value)
  {
    var p := Target(c, pos);
    assert InGrid(p, c.worldSize);
    if At(c.world, p) == Ground {
      DrawTreeKeepsValid(c, pos);
    } else {
      var r := Click(c, pos).value;
      forall q | q in r.scene.objects
        ensures InWindow(r.data, q) && r.scene.objects[q] == At(r.world, q) && HasMesh(r.scene.objects[q])
      {
      }
    }
  }

  /** Two clicks on a ground cell plant a tree and clear it again, restoring
      the world and the scene exactly. */
  lemma ClickTwiceOnGround(c: Controller, pos: Vec3)
    requires Valid(c) && InGrid(Target(c, pos), c.worldSize) && At(c.world, Target(c, pos)) == Ground
    ensures Click(c, pos).Ok?
    ensures Click(Click(c, pos).value, pos) == Ok(c)
  {
    var p := Target(c, pos);
    var c1 := Click(c, pos).value;
    var c2 := Click(c1, pos).value;
    assert p !in c.scene.objects;
    assert c2.scene.objects == c.scene.objects;
    assert c2.world[p.row] == c.world[p.row];
    assert c2.world == c.world;
  }

  /** The movement keys the key handler reads. */
  const MoveKeys: set<string> := {"ArrowUp", "KeyW", "ArrowDown", "KeyS", "ArrowLeft", "KeyA", "ArrowRight", "KeyD"}

  /** The pointer pad sits on a ground cell of the window's trailing column,
      and the window can still move right. */
  ghost predicate PadOnTrailingGround(c: Controller, pos: Vec3) {
    && Valid(c) && InWindow(c.data, Target(c, pos)) && Target(c, pos).col == c.data.limNX
    && !Blocked(c.data, Dir(1, 0), c.worldSize) && At(c.world, Target(c, pos)) == Ground
  }

  /** The click handler reads the pointer pad, which rides on the world
      container and is placed only by the mouse-move handler. A key move
      slides the container, so the pad keeps its cell even when the move
      evicts that cell from the window. A click then plants a tree on a cell
      outside the window, and the scene no longer mirrors the window; once
      the cell comes back into view its render overwrites the tree's slot
      and that mesh is orphaned. */
  lemma ClickAfterEvictingMove(c: Controller, pos: Vec3)
    requires PadOnTrailingGround(c, pos)
    ensures var c1 := MakeMove(c, Dir(1, 0));
      && Valid(c1)
      && Target(c1, pos) == Target(c, pos)
      && !InWindow(c1.data, Target(c1, pos))
      && Click(c1, pos).Ok?
      && !Valid(Click(c1, pos).value)
  {
    var c1 := MakeMove(c, Dir(1, 0));
    MakeMoveKeepsValid(c, Dir(1, 0));
    var p := Target(c, pos);
    assert p in Click(c1, pos).value.scene.objects;
  }

  /** That state is reachable from a generated world: two by two cells of
      ground, a window one cell wide at the origin, and the pointer pad on
      cell `(0, 0)`, as the mouse-move handler places it. */
  lemma PadOnTrailingGroundOccurs() returns (c: Controller, pos: Vec3)
    ensures PadOnTrailingGround(c, pos)
  {
    c := Controller(1, 2, 1.0, Bounds(1, 0, 1, 0, 0, 0), [[Ground, Ground], [Ground, Ground]],
                    [[0.0, 0.0], [0.0, 0.0]], Scene(map[], {Pos(0, 0)}), Origin(0.0, 0.0));
    pos := Vec3(0.0, 0.0, 0.0);
    CentreOfFirstCell();
    assert Target(c, pos) == Pos(0, 0);
    assert InWindow(c.data, Pos(0, 0)) && !Blocked(c.data, Dir(1, 0), 2);
    assert At(c.world, Pos(0, 0)) == Ground;
    SmallSceneConsistent();
    assert Valid(c);
    assert PadOnTrailingGround(c, pos);
  }

  /** With one-cell windows, the origin lies in the centre of cell `(0, 0)`. */
  lemma CentreOfFirstCell()
    ensures Pos2World(1, 1.0, Vec3(0.0, 0.0, 0.0)) == Pos(0, 0)
  {
  }

  /** A one-cell window at the origin over ground, with its mound and no
      object, is mirrored exactly. */
  lemma SmallSceneConsistent()
    ensures Consistent(Scene(map[], {Pos(0, 0)}), Bounds(1, 0, 1, 0, 0, 0), [[Ground, Ground], [Ground, Ground]], HasMesh, true)
  {
  }

  /** The click as intended: only a cell of the window is edited, and a
      click whose target has left the window is ignored. */
  function ClickVisible(c: Controller, pos: Vec3): (r: Controller)
    requires Generated(c)
    ensures Generated(r)
    ensures !InWindow(c.data, Target(c, pos)) ==> r == c
    ensures InWindow(c.data, Target(c, pos)) ==> Click(c, pos) == Ok(r)
  {
    if InWindow(c.data, Target(c, pos)) then
      assert InGrid(Target(c, pos), c.worldSize);
      Click(c, pos).value
    else c
  }

  /** The intended click keeps the invariant for every pointer position. */
  lemma ClickVisibleKeepsValid(c: Controller, pos: Vec3)
    requires Valid(c)
    ensures Valid(ClickVisible(c, pos))
  {
    if InWindow(c.data, Target(c, pos)) {
      ClickKeepsValid(c, pos);
    }
  }

  /** Which of the four movement directions has one of its keys held. */
  predicate UpHeld(pressed: set<string>) { "ArrowUp" in pressed || "KeyW" in pressed }
  predicate DownHeld(pressed: set<string>) { "ArrowDown" in pressed || "KeyS" in pressed }
  predicate LeftHeld(pressed: set<string>) { "ArrowLeft" in pressed || "KeyA" in pressed }
  predicate RightHeld(pressed: set<string>) { "ArrowRight" in pressed || "KeyD" in pressed }

  /** The keydown mapping from the held keys to one move: up, then down,
      then left, then right take precedence; with no movement key held the
      move is zero. */
  function KeyDirection(pressed: set<string>): (d: Dir)
    ensures Cardinal(d)
    ensures d == Dir(0, 0) <==> forall k :: k in MoveKeys ==> k !in pressed
    ensures d == Dir(0, -1) <==> UpHeld(pressed)
    ensures d == Dir(0, 1) <==> !UpHeld(pressed) && DownHeld(pressed)
    ensures d == Dir(-1, 0) <==> !UpHeld(pressed) && !DownHeld(pressed) && LeftHeld(pressed)
    ensures d == Dir(1, 0) <==> !UpHeld(pressed) && !DownHeld(pressed) && !LeftHeld(pressed) && RightHeld(pressed)
  {
    if UpHeld(pressed) then Dir(0, -1)
    else if DownHeld(pressed) then Dir(0, 1)
    else if LeftHeld(pressed) then Dir(-1, 0)
    else if RightHeld(pressed) then Dir(1, 0)
    else Dir(0, 0)
  }

  /** The keydown handler: records the key as held and makes the move the
      held keys select, whatever key was pressed. */
  function KeyDown(c: Controller, pressed: set<string>, code: string): (r: (Controller, set<string>))
    requires Generated(c)
    ensures r.1 == pressed + {code}
    ensures Generated(r.0)
    ensures code in MoveKeys ==> (r.0 == c <==> Blocked(c.data, KeyDirection(r.1), c.worldSize))
    ensures Blocked(c.data, KeyDirection(r.1), c.worldSize) ==> r.0 == c
    ensures !Blocked(c.data, KeyDirection(r.1), c.worldSize) ==>
      && r.0.data == Shift(c.data, KeyDirection(r.1))
      && r.0.origin == Slide(c.origin, c.unit, KeyDirection(r.1))
      && r.0 == c.(data := r.0.data, scene := r.0.scene, origin := r.0.origin)
  {
    var held := pressed + {code};
    (MakeMove(c, KeyDirection(held)), held)
  }

  /** The keyup handler: the key is no longer held. */
  function KeyUp(pressed: set<string>, code: string): (r: set<string>)
    ensures code !in r
    ensures forall k :: k != code ==> (k in r <==> k in pressed)
  {
    pressed - {code}
  }

  /** Pressing a key that was not held and releasing it again leaves the
      set of held keys as it was. */
  lemma PressThenRelease(c: Controller, pressed: set<string>, code: string)
    requires Generated(c) && code !in pressed
    ensures KeyUp(KeyDown(c, pressed, code).1, code) == pressed
  {
  }

  /** An input event as the handlers receive it: a key pressed or released,
      or a click at the pointer pad's position. */
  datatype Event = Down(code: string) | Up(code: string) | Tap(pos: Vec3)

  /** The controller and the held keys after a series of events, each
      handled by the keydown or the keyup handler or, for a click, by the
      intended click. A key is held afterwards
      only if it was held before or was pressed during the run, and a key
      released last is not held. */
  function Run(c: Controller, pressed: set<string>, events: seq<Event>): (r: (Controller, set<string>))
    requires Generated(c)
    ensures Generated(r.0)
    ensures forall k :: k in r.1 ==> k in pressed || Down(k) in events
    ensures |events| > 0 && events[|events| - 1].Up? ==> events[|events| - 1].code !in r.1
    decreases |events|
  {
    if events == [] then (c, pressed)
    else
      var rest := events[1..];
      assert events == [events[0]] + rest;
      match events[0]
      case Down(code) =>
        var (c1, held) := KeyDown(c, pressed, code);
        Run(c1, held, rest)
      case Up(code) =>
        Run(c, KeyUp(pressed, code), rest)
      case Tap(pos) =>
        Run(ClickVisible(c, pos), pressed, rest)
  }

  /** Every state the key handlers and the intended click can reach keeps
      the invariant: the window stays `mapSize` wide on both axes, inside
      the world, and mirrored exactly by the scene. */
  lemma {:induction false} RunKeepsValid(c: Controller, pressed: set<string>, events: seq<Event>)
    requires Valid(c)
    ensures Valid(Run(c, pressed, events).0)
    decreases |events|
  {
    if events != [] {
      match events[0]
      case Down(code) =>
        var held := pressed + {code};
        MakeMoveKeepsValid(c, KeyDirection(held));
        RunKeepsValid(MakeMove(c, KeyDirection(held)), held, events[1..]);
      case Up(code) =>
        RunKeepsValid(c, KeyUp(pressed, code), events[1..]);
      case Tap(pos) =>
        ClickVisibleKeepsValid(c, pos);
        RunKeepsValid(ClickVisible(c, pos), pressed, events[1..]);
    }
  }
}
