/** World generation (`generateMap`): a row-by-row overlay of biome, tree,
    rock and lake passes, with later passes winning, plus the height field.
    Every `Math.random()` value, the trigonometric base heights and the
    rounded lake centre of each row are supplied by the caller. */
module Generation {
  import opened Grids
  import opened Catalogue

  /** The random inputs of one generation. `grass`, `tree` and `rock` hold
      the draw each pass makes for each cell; `base` the base height of each
      cell; `centre` the rounded-up lake centre column of each row. */
  datatype Draws = Draws(
    grass: seq<seq<real>>,
    tree: seq<seq<real>>,
    rock: seq<seq<real>>,
    base: seq<seq<real>>,
    centre: seq<int>)

  /** The `probability` settings; the lake is carved only when `lake == 1`. */
  datatype Probability = Probability(grass: real, tree: real, rock: real, lake: real)

  /** The settings the program ships with. */
  const Shipped := Probability(0.7, 0.2, 0.1, 1.0)

  /** The generated type grid and height field. */
  datatype Terrain = Terrain(world: seq<seq<Cell>>, height: seq<seq<real>>)

  /** Every input grid covers an `n`-by-`n` world, with a centre per row. */
  predicate Sized(dr: Draws, n: nat) {
    && IsSquare(dr.grass, n) && IsSquare(dr.tree, n) && IsSquare(dr.rock, n)
    && IsSquare(dr.base, n) && |dr.centre| == n
  }

  /** Which draws of a pass hit: `Math.random() < p`. */
  function Hits(us: seq<real>, p: real): (r: seq<bool>)
    ensures |r| == |us|
    ensures forall j :: 0 <= j < |us| ==> (r[j] <==> us[j] < p)
  {
    seq(|us|, j requires 0 <= j < |us| => us[j] < p)
  }

  /** One overlay pass over a row: every cell whose draw hit becomes `v`,
      every other cell keeps its value. */
  function Overlay<T>(row: seq<T>, hits: seq<bool>, v: T): (r: seq<T>)
    requires |hits| == |row|
    ensures |r| == |row|
    ensures forall j :: 0 <= j < |row| ==> r[j] == if hits[j] then v else row[j]
  {
    if row == [] then []
    else [if hits[0] then v else row[0]] + Overlay(row[1..], hits[1..], v)
  }

  /** The distance from the lake centre `(i, c)` to cell `(i, j)` of the same
      row; for whole numbers the Euclidean distance is exact. */
  function Dist(j: int, c: int): nat {
    if j < c then c - j else j - c
  }

  /** The biome pass: each cell is grass when its draw hits, ground otherwise. */
  function GrassRow(us: seq<real>, p: real): (r: seq<Cell>)
    ensures |r| == |us|
    ensures forall j :: 0 <= j < |us| ==> r[j] == if us[j] < p then Grass else Ground
  {
    seq(|us|, j requires 0 <= j < |us| => if us[j] < p then Grass else Ground)
  }

  /** The lake pass over a row's types: cells closer than 3 to the centre
      become `water`. */
  function LakeRow<T>(row: seq<T>, c: int, water: T): (r: seq<T>)
    ensures |r| == |row|
  {
    seq(|row|, j requires 0 <= j < |row| => if Dist(j, c) < 3 then water else row[j])
  }

  /** The lake pass over one cell's height: the lake bed is sunk to -0.5 and
      the three shoreline bands are raised to 1, 1.5 and 2. */
  function ShoreHeight(d: nat, h: real): real {
    if d < 3 then -0.5
    else if d < 4 then 1.0
    else if d < 5 then 1.5
    else if d < 6 then 2.0
    else h
  }

  /** The lake pass over a row's heights. */
  function LakeHeights(hs: seq<real>, c: int): (r: seq<real>)
    ensures |r| == |hs|
  {
    seq(|hs|, j requires 0 <= j < |hs| => ShoreHeight(Dist(j, c), hs[j]))
  }

  /** Row `i` of the world: grass, then tree, then rock, then (when enabled)
      the lake, each pass overwriting the previous one where it hits. */
  function GenerateRow(n: nat, prob: Probability, dr: Draws, i: nat): (r: (seq<Cell>, seq<real>))
    requires Sized(dr, n) && i < n
    ensures |r.0| == n && |r.1| == n
  {
    var g := GrassRow(dr.grass[i], prob.grass);
    var t := Overlay(g, Hits(dr.tree[i], prob.tree), Tree);
    var k := Overlay(t, Hits(dr.rock[i], prob.rock), Rock);
    if prob.lake == 1.0 then (LakeRow(k, dr.centre[i], Water), LakeHeights(dr.base[i], dr.centre[i]))
    else (k, dr.base[i])
  }

  /** The whole world, row by row; every cell's type is the one the
      precedence order picks for it. */
  function Generate(n: nat, prob: Probability, dr: Draws): (t: Terrain)
    requires Sized(dr, n)
    ensures IsSquare(t.world, n) && IsSquare(t.height, n)
    ensures forall i, j :: 0 <= i < n && 0 <= j < n ==> t.world[i][j] == Precedence(prob, dr, n, i, j)
  {
    Terrain(seq(n, i requires 0 <= i < n => GenerateRow(n, prob, dr, i).0),
            seq(n, i requires 0 <= i < n => GenerateRow(n, prob, dr, i).1))
  }

  /** The type of cell `(i, j)` read off by precedence: water when the lake
      is on and the cell is in its band, else rock if that draw hit, else tree
      if that draw hit, else grass or ground by the biome draw. */
  function Precedence(prob: Probability, dr: Draws, n: nat, i: nat, j: nat): Cell
    requires Sized(dr, n) && i < n && j < n
  {
    if prob.lake == 1.0 && Dist(j, dr.centre[i]) < 3 then Water
    else if dr.rock[i][j] < prob.rock then Rock
    else if dr.tree[i][j] < prob.tree then Tree
    else if dr.grass[i][j] < prob.grass then Grass
    else Ground
  }

  /** The overlay passes produce exactly the precedence order, and the height
      field is the base height except on the lake bed and its shore. */
  lemma {:induction false} GenerateFollowsPrecedence(n: nat, prob: Probability, dr: Draws, i: nat, j: nat)
    requires Sized(dr, n) && i < n && j < n
    ensures Generate(n, prob, dr).world[i][j] == Precedence(prob, dr, n, i, j)
    ensures Generate(n, prob, dr).height[i][j]
         == if prob.lake == 1.0 then ShoreHeight(Dist(j, dr.centre[i]), dr.base[i][j]) else dr.base[i][j]
  {
    var row := GenerateRow(n, prob, dr, i);
    assert Generate(n, prob, dr).world[i] == row.0;
    assert Generate(n, prob, dr).height[i] == row.1;
  }

  /** Water appears exactly in the lake band, and only when the lake is on;
      the lake bed lies at -0.5 and the shore bands at distances 3, 4 and 5
      are raised to 1, 1.5 and 2. */
  lemma LakeCarving(n: nat, prob: Probability, dr: Draws, i: nat, j: nat)
    requires Sized(dr, n) && i < n && j < n
    ensures Generate(n, prob, dr).world[i][j] == Water <==> prob.lake == 1.0 && Dist(j, dr.centre[i]) < 3
    ensures prob.lake == 1.0 && Dist(j, dr.centre[i]) < 3 ==> Generate(n, prob, dr).height[i][j] == -0.5
    ensures prob.lake == 1.0 && Dist(j, dr.centre[i]) == 3 ==> Generate(n, prob, dr).height[i][j] == 1.0
    ensures prob.lake == 1.0 && Dist(j, dr.centre[i]) == 4 ==> Generate(n, prob, dr).height[i][j] == 1.5
    ensures prob.lake == 1.0 && Dist(j, dr.centre[i]) == 5 ==> Generate(n, prob, dr).height[i][j] == 2.0
    ensures (prob.lake != 1.0 || Dist(j, dr.centre[i]) >= 6) ==> Generate(n, prob, dr).height[i][j] == dr.base[i][j]
  {
    GenerateFollowsPrecedence(n, prob, dr, i, j);
  }

  /** With the settings the program ships with, the lake is always carved:
      water appears exactly within distance 3 of each row's centre, and the
      bed lies at -0.5. */
  lemma ShippedLake(n: nat, dr: Draws, i: nat, j: nat)
    requires Sized(dr, n) && i < n && j < n
    ensures Generate(n, Shipped, dr).world[i][j] == Water <==> Dist(j, dr.centre[i]) < 3
    ensures Dist(j, dr.centre[i]) < 3 ==> Generate(n, Shipped, dr).height[i][j] == -0.5
  {
    LakeCarving(n, Shipped, dr, i, j);
  }

  /** Every draw is a `Math.random()` value, in `[0, 1)`. */
  ghost predicate UnitDraws(dr: Draws, n: nat)
    requires Sized(dr, n)
  {
    forall i, j :: 0 <= i < n && 0 <= j < n ==>
      && 0.0 <= dr.grass[i][j] < 1.0 && 0.0 <= dr.tree[i][j] < 1.0 && 0.0 <= dr.rock[i][j] < 1.0
  }

  /** With grass certain, trees and rocks impossible and no lake, every cell
      comes out grass. */
  lemma AllGrass(n: nat, prob: Probability, dr: Draws)
    requires Sized(dr, n) && UnitDraws(dr, n)
    requires prob.grass == 1.0 && prob.tree == 0.0 && prob.rock == 0.0 && prob.lake != 1.0
    ensures forall i, j :: 0 <= i < n && 0 <= j < n ==> Generate(n, prob, dr).world[i][j] == Grass
  {
    forall i, j | 0 <= i < n && 0 <= j < n
      ensures Generate(n, prob, dr).world[i][j] == Grass
    {
      GenerateFollowsPrecedence(n, prob, dr, i, j);
    }
  }
}
