/** The closed catalogue of terrain kinds, and the `makeEnum` helper that
    numbers a list of names by position. */
module Catalogue {
  import opened Results

  /** The terrain kinds, in the order the catalogue numbers them. */
  datatype Cell = Ground | Tree | Water | Rock | Grass

  /** The names the catalogue is built from, in order. */
  const Names: seq<string> := ["GROUND", "TREE", "WATER", "ROCK", "GRASS"]

  /** `makeEnum`: every listed name maps to its position in the list; when a
      name is listed twice, the later position wins, as the in-order
      assignment loop overwrites the earlier one. */
  function MakeEnum(names: seq<string>): (en: map<string, nat>)
    ensures forall n :: n in en <==> n in names
    ensures forall n :: n in en ==> en[n] < |names| && names[en[n]] == n
    ensures forall n :: n in en ==> forall i :: en[n] < i < |names| ==> names[i] != n
    decreases |names|
  {
    if names == [] then map[]
    else
      var k := |names| - 1;
      var init := names[..k];
      assert names == init + [names[k]];
      MakeEnum(init)[names[k] := k]
  }

  /** The `CATALOGUE` constant: the numbering of `Names`. */
  function CatalogueMap(): map<string, nat> {
    MakeEnum(Names)
  }

  /** The name a cell kind carries in the catalogue. */
  function Name(c: Cell): string {
    match c
    case Ground => "GROUND"
    case Tree => "TREE"
    case Water => "WATER"
    case Rock => "ROCK"
    case Grass => "GRASS"
  }

  /** The number a cell kind is stored as in the world grid. */
  function Index(c: Cell): nat {
    match c
    case Ground => 0
    case Tree => 1
    case Water => 2
    case Rock => 3
    case Grass => 4
  }

  /** Decodes a stored number back to its cell kind. */
  function FromIndex(i: int): Option<Cell> {
    if i == 0 then Some(Ground)
    else if i == 1 then Some(Tree)
    else if i == 2 then Some(Water)
    else if i == 3 then Some(Rock)
    else if i == 4 then Some(Grass)
    else None
  }

  /** The catalogue names are pairwise different (told apart by length or
      first letter). */
  lemma NamesDistinct()
    ensures forall i, j :: 0 <= i < j < |Names| ==> Names[i] != Names[j]
  {
    assert |Names[0]| == 6 && |Names[1]| == 4 && |Names[2]| == 5 && |Names[3]| == 4 && |Names[4]| == 5;
    assert Names[1][0] == 'T' && Names[3][0] == 'R';
    assert Names[2][0] == 'W' && Names[4][0] == 'G';
  }

  /** The catalogue numbers each kind exactly as `Index` does. */
  lemma CatalogueNumbering(c: Cell)
    ensures Name(c) in CatalogueMap()
    ensures CatalogueMap()[Name(c)] == Index(c)
  {
    var en := MakeEnum(Names);
    assert Names[Index(c)] == Name(c);
    NamesDistinct();
    var k := en[Name(c)];
    assert Names[k] == Name(c);
  }

  /** Numbering a cell kind and decoding the number gives the kind back, and
      every number that decodes is the number of the kind it decodes to. */
  lemma IndexRoundTrip(c: Cell, i: int)
    ensures FromIndex(Index(c)) == Some(c)
    ensures FromIndex(i).Some? <==> 0 <= i < 5
    ensures FromIndex(i).Some? ==> Index(FromIndex(i).value) == i
  {
  }
}
