/** The tile tables: each set name maps to the ordered list of tile files
    (one file per tone step), for the halftone and the dice filter. Only the
    names are modelled; the images they hold are opaque. */
module TileSets {
  import opened Outcomes

  /** `HALFTONE_SET`, files under the "semitonos" asset directory. */
  const HalftoneSet: map<string, seq<string>> := map[
    "A" := ["a10.jpg", "a9.jpg", "a8.jpg", "a7.jpg", "a6.jpg",
            "a5.jpg", "a4.jpg", "a3.jpg", "a2.jpg", "a1.jpg"],
    "B" := ["b0.jpg", "b1.jpg", "b2.jpg", "b3.jpg", "b4.jpg",
            "b5.jpg", "b6.jpg", "b7.jpg", "b8.jpg", "b9.jpg"],
    "C" := ["c0.jpg", "c1.jpg", "c2.jpg", "c3.jpg", "c4.jpg"]
  ]

  /** `DICE_SET`, files under the "dados" asset directory. */
  const DiceSet: map<string, seq<string>> := map[
    "m" := ["m0d.jpg", "m1d.jpg", "m2d.jpg", "m3d.jpg", "m4d.jpg", "m5d.jpg", "m6d.jpg"],
    "g" := ["g6d.jpg", "g5d.jpg", "g4d.jpg", "g3d.jpg", "g2d.jpg", "g1d.jpg", "g0d.jpg"],
    "c" := ["c0.jpg", "c1.jpg", "c2.jpg", "c3.jpg", "c4.jpg"]
  ]

  /** The set names each filter's sidebar offers. */
  const HalftoneChoices: seq<string> := ["A", "B", "C"]
  const DiceChoices: seq<string> := ["m", "g", "c"]

  /** `table[name]`: the file list, or the KeyError an unknown name raises. */
  function TileFiles(table: map<string, seq<string>>, name: string): (r: Result<seq<string>>)
    ensures r.Ok? <==> name in table
    ensures r.Ok? ==> r.value == table[name]
    ensures r.Err? ==> r.error == UnknownTileSet(name)
  {
    if name in table then Ok(table[name]) else Err(UnknownTileSet(name))
  }

  /** Every set of either table has at least one tile (10, 10, 5, 7, 7, 5),
      so indexing a set with a clamped index never fails, and every name a
      sidebar offers is a key of its table. */
  lemma TileSetSizes()
    ensures |HalftoneSet["A"]| == 10 && |HalftoneSet["B"]| == 10 && |HalftoneSet["C"]| == 5
    ensures |DiceSet["m"]| == 7 && |DiceSet["g"]| == 7 && |DiceSet["c"]| == 5
    ensures forall name :: name in HalftoneSet ==> |HalftoneSet[name]| >= 1
    ensures forall name :: name in DiceSet ==> |DiceSet[name]| >= 1
    ensures forall i :: 0 <= i < |HalftoneChoices| ==> HalftoneChoices[i] in HalftoneSet
    ensures forall i :: 0 <= i < |DiceChoices| ==> DiceChoices[i] in DiceSet
  {
  }
}
