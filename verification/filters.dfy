/** The filter dispatch (`aplicar_filtro_seleccionado`) and the two filters
    it chooses between, halftone ("Filtro de Semitonos") and dice ("Filtro de
    Dados"). Both load a tile set by name and run the mosaic renderer; the
    sidebar widget values arrive here as a `Controls` value. */
module Filters {
  import opened Outcomes
  import opened Grids
  import opened TileSets
  import opened Mosaic

  const HalftoneFilter: string := "Filtro de Semitonos"
  const DiceFilter: string := "Filtro de Dados"

  /** One RGB pixel of the uploaded image. */
  datatype Rgb = Rgb(red: Gray, green: Gray, blue: Gray)

  /** What the dispatch hands back: the input itself, or a tile mosaic. */
  datatype Picture = Unfiltered(image: Raster<Rgb>) | Filtered(mosaic: Raster<Cell>)

  /** The sidebar's set selection, block-size slider and invert checkbox. */
  datatype Controls = Controls(setName: string, tileSize: int, invert: bool)

  /** The sidebar's slider range for the block size, in pixels. */
  const MinTileSize: int := 5
  const MaxTileSize: int := 50

  /** `convert("L")`, with the luma formula itself left to `luma`. */
  function ToGray(img: Raster<Rgb>, luma: Rgb -> Gray): (g: Raster<Gray>)
    requires img.Valid()
    ensures g.Valid() && g.width == img.width && g.height == img.height
  {
    Raster(img.width, img.height,
           seq(img.height, y requires 0 <= y < img.height =>
             seq<Gray>(img.width, x requires 0 <= x < img.width => luma(img.rows[y][x]))))
  }

  /** Load the named set of `table` and run the renderer with its tiles. */
  function ApplyTileFilter(img: Raster<Rgb>, table: map<string, seq<string>>, c: Controls,
                           luma: Rgb -> Gray): (r: Result<Picture>)
    requires img.Valid()
    ensures c.setName !in table ==> r == Err(UnknownTileSet(c.setName))
    ensures c.setName in table ==>
              r == match Render(ToGray(img, luma), c.tileSize, |table[c.setName]|, c.invert)
                   case Ok(m) => Ok(Filtered(m))
                   case Err(e) => Err(e)
  {
    match TileFiles(table, c.setName)
    case Err(e) => Err(e)
    case Ok(files) =>
      match Render(ToGray(img, luma), c.tileSize, |files|, c.invert)
      case Ok(m) => Ok(Filtered(m))
      case Err(e) => Err(e)
  }

  /** `aplicar_filtro_seleccionado`: the two known filter names run their
      tile filter; any other name returns the image unchanged. A filtered
      result always has the input's width and height. */
  function ApplySelected(img: Raster<Rgb>, filter: string, c: Controls, luma: Rgb -> Gray): (r: Result<Picture>)
    requires img.Valid()
    ensures filter != HalftoneFilter && filter != DiceFilter ==> r == Ok(Unfiltered(img))
    ensures filter == HalftoneFilter && c.setName !in HalftoneSet ==> r == Err(UnknownTileSet(c.setName))
    ensures filter == DiceFilter && c.setName !in DiceSet ==> r == Err(UnknownTileSet(c.setName))
    ensures (filter == HalftoneFilter || filter == DiceFilter) && c.tileSize == 0 ==> r.Err?
    ensures (filter == HalftoneFilter || filter == DiceFilter) && c.setName in TableOf(filter) ==>
              r == match Render(ToGray(img, luma), c.tileSize, |TableOf(filter)[c.setName]|, c.invert)
                   case Ok(m) => Ok(Filtered(m))
                   case Err(e) => Err(e)
    ensures && (filter == HalftoneFilter || filter == DiceFilter)
            && c.setName in TableOf(filter) && c.tileSize >= 1
            && img.width > 0 && img.height > 0
            ==> r == Ok(Filtered(MosaicOf(ToGray(img, luma), c.tileSize, |TableOf(filter)[c.setName]|, c.invert)))
    ensures r.Ok? && r.value.Filtered? ==>
              r.value.mosaic.Valid() && r.value.mosaic.width == img.width && r.value.mosaic.height == img.height
  {
    TileSetSizes();
    if filter == HalftoneFilter then ApplyTileFilter(img, HalftoneSet, c, luma)
    else if filter == DiceFilter then ApplyTileFilter(img, DiceSet, c, luma)
    else Ok(Unfiltered(img))
  }

  /** The table a tile filter name reads its sets from. */
  function TableOf(filter: string): map<string, seq<string>>
  {
    if filter == HalftoneFilter then HalftoneSet else DiceSet
  }

  /** With any set a sidebar offers and any slider position, the chosen
      filter succeeds: every pixel of the result comes from an existing tile
      of the chosen set, at an offset inside the block. */
  lemma SidebarChoicesAlwaysRender(img: Raster<Rgb>, filter: string, c: Controls, luma: Rgb -> Gray)
    requires img.Valid()
    requires || (filter == HalftoneFilter && c.setName in HalftoneChoices)
             || (filter == DiceFilter && c.setName in DiceChoices)
    requires MinTileSize <= c.tileSize <= MaxTileSize
    ensures c.setName in TableOf(filter)
    ensures var r := ApplySelected(img, filter, c, luma);
            && r.Ok? && r.value.Filtered?
            && r.value.mosaic == MosaicOf(ToGray(img, luma), c.tileSize, |TableOf(filter)[c.setName]|, c.invert)
            && forall y, x :: 0 <= y < img.height && 0 <= x < img.width ==>
                 && r.value.mosaic.rows[y][x].TilePixel?
                 && r.value.mosaic.rows[y][x].tile < |TableOf(filter)[c.setName]|
                 && r.value.mosaic.rows[y][x].dx < c.tileSize
                 && r.value.mosaic.rows[y][x].dy < c.tileSize
  {
    TileSetSizes();
    var table := TableOf(filter);
    assert c.setName in table;
    assert |table[c.setName]| >= 1;
  }
}
