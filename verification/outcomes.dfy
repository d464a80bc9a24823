/** The ways the mosaic filter can fail. Each constructor stands for an
    exception the Python code raises; callers receive it instead of an image. */
module Outcomes {

  datatype Error =
    /** `range(0, height, 0)` raises ValueError before any block is visited. */
    | ZeroTileSize
    /** `tile_images[index]` raises IndexError when the tile list is empty. */
    | EmptyTileSet
    /** `HALFTONE_SET[name]` or `DICE_SET[name]` raises KeyError. */
    | UnknownTileSet(name: string)

  /** Either a finished value or the error that stopped the computation. */
  datatype Result<+T> = Ok(value: T) | Err(error: Error)
}
