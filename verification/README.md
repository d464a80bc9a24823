# Halftone and dice tile mosaics

A Dafny model of the image filters of a small Streamlit application that
turns a photograph into a mosaic of pre-drawn tiles. Two filters exist,
"Filtro de Semitonos" (halftone dots, tile sets A, B, C) and "Filtro de
Dados" (dice faces, tile sets m, g, c). Both run one renderer,
`aplicar_mosaico`:

1. reduce the image to 8-bit gray;
2. walk block origins (x, y) = (0, 0), (t, 0), (2t, 0), … row by row, t the block size;
3. crop the t × t box at each origin;
4. take the box's mean gray from its 256-bin histogram, Σ i·hist[i] / pixel count;
5. map the mean to a tile index, ⌊(mean / 255)·(n − 1)⌋ (or the same of 255 − mean when
   `invert` is set), clamp it to [0, n − 1] and paste that tile, resized to t × t, at the origin.

Modules, following the program's structure:

- `Outcomes` (outcomes.dfy): the exceptions the code raises, as an `Error` datatype, and `Result`.
- `Grids` (grids.dfy): rasters, the gray sample type, and the crop box with its black overhang.
- `Histograms` (histograms.dfy): the region histogram and the mean-gray computation.
- `Arith` (arith.dfy): division, remainder and floor facts used by the proofs.
- `TileIndexing` (tileindexing.dfy): the gray → tile index formula and its properties.
- `TileSets` (tilesets.dfy): the `HALFTONE_SET` and `DICE_SET` file tables.
- `Mosaic` (mosaic.dfy): block origins, the per-pixel mosaic, and the block walk itself.
- `Filters` (filters.dfy): the two filters and the name dispatch.

The output image is a raster of `Cell`s: `Blank` for the black background
of the new image, `TilePixel(k, dx, dy)` for pixel (dx, dy) of tile k after
resizing. Tile pictures are opaque; which tile covers which pixel, and at
which offset, is what is modelled. The grayscale conversion is a parameter
`luma`, and the float arithmetic of the index formula is replaced by exact
integer floor division, proved equal to the formula read over exact
rationals (`TileIndexMatchesSourceFormula`).

The code's `crop` always yields a full t × t box whose overhang is black,
so the pixel count is always t² and edge blocks come out darker: a block's
gray total is that of its in-image part, spread over t² pixels
(`EdgeBlocksReadDarker`, and the concrete case
`EdgeBlockCountsOverhangAsBlack`). The code raises no errors of its own:
a zero block size fails inside `range`, a negative one leaves the result
black, an empty tile list fails on the first paste, and an image with no
pixels renders to an empty result. These are the cases `Render`
distinguishes.

## Model

| member | source | states |
|---|---|---|
| `Grids.Filled` | semitonos.py:90 | the new result image has the requested width and height and holds the background value at every pixel |
| `Grids.Crop` | semitonos.py:95-96 | the crop box is t × t wherever it lies, including right and bottom edge blocks |
| `Grids.Clip` | semitonos.py:95-96 | the in-image part of the crop box is the box cut down to the image's right and bottom edges, holding the image's own samples |
| `Grids.CropSumIsClipSum` | semitonos.py:96-103 | the padded crop box and its in-image part have the same gray total: the black overhang adds nothing |
| `Grids.SumBounds` | semitonos.py:101-104 | the gray total of k samples lies in [0, 255·k] |
| `Histograms.Histogram` | semitonos.py:99 | the histogram has 256 bins and bin v is the number of samples equal to v |
| `Histograms.HistogramTotals` | semitonos.py:99-103 | the bins add up to the number of samples and Σ i·hist[i] is the sum of the samples |
| `Histograms.MeanGray` | semitonos.py:99-104 | the loop over the histogram yields the sum of the region's samples, the pixel count is width × height, and the mean lies in [0, 255] |
| `TileIndexing.Clamp` | semitonos.py:115 | the clamped index lies in [0, n − 1] and equals its input when that is already in range, 0 below and n − 1 above |
| `TileIndexing.TileIndex` | semitonos.py:108-115 | the chosen index is always a valid position in a non-empty tile list |
| `TileIndexing.RawIndexInRange` | semitonos.py:108-115 | for a mean in [0, 255] the unclamped index is already in [0, n − 1], so the clamp never changes it |
| `TileIndexing.TileIndexBand` | semitonos.py:111-113 | the index k is the one with k·255·count ≤ tone·(n − 1) < (k + 1)·255·count: the mean lies in the k-th of n − 1 equal slices of [0, 255] |
| `TileIndexing.TileIndexEndpoints` | semitonos.py:108-115 | without invert mean 0 picks tile 0 and mean 255 picks tile n − 1; with invert the two swap |
| `TileIndexing.TileIndexInvertSymmetry` | semitonos.py:108-113 | the inverted index of a mean is the plain index of 255 − mean |
| `TileIndexing.TileIndexMonotone` | semitonos.py:108-113 | the index never decreases as the mean grows without invert and never increases with invert |
| `TileIndexing.TileIndexMonotoneInMean` | semitonos.py:104-113 | for blocks of any pixel counts, a lower-or-equal mean never gets a later tile without invert and never an earlier one with invert |
| `TileIndexing.TileIndexDependsOnMeanOnly` | semitonos.py:104-113 | scaling the gray total and the pixel count by one factor leaves the index unchanged |
| `TileIndexing.TileIndexMatchesSourceFormula` | semitonos.py:104-115 | the integer formula equals int((mean / 255)·(n − 1)), with the optional 255 − mean and the clamp, evaluated over exact rationals |
| `TileSets.TileFiles` | semitonos.py:54 | looking a set name up in a table gives its file list exactly when the name is a key, and the KeyError otherwise |
| `TileSets.TileSetSizes` | semitonos.py:12-43 | the sets hold 10, 10, 5, 7, 7 and 5 tiles, every set is non-empty, and every name the sidebars offer is a key |
| `Mosaic.Range` | semitonos.py:93-94 | range(start, stop, t) holds exactly the multiples of t in [start, stop), in steps of t from start |
| `Mosaic.OriginOwnsCoordinate` | semitonos.py:93-95 | along one axis every coordinate lies in the box of exactly one block origin, x − x mod t |
| `Mosaic.PixelWrittenByOnePaste` | semitonos.py:93-95 | every pixel is inside the box of exactly one block, the one at (x − x mod t, y − y mod t), so blocks never overlap |
| `Mosaic.BlockIndex` | semitonos.py:95-115 | the tile chosen for any block is a valid index into the tile list |
| `Mosaic.BlockMeanInRange` | semitonos.py:95-104 | every block, edge blocks included, has t² pixels and a mean in [0, 255], so its index is the unclamped formula's |
| `Mosaic.EdgeBlocksReadDarker` | semitonos.py:95-115 | for every block with an origin in the image, its total is its in-image part's, spread over t² ≥ in-image pixels, so its index is at most (with invert, at least) the one its in-image part's own mean would pick |
| `Mosaic.EdgeBlockCountsOverhangAsBlack` | semitonos.py:95-104 | a lone white pixel under a 2 × 2 box picks tile 2 of 10 instead of tile 9: the overhang counts as black |
| `Mosaic.MosaicOf` | semitonos.py:88-90 | the mosaic has the input's width and height, and every pixel shows a valid tile at an offset inside the block |
| `Mosaic.Render` | semitonos.py:79-121 | the renderer fails exactly for block size 0 and for an empty tile list on a non-empty image; otherwise its result has the input's size |
| `Mosaic.Paste` | semitonos.py:119 | pasting clips to the result, whose size does not change |
| `Mosaic.PaintBand` | semitonos.py:94-119 | the inner walk over the origins of range(0, width, t) in one band of rows finishes every pixel of rows [y, y + t) with its owning block's tile and leaves the rows below untouched |
| `Mosaic.PasteKeepsPainted` | semitonos.py:93-119 | pasting the block at the current origin finishes that block's pixels and changes no other pixel |
| `Mosaic.AdvanceOrigin` | semitonos.py:93-94 | each step of the block walk moves the next element of range(0, stop, t) from the pending part to the visited part, so the walk visits exactly the origins |
| `Mosaic.ApplyMosaic` | semitonos.py:87-121 | the block walk over the origins of range(0, height, t) × range(0, width, t), with its crop, histogram mean, index and paste, produces the pixel-by-pixel mosaic, or the same error |
| `Filters.ToGray` | semitonos.py:87 | the gray image has the input's width and height |
| `Filters.ApplyTileFilter` | semitonos.py:128-154 | a filter loads its set by name, failing for an unknown name, and renders with that set's tile count |
| `Filters.ApplySelected` | semitonos.py:160-165 | an unknown filter name returns the image unchanged; a known filter with a known set returns exactly the renderer's result (the mosaic, or its error), so for a positive block size and a non-empty image the pixel-by-pixel mosaic with that set's tile count; a filtered result keeps the input's size |
| `Filters.SidebarChoicesAlwaysRender` | semitonos.py:128-154 | with any set and block size the sidebars offer, the chosen filter succeeds and every pixel shows an existing tile of that set |

## Left out

- The Streamlit page, sidebar widgets, `main`, the upload and the PNG download (semitonos.py:171-225): presentation, with no logic of the filter. The sidebar values become the `Controls` parameter.
- Loading tile images from disk (semitonos.py:50-73): file I/O. Only the file-name tables are modelled; a missing or unreadable tile file is not.
- `convert("L")`: the luma formula is a library call, modelled as the parameter `luma`.
- The LANCZOS resize of each tile: library resampling on floats. A pixel records which tile and which offset of the resized tile it shows, not its colour.
- TileIndexing.TileIndex: computes with exact rationals, not Python floats. At means where (mean / 255)·(n − 1) is an exact integer, float rounding may land just below it and pick the previous tile; the model does not reproduce that.
- The default arguments `tile_size=20, invert=False` of `aplicar_mosaico`: both callers pass both values, so the model takes them as plain parameters.
- dithering.py: its dispatch is an empty stub that returns the image unchanged, and the rest is page layout.
