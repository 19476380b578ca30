# image_convolution kernel preparation and pixel buffers, in Dafny

`convolve.cpp` reads a square filter from a text file and normalises its
gain. It then rotates the filter by 180 degrees, so that a correlation loop
performs a true convolution. On the image side, it unpacks the interleaved
byte vector of a 3- or 4-channel image into a pixel map of RGBA floats. It
also mirrors a pixel map vertically, and its "convolution" step copies an
image into a freshly allocated one. As written, `main` stops after preparing
the kernel: the calls that read the image and open the window are commented
out (convolve.cpp:344-346), so the image operations are reached by no run,
and `flipImageVertical` is called nowhere.

This project models those operations as the program performs them:

- Every 2D buffer is one contiguous block plus a table of row pointers, and
  so is modelled as an `array` block with an `array<nat>` row table.
  Row `i` of the table holds offset `i * stride` (`Layout.RowTable`).
- The program's globals become explicit:
  - `FILTER` and `FILTER_SIZE` become the fields of a `Kernel.Filter` object;
  - `PIXMAP`, `IMAGE_WIDTH` and `IMAGE_HEIGHT` become parameters of the
    `Pixmap` methods.
- Weights and channel values are `real`.
- Each loop nest is a `while` nest whose invariants tie the buffer to a
  specification function:
  - `Normalized` and `Reverse` for the kernel;
  - `MirrorRows` and `Decode` for the pixel map.
- Lemmas about those functions state what the program promises: the
  normalised gain, the flip formulas, round trips and byte coverage.

Files:

- `layout.dfy` (module `Layout`): the row-major cell arithmetic, the row
  table, and the row mirror.
- `kernel.dfy` (module `Kernel`): `readFilter`, `maximum`,
  `normalizeFilter`, `flipFilterXandY`, and the kernel steps of `main`.
- `image.dfy` (module `Pixmap`): the `Image` class, `convertVectorToImage`,
  `flipImageVertical` and `convolveImage`.

The name `convolveImage` suggests a convolution, but the code only copies
every pixel of its argument into a new image. The model follows the
code (`Pixmap.ConvolveImage`). In the same way, `readFilter` does not check
the file it opens or the numbers it scans. The model does not invent a
malformed-file error: it takes the successive values the scan variable
holds, one per cell, and gives each cell after the end of the input the last
value, because a failed scan leaves the variable unchanged.

## Model

| member | source | states |
|---|---|---|
| `Layout.RowTable` | convolve.cpp:51-55 | The row table is freshly allocated with one entry per row, and entry `i` is the offset of cell `(i, 0)`, i.e. `i * stride`. |
| `Layout.MirrorRowsCell` | convolve.cpp:104-106 | In the row-mirrored block, cell `(row, col)` is cell `(rows-1-row, col)` of the original, and both positions lie inside the block. |
| `Layout.MirrorRowsTwice` | convolve.cpp:103-110 | Mirroring the rows twice gives back the original block, so flipping vertically twice restores the image. |
| `Pixmap.Image.constructor` | convolve.cpp:48-56 | A new image has the given width and height, a fresh block of `width * height` pixels, and a row table in which row `i` starts at `i * width`. |
| `Pixmap.Image.Get` | convolve.cpp:81-93 | `pixmap[row][col]`, reached through the row table, is cell `row * width + col` of the pixel block. |
| `Pixmap.Intensity` | convolve.cpp:81-83 | A channel byte divided by 255 lies between 0 and 1. |
| `Pixmap.ByteOffset` | convolve.cpp:77-94 | The bytes of cell `(row, col)` start at `((H-1-row) * W + col) * channels`, and the cell's whole run of bytes lies within the first `W * H * channels` bytes. |
| `Pixmap.ByteOffsetsDisjoint` | convolve.cpp:77-94 | Two different cells read disjoint runs of `channels` bytes. |
| `Pixmap.ByteOffsetsCover` | convolve.cpp:77-94 | Every one of the first `W * H * channels` bytes belongs to the run of some cell, so exactly those bytes are consumed. |
| `Pixmap.ReadChannels` | convolve.cpp:81-93 | One pixel is read from the bytes at `start`: red, green and blue as intensities, then alpha from the next byte when there are 4 channels, or 1 when there are 3. The index then stands `channels` bytes further on. |
| `Pixmap.FillFromBytes` | convolve.cpp:79-94 | The rows are filled from the last one to row 0 while the byte index runs forward. The block ends up as the row mirror of the decoded pixel stream. |
| `Pixmap.ConvertVectorToImage` | convolve.cpp:74-101 | An image is produced exactly when there are 3 or 4 channels; any other count is the conversion error. The produced image has the global size. Its cell `(row, col)` is the pixel read at byte offset `((H-1-row) * W + col) * channels`, and its alpha is 1 when there are 3 channels. |
| `Pixmap.FlipImageVertical` | convolve.cpp:103-110 | Returns the destination it was given. The destination's cell `(row, col)` is the source's cell `(H-1-row, col)`, the destination's block is the row mirror of the source's, and the source is unchanged. |
| `Pixmap.ConvolveImage` | convolve.cpp:172-183 | Returns a separately allocated image of the global size, with every pixel equal to the same pixel of its argument. |
| `Kernel.ScannedCellsPrefix` | convolve.cpp:264-268 | When the scan variable takes at least `size * size` values, the cells receive exactly the first `size * size` of them, in order, and nothing after them is used. |
| `Kernel.ReadFilterLayout` | convolve.cpp:264-268 | With a well-formed file, `FILTER[row][col]` is number `row * size + col` of the numbers after the size. |
| `Kernel.Filter.Read` | convolve.cpp:251-271 | readFilter allocates a `size` x `size` filter with its row table, and fills cell `k` in row-major order with the value the scan variable holds after scan `k` (or the last value, once the input is exhausted). |
| `Kernel.Filter.At` | convolve.cpp:267 | `FILTER[row][col]`, reached through the row table, is cell `row * size + col` of the block. |
| `Kernel.Maximum` | convolve.cpp:273-280 | The result is one of the two arguments and is at least both; on a tie it is the first one. |
| `Kernel.Filter.Sums` | convolve.cpp:285-292 | The first pass returns P, the sum of the strictly positive weights, and N, the sum of the absolute values of the strictly negative weights, both over the whole kernel. |
| `Kernel.ScaleFactor` | convolve.cpp:293-297 | The factor is positive. It is 1 when max(P, N) is 0, and otherwise its product with max(P, N) is 1. |
| `Kernel.Filter.Rescale` | convolve.cpp:299-302 | Every weight is multiplied by the same scalar, and nothing else changes. |
| `Kernel.Filter.Normalize` | convolve.cpp:282-303 | normalizeFilter leaves the weights equal to the normalised kernel: each old weight times the scale factor of the old kernel. |
| `Kernel.GainZeroIff` | convolve.cpp:285-294 | max(P, N) is 0 if and only if every weight is 0. |
| `Kernel.NormalizeZeroKernel` | convolve.cpp:294-302 | An all-zero kernel is scaled by 1 and comes back unchanged. |
| `Kernel.NormalizeKeepsShape` | convolve.cpp:293-302 | Normalising keeps the size, keeps zeros zero, keeps every sign, and keeps the ratio of any two weights. |
| `Kernel.NormalizeBalances` | convolve.cpp:285-302 | When some weight is nonzero, max(P, N) of the normalised kernel is exactly 1. |
| `Kernel.NormalizeIdempotent` | convolve.cpp:282-303 | Normalising an already normalised kernel changes nothing. |
| `Kernel.SumsOfUniformWeights` | convolve.cpp:285-292 | For a kernel whose weights all equal some `c > 0`, P over `n` weights is `n * c` and N is 0. |
| `Kernel.NormalizeBoxBlur` | convolve.cpp:282-303 | A box blur (every weight the same positive number) normalises to weights of 1 / (number of weights). |
| `Kernel.Rotate180Cell` | convolve.cpp:314-317 | After the rotation, cell `(row, col)` holds what cell `(n-1-row, n-1-col)` held. |
| `Kernel.ReverseTwice` | convolve.cpp:305-325 | Rotating the kernel twice gives back the original kernel. |
| `Kernel.RotateKeepsCentre` | convolve.cpp:314-317 | For an odd size, the centre weight is unchanged by the rotation. |
| `Kernel.Filter.RotatedCopy` | convolve.cpp:306-317 | The temporary filter is freshly allocated, block and row table alike; the row table holds offsets `i * size`, and the block is the reversal of the filter's block, i.e. the 180-degree rotation. |
| `Kernel.Filter.FlipXandY` | convolve.cpp:305-325 | flipFilterXandY leaves cell `(row, col)` holding the old cell `(n-1-row, n-1-col)`; as a whole, the block is reversed. |
| `Kernel.PrepareKernel` | convolve.cpp:334-336 | main's kernel steps leave the filter equal to the rotation of the normalised kernel that was read. |
| `Kernel.PreparedKernelCell` | convolve.cpp:334-336 | With a well-formed file, cell `(row, col)` of the prepared kernel is number `(n-1-row) * n + (n-1-col)` of the file times the scale factor. |

## Left out

- Image file input and output (OpenImageIO) are not part of this model. The byte vector they produce is a parameter of `ConvertVectorToImage`.
- Window display, OpenGL drawing, the key handler and the GLUT event loop are not part of this model.
- The error handler prints a message and exits the process. A bad channel count is modelled as the `CouldNotConvert` result instead. The message, the "got here" line and the kernel print in `main` are output only and are left out.
- Opening and scanning the filter file are left out. The filter size and the successive values of the scan variable, one per cell, are parameters, and neither a missing file nor a failed scan is checked, as in the program.
- Kernel.Filter.Read: requires at least one number after the size. With none, the program stores an uninitialised `float`, which has no value to model.
- Kernel.Filter.Read: requires a size of at least 1, and the size is a `nat`. With size 0 the program writes row pointer 0 of its tables out of bounds, and with a negative size the allocation of the row table fails.
- Kernel.Filter.Read: a failed scan in the middle of the file (a lone sign or dot is consumed) can be followed by successful ones. The model does not number the numbers of the file: such a file is described by the per-cell values of the scan variable, in which the failed scan repeats the previous value.
- Pixmap.Image.constructor: requires at least one row. The constructor writes row pointer 0 unconditionally (convolve.cpp:51-52), which is out of bounds when the height is 0.
- Pixmap.ConvertVectorToImage: requires the vector to hold at least `W * H * channels` bytes when the channel count is accepted. With fewer bytes, the program reads past the end of the vector.
- Pixmap.FlipImageVertical: requires the source and destination to be different pixel blocks, and both to have the global size. It does not model the result of flipping a buffer onto itself.
- Pixmap.ConvolveImage: requires its argument to have the global size, as in its one call, in the `'c'` key handler (convolve.cpp:205-212), which `main` never reaches.
- Float arithmetic is modelled as real arithmetic: the division by 255, the sums P and N, the reciprocal `1 / max(P, N)`, and the products. Rounding is not modelled, so `NormalizeBalances` holds exactly here and only approximately in floats.
- Integer widths are unbounded. Sizes and offsets that would overflow `int` in the program are not modelled.
- Freeing memory (`delete` of the pixel map and the temporary filter) is not modelled. Neither is the mismatch between `delete` and `delete[]`.
- Pixmap.FillFromBytes: the two accepted branches of `convertVectorToImage` are one loop nest here, which reads alpha only when there are 4 channels. The branches are otherwise identical.
