# Image processor pixel engine, modelled in Dafny

This project models the core of a small Java image processor:

- **The engine** (`ImageProcessingModelImpl`). It is a mutable registry from image names to rectangular `Color[height][width]` grids, with these operations:
  - channel extraction (`rgb`), `value`, `intensity`, `colorTransform` and `brighten`;
  - `flip`, horizontal and vertical;
  - `filter` with its per-pixel `kernelComp`;
  - the plain PPM ("P3", from the Netpbm suite) decoder `loadImage` and the `.ppm` branch of the encoder `saveImage`;
  - the accessors `getHeight`, `getWidth`, `pixelRGB`, `getSize` and `existingID`.
- **The counting part of the histogram panel** (`Histogram`). It fills four rows of 256 bins (red, green, blue, intensity), finds the largest bin, and steps the y-axis ticks.

Modules:

- `Pixels` (pixels.dfy): colours, cells, grids and exceptions.
  - A cell is `Option<Rgb>`; `None` stands for a Java `null` `Color`.
  - A grid is `seq<seq<Cell>>`.
  - It also holds the integer helpers: `(int)` truncation of a double, clamping, 32-bit wrap-around.
- `Transforms` (transforms.dfy): what each transform computes, as a function of the source grid.
- `PlainPpm` (ppm.dfy): the P3 text, the two directions of the codec, and the round trip between them. It covers:
  - how `Scanner.nextLine` splits lines;
  - how `Scanner.next` splits tokens on Java whitespace;
  - how `Scanner.nextInt` parses a token.
- `ImageStore` (store.dfy): the class `Model` with its field `images: map<string, Grid>`, and one method per operation. The methods use the same nested loops as the Java, over `array2` buffers.
  - Each method is proved to leave the store, and return the exception, that a specification function (`Pixelwise`, `Flipped`, `Filtered`, `LoadOutcome`) gives.
  - Each loop is proved to compute the grid a function of module `Transforms` describes.
- `StoreProperties` (store_properties.dfy): properties of the operations stated on those specification functions. They cover:
  - frames;
  - a destination equal to the source;
  - complete sources;
  - flip-back and identity transforms;
  - save-then-load.
- `HistogramView` (histogram.dfy): the class `Histogram`, with its `int[4][256]` bins as an `array2<int>`, and the y-axis tick loop.

How the Java behaves, as modelled:

- **Every transform runs in the same order.**
  1. It evaluates `getHeight(name)` and `getWidth(name)`. A missing name throws a NullPointerException. A grid with no rows throws an ArrayIndexOutOfBoundsException.
  2. It puts a fresh all-null grid under the destination name.
  3. It reads the source by name. When the destination is the source, it therefore reads the fresh null grid.
  4. It fills the destination cell by cell.
- **Null cells stop a transform.** Every transform except `flip` dereferences source cells, and stops with a NullPointerException at the first output pixel whose computation reads a null cell. The destination is then left filled up to that pixel, in row-major order.
  - `rgb`, `value`, `intensity`, `colorTransform` and `brighten` read only the cell at the same place, so they stop at the first null cell.
  - `filter` reads every in-image cell of the kernel's window. It stops at the first pixel whose window holds a null cell, which can come well before the null cell itself: on a 2×2 grid with a null at (1, 1), the 3×3 blur already fails at (0, 0). A kernel with no rows reads no cell and never stops.
- **Null cells have three sources.**
  - `loadImage` registers its grid before it reads any pixel. A value out of range, a token that is no integer or a short body therefore leaves a partly filled grid behind, along with the exception.
  - A transform that stops at a null cell leaves its destination null from that pixel on (`MapGridStopsAtNull`).
  - A transform into its own source reads the fresh all-null grid. `flip` copies it and leaves the image all null without an exception (`FlipInPlace`); the others throw and leave it all null when the image has at least one column and, for `filter`, the kernel has at least one row (`PixelwiseInPlace`, `FilterInPlace`). A per-pixel transform of a zero-width image reads no cell and throws nothing. A `filter` with a kernel of no rows reads no cell either: it throws nothing and turns every cell into black.
- **Exceptions are values.** They are an `Error` datatype, and every operation returns the exception it would throw.

## Model

| member | source | states |
|---|---|---|
| Pixels.NewColor | src/imageprocessing/model/ImageProcessingModelImpl.java:82 | `new Color(r, g, b)` succeeds exactly when all three channels are in 0..255 and then holds them; otherwise IllegalArgumentException |
| Pixels.NullGrid | src/imageprocessing/model/ImageProcessingModelImpl.java:124 | `new Color[h][w]` has h rows of w cells, every cell null |
| Pixels.Clamp | src/imageprocessing/model/ImageProcessingModelImpl.java:161 | `max(min(x, hi), lo)` lies in [lo, hi], is x inside it, lo below it and hi above it |
| Pixels.Trunc | src/imageprocessing/model/ImageProcessingModelImpl.java:158-160 | the `(int)` cast of a double rounds toward zero: floor for x >= 0, ceiling for x < 0 |
| Pixels.ChannelOfReal | src/imageprocessing/model/ImageProcessingModelImpl.java:341 | truncate then clamp gives a channel in 0..255; 255 for sums of 255 or more, 0 for sums below 1 |
| Pixels.Wrap32 | src/imageprocessing/model/ImageProcessingModelImpl.java:199 | Java `int` addition: the result is a 32-bit int congruent to the exact sum modulo 2^32, equal to it when it fits |
| Transforms.ParseChannel | src/imageprocessing/model/ImageProcessingModelImpl.java:89-118 | the switch accepts exactly "red", "green" and "blue", and maps each to its own channel; any other selector is an IllegalArgumentException |
| Transforms.ValuePixel | src/imageprocessing/model/ImageProcessingModelImpl.java:127-131 | the output is gray, at least every channel, and equal to one of them (the maximum) |
| Transforms.IntensityPixel | src/imageprocessing/model/ImageProcessingModelImpl.java:141-145 | the output is gray, in range, and the floor of the channel average |
| Transforms.TransformPixel | src/imageprocessing/model/ImageProcessingModelImpl.java:155-161 | every output channel is in 0..255; a weighted sum of 255 or more gives 255; a sum below 1 gives 0; a sum in [0, 255) gives its floor, so the whole sum is truncated, not each term |
| Transforms.TransformIdentity | src/imageprocessing/model/ImageProcessingModelImpl.java:151-161 | the identity matrix maps every in-range colour to itself |
| Transforms.BrightenChannel | src/imageprocessing/model/ImageProcessingModelImpl.java:198-202 | for an in-range channel the result is `c + inc` clamped to 0..255; at most 255 when inc >= 0, at least 0 when inc < 0 |
| Transforms.BrightenInt32Agrees | src/imageprocessing/model/ImageProcessingModelImpl.java:198-202 | when `c + inc` fits in an int, the 32-bit channel computation equals the clamped one |
| Transforms.BrightenChannelInt32 | src/imageprocessing/model/ImageProcessingModelImpl.java:198-202 | the as-written channel with the 32-bit sum: an int, at most 255 for a non-negative increment and at least 0 for a negative one, but only that one bound |
| Transforms.BrightenInt32Overflows | src/imageprocessing/model/ImageProcessingModelImpl.java:201 | with inc = Integer.MAX_VALUE and c = 1, the sum wraps to Integer.MIN_VALUE and `new Color` throws, where the clamp gives 255 |
| Transforms.BrightenPixel | src/imageprocessing/model/ImageProcessingModelImpl.java:195-202 | each channel of an in-range colour is `c + inc` clamped to 0..255, so the output is in range |
| Transforms.DarkenThenBrighten | src/imageprocessing/model/ImageProcessingModelImpl.java:198-202 | darkening by i and then brightening by i clamps each of the three channels twice, `clamp(clamp(c - i) + i)`; it restores every channel of at least i, and turns every smaller one into i |
| Transforms.ApplyOp | src/imageprocessing/model/ImageProcessingModelImpl.java:94-201 | every per-pixel operation gives a colour in 0..255 |
| Transforms.MapGrid | src/imageprocessing/model/ImageProcessingModelImpl.java:124-133 | the destination has the source's height and row lengths |
| Transforms.MapGridWellFormed | src/imageprocessing/model/ImageProcessingModelImpl.java:124-133 | the destination is rectangular and every non-null cell is in range |
| Transforms.MapGridFilled | src/imageprocessing/model/ImageProcessingModelImpl.java:125-133 | with no null source cell, every destination cell is the operation applied to the source cell at the same place |
| Transforms.MapGridStopsAtNull | src/imageprocessing/model/ImageProcessingModelImpl.java:127 | every destination cell from a null source cell on, in row-major order, stays null; when it is the first null cell, every cell before it holds the transformed colour |
| Transforms.MapGridIdentity | src/imageprocessing/model/ImageProcessingModelImpl.java:152-161 | colorTransform with the identity matrix copies a complete grid |
| Transforms.ComponentGrid | src/imageprocessing/model/ImageProcessingModelImpl.java:90-116 | channel extraction turns every cell into the gray `(c, c, c)` of the chosen channel |
| Transforms.FlipH | src/imageprocessing/model/ImageProcessingModelImpl.java:169-177 | same dimensions; `dest[h][w] == src[h][W-1-w]` |
| Transforms.FlipV | src/imageprocessing/model/ImageProcessingModelImpl.java:179-186 | same dimensions; `dest[h][w] == src[H-1-h][w]` |
| Transforms.FlipHInvolution | src/imageprocessing/model/ImageProcessingModelImpl.java:169-177 | a horizontal flip twice gives the original grid |
| Transforms.FlipVInvolution | src/imageprocessing/model/ImageProcessingModelImpl.java:179-186 | a vertical flip twice gives the original grid |
| Transforms.FlipWellFormed | src/imageprocessing/model/ImageProcessingModelImpl.java:167-188 | flipping a well-formed grid gives a well-formed grid |
| Transforms.Term | src/imageprocessing/model/ImageProcessingModelImpl.java:332-337 | a kernel cell whose source coordinate is outside the image adds 0 (no padding); a non-negative weight adds a non-negative amount |
| Transforms.RowSum | src/imageprocessing/model/ImageProcessingModelImpl.java:330-338 | the sum over one kernel row is non-negative for a kernel without negative weights |
| Transforms.WindowSum | src/imageprocessing/model/ImageProcessingModelImpl.java:329-339 | the sum over the whole window is non-negative for a kernel without negative weights |
| Transforms.ConvPixel | src/imageprocessing/model/ImageProcessingModelImpl.java:325-341 | the filtered colour is in range; each channel is its whole window sum truncated and clamped, the floor of the sum when it lies in [0, 255) |
| Transforms.Convolve | src/imageprocessing/model/ImageProcessingModelImpl.java:209-215 | the filter destination has the source's dimensions |
| Transforms.ConvolveWellFormed | src/imageprocessing/model/ImageProcessingModelImpl.java:209-215 | the filter destination is well formed |
| Transforms.FilledWindows | src/imageprocessing/model/ImageProcessingModelImpl.java:334-337 | in a grid with no null cell, every window reads only non-null cells |
| Transforms.UnitKernelPixel | src/imageprocessing/model/ImageProcessingModelImpl.java:325-341 | the 1x1 kernel `[[1]]` gives back the centre colour |
| Transforms.ConvolveUnit | src/imageprocessing/model/ImageProcessingModelImpl.java:208-216 | filtering a complete grid with `[[1]]` gives the grid back |
| Transforms.BlurCornerOfUniform | src/imageprocessing/model/ImageProcessingModelImpl.java:330-338 | a corner window drops its out-of-bounds weights without renormalising: 9/16 of a uniform level |
| PlainPpm.Lines | src/imageprocessing/model/ImageProcessingModelImpl.java:59-60 | the lines `nextLine` returns contain no line terminator, and an empty text has no line |
| PlainPpm.Uncommented | src/imageprocessing/model/ImageProcessingModelImpl.java:58-64 | the rebuilt text is empty or ends in a line separator |
| PlainPpm.UncommentedOfComments | src/imageprocessing/model/ImageProcessingModelImpl.java:58-64 | a file of comment lines only rebuilds to the empty text |
| PlainPpm.UncommentedAppend | src/imageprocessing/model/ImageProcessingModelImpl.java:58-64 | the rebuilt text of two runs of lines is the rebuilt text of the first followed by that of the second |
| PlainPpm.UncommentedDropsComment | src/imageprocessing/model/ImageProcessingModelImpl.java:58-64 | a comment line anywhere between other lines is dropped and nothing else changes |
| PlainPpm.NumeralsAreNotWhitespace | src/imageprocessing/model/ImageProcessingModelImpl.java:66-68 | the Scanner's delimiter, `IsWhitespace` (Character.isWhitespace), never matches a digit, a sign or `#` |
| PlainPpm.Tokens | src/imageprocessing/model/ImageProcessingModelImpl.java:66-68 | every token is a non-empty run without whitespace; there is no token exactly when the text is all whitespace |
| PlainPpm.NatToString | src/imageprocessing/model/ImageProcessingModelImpl.java:233-240 | `Integer.toString` of a non-negative int, as in `width + " "` and `red + " "`: a non-empty run of digits, without a leading zero, one digit exactly below 10 |
| PlainPpm.LineEnd | src/imageprocessing/model/ImageProcessingModelImpl.java:59-60 | the first line stops at the first line terminator and contains none |
| PlainPpm.LinesOfJoin | src/imageprocessing/model/ImageProcessingModelImpl.java:59-60 | splitting lines that were each followed by "\n" gives them back |
| PlainPpm.UncommentedOfPlain | src/imageprocessing/model/ImageProcessingModelImpl.java:59-64 | when no line starts with '#', the rebuilt text is the lines each followed by a separator |
| PlainPpm.TokenEnd | src/imageprocessing/model/ImageProcessingModelImpl.java:66-68 | a token is a maximal run of non-whitespace characters |
| PlainPpm.TokensOfWord | src/imageprocessing/model/ImageProcessingModelImpl.java:66-68 | a word followed by whitespace or by nothing is the next token |
| PlainPpm.NatToStringValue | src/imageprocessing/model/ImageProcessingModelImpl.java:240 | the decimal text of a channel is a single all-digit token whose value is the channel |
| PlainPpm.NextInt | src/imageprocessing/model/ImageProcessingModelImpl.java:72-74 | `nextInt` yields a 32-bit int; NoSuchElementException exactly past the last token, else InputMismatchException |
| PlainPpm.NextIntOfNat | src/imageprocessing/model/ImageProcessingModelImpl.java:72-74 | `nextInt` reads back the decimal text of any value up to Integer.MAX_VALUE |
| PlainPpm.ReadTriple | src/imageprocessing/model/ImageProcessingModelImpl.java:79-82 | a pixel that is read has its channels in range |
| PlainPpm.ReadCells | src/imageprocessing/model/ImageProcessingModelImpl.java:77-84 | at most n pixels are read, all in range; fewer exactly when an exception stopped the loop |
| PlainPpm.ReadCellsStopped | src/imageprocessing/model/ImageProcessingModelImpl.java:77-84 | once reading has failed, asking for more pixels changes nothing |
| PlainPpm.GridOf | src/imageprocessing/model/ImageProcessingModelImpl.java:75-84 | the loaded grid has `height` rows of `width` cells |
| PlainPpm.GridOfWellFormed | src/imageprocessing/model/ImageProcessingModelImpl.java:75-84 | a grid of pixels that passed the Color check, with nulls after them, is well formed |
| PlainPpm.DecodeHeader | src/imageprocessing/model/ImageProcessingModelImpl.java:68-75 | the warning is printed exactly when the first token is not P3; a grid is registered exactly when width, height and maxval were read as integers and neither dimension is negative, and it then has `height` rows of `width` cells and is well formed; otherwise an exception is reported |
| PlainPpm.DecodeBody | src/imageprocessing/model/ImageProcessingModelImpl.java:75-84 | once the header is read a well-formed grid is always registered, even when the body fails |
| PlainPpm.DecodePlain | src/imageprocessing/model/ImageProcessingModelImpl.java:49-85 | every grid loadImage registers is well formed |
| PlainPpm.PixelLine | src/imageprocessing/model/ImageProcessingModelImpl.java:240 | one pixel's line is one non-empty line and no comment |
| PlainPpm.TokensOfPixelLine | src/imageprocessing/model/ImageProcessingModelImpl.java:240 | one pixel's line, followed by anything, tokenises to its red, green and blue in decimal and then the tokens of what follows |
| PlainPpm.PixelLines | src/imageprocessing/model/ImageProcessingModelImpl.java:235-242 | one text line per pixel |
| PlainPpm.Flatten | src/imageprocessing/model/ImageProcessingModelImpl.java:235-242 | the colours of a well-formed grid in row-major order are all in range |
| PlainPpm.FlattenLength | src/imageprocessing/model/ImageProcessingModelImpl.java:235-236 | a complete grid contributes height times width colours |
| PlainPpm.FlattenAt | src/imageprocessing/model/ImageProcessingModelImpl.java:235-240 | cell (h, w) is colour `h * width + w` of the row-major order |
| PlainPpm.PixelTokensAt | src/imageprocessing/model/ImageProcessingModelImpl.java:240 | pixel k's red, green and blue are tokens 3k, 3k+1 and 3k+2 of the body |
| PlainPpm.TokensOfSpaced | src/imageprocessing/model/ImageProcessingModelImpl.java:66-68 | words each followed by a whitespace character tokenise back to the words |
| PlainPpm.TokensOfPixelLines | src/imageprocessing/model/ImageProcessingModelImpl.java:240 | the pixel lines tokenise to three decimal tokens per pixel |
| PlainPpm.EncodingIsSpaced | src/imageprocessing/model/ImageProcessingModelImpl.java:231-242 | the saved text is the four header words, each followed by its separator, and then the pixel lines |
| PlainPpm.TokensOfEncoding | src/imageprocessing/model/ImageProcessingModelImpl.java:231-242 | the saved text tokenises to `P3`, width, height, `255` and then the pixel tokens |
| PlainPpm.ReadTripleAt | src/imageprocessing/model/ImageProcessingModelImpl.java:79-82 | pixel k of an encoding is read back from its three tokens |
| PlainPpm.ReadCellsOfPixels | src/imageprocessing/model/ImageProcessingModelImpl.java:77-84 | the body of an encoding reads back as its pixels, in order, with no exception |
| PlainPpm.EncodeLines | src/imageprocessing/model/ImageProcessingModelImpl.java:232-242 | saveImage writes 3 header lines and height times width pixel lines; none is empty or a comment, so the decoder keeps them all |
| PlainPpm.EncodePlain | src/imageprocessing/model/ImageProcessingModelImpl.java:231-243 | the saved text splits back into exactly those lines |
| PlainPpm.GridOfFlatten | src/imageprocessing/model/ImageProcessingModelImpl.java:75-84 | regrouping the row-major colours of a complete grid by its width gives the grid back |
| PlainPpm.ReadCellsIgnoresFirst | src/imageprocessing/model/ImageProcessingModelImpl.java:77-84 | the pixels read do not depend on the first token |
| PlainPpm.MagicOnlyWarns | src/imageprocessing/model/ImageProcessingModelImpl.java:68-71 | a first token other than P3 only sets the warning; the registered grid and the exception are those of a P3 header |
| PlainPpm.DecodeHeaderValid | src/imageprocessing/model/ImageProcessingModelImpl.java:68-84 | a P3 header with a non-negative width and height registers the grid of the pixels read, with no warning |
| PlainPpm.DecodeHeaderOfBody | src/imageprocessing/model/ImageProcessingModelImpl.java:68-84 | a header and the tokens of `height * width` pixels decode to those pixels regrouped |
| PlainPpm.DecodeHeaderOfEncoding | src/imageprocessing/model/ImageProcessingModelImpl.java:68-84 | the tokens of a saved grid decode to that grid, with no warning and no error |
| PlainPpm.RoundTrip | src/imageprocessing/model/ImageProcessingModelImpl.java:232-240 | loading the text saveImage writes for a complete grid gives that grid back, with no warning and no error |
| ImageStore.DimsError | src/imageprocessing/model/ImageProcessingModelImpl.java:261-268 | the size check fails exactly for a missing name (NullPointerException) or a grid without rows (ArrayIndexOutOfBoundsException) |
| ImageStore.ReadBack | src/imageprocessing/model/ImageProcessingModelImpl.java:124 | the grid read after the put has the source's dimensions: the source, or the null grid when the destination is the source |
| ImageStore.Pixelwise | src/imageprocessing/model/ImageProcessingModelImpl.java:124-133 | a per-pixel transform keeps every stored grid well formed |
| ImageStore.Flipped | src/imageprocessing/model/ImageProcessingModelImpl.java:167-188 | flip keeps every stored grid well formed |
| ImageStore.Filtered | src/imageprocessing/model/ImageProcessingModelImpl.java:208-216 | filter keeps every stored grid well formed |
| ImageStore.LoadOutcome | src/imageprocessing/model/ImageProcessingModelImpl.java:49-85 | loadImage keeps every stored grid well formed |
| ImageStore.FlipHorizontalLoops | src/imageprocessing/model/ImageProcessingModelImpl.java:170-177 | the pairwise writes of the loops leave exactly the horizontally flipped grid |
| ImageStore.FlipVerticalLoops | src/imageprocessing/model/ImageProcessingModelImpl.java:179-186 | the column-outer pairwise writes leave exactly the vertically flipped grid |
| ImageStore.KernelComp | src/imageprocessing/model/ImageProcessingModelImpl.java:325-342 | the accumulated sums give the filtered colour of the window when it reads no null cell, and a NullPointerException otherwise |
| ImageStore.PixelwiseLoops | src/imageprocessing/model/ImageProcessingModelImpl.java:125-133 | the loops fill exactly the mapped grid, cut off at the first null cell; they complete exactly when the source has no null cell |
| ImageStore.FilterLoops | src/imageprocessing/model/ImageProcessingModelImpl.java:211-215 | the loops fill exactly the convolved grid, cut off at the first window with a null cell; they complete exactly when no window has one |
| ImageStore.SaveLoops | src/imageprocessing/model/ImageProcessingModelImpl.java:235-242 | the loops complete exactly when no cell is null, and then the text is the header followed by one line per pixel in row-major order |
| ImageStore.SaveRow | src/imageprocessing/model/ImageProcessingModelImpl.java:236-241 | one row's lines, completing exactly when the row has no null cell |
| ImageStore.ReadBodyLoops | src/imageprocessing/model/ImageProcessingModelImpl.java:77-84 | the loops read exactly what `ReadCells` describes and leave it in the buffer, row-major, with nulls after it |
| ImageStore.ReadRow | src/imageprocessing/model/ImageProcessingModelImpl.java:78-83 | one row of triples is read into the buffer, or the exception that stops the body |
| ImageStore.Model.constructor | src/imageprocessing/model/ImageProcessingModelImpl.java:29-31 | the registry starts empty |
| ImageStore.Model.GetHeight | src/imageprocessing/model/ImageProcessingModelImpl.java:261-263 | the number of rows of a registered image; NullPointerException for a missing name |
| ImageStore.Model.GetWidth | src/imageprocessing/model/ImageProcessingModelImpl.java:266-268 | the length of row 0; NullPointerException for a missing name, ArrayIndexOutOfBoundsException for a grid without rows |
| ImageStore.Model.PixelRgb | src/imageprocessing/model/ImageProcessingModelImpl.java:271-273 | the cell at (row, col), possibly null; the matching exception for a missing name or an index outside the grid |
| ImageStore.Model.GetSize | src/imageprocessing/model/ImageProcessingModelImpl.java:276-278 | the number of registered names (tied to the transforms by `TransformsRegisterDest` and by the postconditions of `ApplyPixelwise`, `Flip` and `Filter`) |
| ImageStore.Model.ExistingId | src/imageprocessing/model/ImageProcessingModelImpl.java:281-283 | true exactly for a registered name (tied to the transforms as `GetSize` is) |
| ImageStore.PutSize | src/imageprocessing/model/ImageProcessingModelImpl.java:124 | a `put` registers its name, and the count of names grows by one exactly when the name was new |
| ImageStore.Model.ApplyPixelwise | src/imageprocessing/model/ImageProcessingModelImpl.java:124-133 | the store and the exception after a per-pixel transform are those `Pixelwise` gives; once the size checks pass, `existingID(dest)` holds and `getSize` grows by one exactly when `dest` was new |
| ImageStore.Model.Rgb | src/imageprocessing/model/ImageProcessingModelImpl.java:88-120 | an unknown selector throws IllegalArgumentException and changes nothing; otherwise the channel-extraction outcome |
| ImageStore.Model.Value | src/imageprocessing/model/ImageProcessingModelImpl.java:123-134 | the outcome of the value transform |
| ImageStore.Model.Intensity | src/imageprocessing/model/ImageProcessingModelImpl.java:137-148 | the outcome of the intensity transform |
| ImageStore.Model.ColorTransform | src/imageprocessing/model/ImageProcessingModelImpl.java:151-164 | the outcome of the colour-matrix transform |
| ImageStore.Model.Brighten | src/imageprocessing/model/ImageProcessingModelImpl.java:191-205 | the outcome of brighten, with the corrected (non-wrapping) sum |
| ImageStore.Model.Flip | src/imageprocessing/model/ImageProcessingModelImpl.java:167-188 | the store and the exception after flip are those `Flipped` gives; once the size checks pass, `existingID(dest)` holds and `getSize` grows by one exactly when `dest` was new |
| ImageStore.Model.Filter | src/imageprocessing/model/ImageProcessingModelImpl.java:208-216 | the store and the exception after filter are those `Filtered` gives; once the size checks pass, `existingID(dest)` holds and `getSize` grows by one exactly when `dest` was new |
| ImageStore.Model.SavePlain | src/imageprocessing/model/ImageProcessingModelImpl.java:219-244 | the text written is the P3 encoding of the grid, exactly when it has no null cell; otherwise the exception for a missing name, no rows or a null cell |
| ImageStore.Model.ReadLines | src/imageprocessing/model/ImageProcessingModelImpl.java:58-64 | the line loop gives IndexOutOfBounds exactly when a line is empty, and otherwise the text with comment lines dropped and each kept line followed by a separator |
| ImageStore.Model.LoadImage | src/imageprocessing/model/ImageProcessingModelImpl.java:49-85 | the store and the exception after loadImage are those `LoadOutcome` gives, and the warning is printed exactly when the first token is not P3 |
| ImageStore.Model.ReadBody | src/imageprocessing/model/ImageProcessingModelImpl.java:75-84 | the name is bound to the grid of the pixels read, with nulls after them, and the exception that stopped the reading |
| StoreProperties.UnregisteredChangesNothing | src/imageprocessing/model/ImageProcessingModelImpl.java:124 | with a missing or empty source, every transform throws before its put and leaves the store unchanged |
| StoreProperties.PixelwiseFrame | src/imageprocessing/model/ImageProcessingModelImpl.java:124 | a per-pixel transform changes only the destination, which gets the source's dimensions |
| StoreProperties.FilteredFrame | src/imageprocessing/model/ImageProcessingModelImpl.java:209 | filter changes only the destination, which gets the source's dimensions |
| StoreProperties.FlippedFrame | src/imageprocessing/model/ImageProcessingModelImpl.java:168 | flip changes only the destination, which gets the source's dimensions, and never throws once the sizes are read |
| StoreProperties.TransformsRegisterDest | src/imageprocessing/model/ImageProcessingModelImpl.java:124 | after the size checks every transform registers its destination, and `getSize` grows by one exactly when the destination was a new name |
| StoreProperties.PixelwiseInPlace | src/imageprocessing/model/ImageProcessingModelImpl.java:124-127 | transforming an image into itself throws a NullPointerException and leaves it all null |
| StoreProperties.FilterInPlace | src/imageprocessing/model/ImageProcessingModelImpl.java:209-213 | filtering an image into itself with a non-empty kernel throws a NullPointerException and leaves it all null |
| StoreProperties.FlipInPlace | src/imageprocessing/model/ImageProcessingModelImpl.java:168-175 | flipping an image into itself leaves it all null, without an exception |
| StoreProperties.PixelwiseOfComplete | src/imageprocessing/model/ImageProcessingModelImpl.java:125-133 | from a complete source under another name, a per-pixel transform succeeds and every cell is the transformed source colour |
| StoreProperties.FilterOfComplete | src/imageprocessing/model/ImageProcessingModelImpl.java:211-215 | from a complete source under another name, filter succeeds and every cell is the filtered colour |
| StoreProperties.IdentityTransformCopies | src/imageprocessing/model/ImageProcessingModelImpl.java:152-161 | colorTransform with the identity matrix copies a complete image to the destination |
| StoreProperties.UnitFilterCopies | src/imageprocessing/model/ImageProcessingModelImpl.java:208-216 | filter with `[[1]]` copies a complete image to the destination |
| StoreProperties.FlipBack | src/imageprocessing/model/ImageProcessingModelImpl.java:167-188 | flipping under a new name and then flipping that back the same way stores the original grid |
| StoreProperties.SaveThenLoad | src/imageprocessing/model/ImageProcessingModelImpl.java:232-240 | loading the text saved from a complete image, under any name, stores that image, with no warning and no error |
| HistogramView.Unpack | src/imageprocessing/view/Histogram.java:33-38 | `new Color(rgb)` takes bits 16-23, 8-15 and 0-7 of the packed pixel, so each channel is in 0..255 |
| HistogramView.Bin | src/imageprocessing/view/Histogram.java:36-44 | every bin index, including the intensity `(r+g+b)/3`, is in 0..255 |
| HistogramView.BinsTotal | src/imageprocessing/view/Histogram.java:31-45 | summed over its 256 bins, each row counts every pixel exactly once |
| HistogramView.RowTotals | src/imageprocessing/view/Histogram.java:31-45 | each of the four bin rows sums to width times height |
| HistogramView.CountOfMember | src/imageprocessing/view/Histogram.java:41-44 | the bin of any pixel of the image is at least 1 |
| HistogramView.Histogram.constructor | src/imageprocessing/view/Histogram.java:19-23 | the panel stores the image and its histogram |
| HistogramView.Histogram.ComputeHistogram | src/imageprocessing/view/Histogram.java:28-47 | a fresh 4 by 256 array in which each bin holds the number of pixels whose channel (or intensity) is that value |
| HistogramView.CountRow | src/imageprocessing/view/Histogram.java:32-45 | after one row, each bin has gained the number of that row's pixels that fall into it |
| HistogramView.Histogram.GetMaxHistogramValue | src/imageprocessing/view/Histogram.java:140-150 | the result is at least every bin and equal to one of them; it is 0 exactly for an image without pixels |
| HistogramView.YAxisTicks | src/imageprocessing/view/Histogram.java:80 | the labels are 0, step, 2 step, ... with step `max / 10`, all ints no larger than max; the next multiple exceeds max; there are 11 to 20 of them |
| HistogramView.TickStepStalls | src/imageprocessing/view/Histogram.java:80 | as written, for max of 1 to 9 the step `max / 10` is 0, so `i` stays 0 after any number of passes and `i <= max` never fails |
| HistogramView.CountAtMost | src/imageprocessing/view/Histogram.java:31-45 | a bin never holds more than the image has pixels |
| HistogramView.SmallImageStalls | src/imageprocessing/view/Histogram.java:19-23 | for an image of fewer than 10 pixels every bin, and so the maximum the constructor's tick loop steps by a tenth of, is below 10: the step is 0 |
| HistogramView.TickStep | src/imageprocessing/view/Histogram.java:80 | the corrected step: at least 1, and `max / 10` whenever max is at least 10 |
| HistogramView.CorrectedYAxisTicks | src/imageprocessing/view/Histogram.java:80 | with the corrected step the loop ends for every max >= 0: the labels are the multiples of the step up to max, 11 to 20 of them (the source's labels) when max >= 10 and 0..max when max < 10 |
| HistogramView.TickCount | src/imageprocessing/view/Histogram.java:80 | stopping at the first multiple of `max / 10` above max takes 11 to 20 labels |

## Left out

- File and stream access. `FileInputStream`, `FileWriter` and their exception wrapping are not modelled. The decoder takes the file's text, and `SavePlain` returns the text it would write.
- Format dispatch by file extension is not modelled. `saveImage` is modelled only for a `.ppm` file name, which is why `SavePlain` takes no file name. The two-argument constructor is not modelled either.
- The non-PPM codec is not modelled: `imageToArray`, the `ImageIO` branch of `saveImage`, and `getImage`. They are calls into `ImageIO` and `BufferedImage`. `getImage`'s loops also stop one row and one column short.
- `System.lineSeparator()`, which `loadImage` appends after each kept line, is modelled as "\n". The decoder only splits the rebuilt text into tokens, so any separator gives the same tokens.
- `Scanner.nextInt` is modelled for ASCII digits with an optional sign. Locale grouping separators and non-ASCII digits are not modelled.
- `double` arithmetic is modelled with exact `real`s. Rounding of the matrix and kernel sums is not captured. The blur and sharpen weights are dyadic, so `real` is exact for them.
- ImageStore.Model.ColorTransform: requires a matrix of at least 3 rows of 3. With a smaller matrix the Java, after the put, throws at the first pixel it computes: ArrayIndexOutOfBoundsException when the weights are read, or NullPointerException first if that cell is null (line 155 reads the colour before any weight). A grid of zero width computes no pixel and throws nothing. None of these outcomes is modelled.
- ImageStore.Model.Filter: requires every kernel row to be at least `matrix.length` long. With a shorter row the Java throws ArrayIndexOutOfBoundsException only if some window cell inside the image reaches a missing weight, because the bounds test at line 334 comes first; on a one-row image, for example, rows 0 and 2 of a 3×3 kernel are never read. None of these outcomes is modelled.
- ImageStore.Model.Brighten: takes `c + increment` in unbounded integers, which is the corrected behaviour listed under Findings. The 32-bit wrap-around the Java performs is modelled separately, by `BrightenChannelInt32`.
- HistogramView.YAxisTicks: requires `max >= 10` and `max + max / 10 <= Integer.MAX_VALUE`. For `max` of 1 to 9 the step is 0 and the Java loop never ends (see Findings). For `max == 0` the loop body divides by zero. Past the bound, `i += max / 10` wraps around. `CorrectedYAxisTicks` covers every `max >= 0`, with the corrected step.
- HistogramView.YAxisTicks: computes the tick values only. The label's y position, `height - 60 - i * (height - 130) / max`, is drawing and is not modelled, and neither is its overflow for `i` above about 5.8 million.
- Histogram drawing (`createHistogramImage`, apart from the tick loop) and the Swing panel are not modelled.
- The histogram's image is modelled as the packed ints `BufferedImage.getRGB` returns, given as rows. `BufferedImage` itself is not modelled.
- The controllers, the GUI view, the driver, and the interfaces without logic are not modelled.
- The inner loops of `loadImage`'s body, of `saveImage` and of `computeHistogram` are written as separate methods: `ReadRow`, `SaveRow` and `CountRow`. Each is called once per row from the outer loop, so the loop structure is the Java's. Likewise `loadImage`'s line loop is the method `ReadLines`, called once before the tokens are read.
- The `put` of a fresh grid followed by writes into that array is modelled as in three steps:
  1. put the all-null grid;
  2. fill a local `array2` that nothing else can see;
  3. store its contents once the loops end or throw.

  What any later operation can observe is the same, including when the destination is the source.

## Findings

| source | as written | input that shows it | evidently intended | confidence | as-written member | corrected member |
|---|---|---|---|---|---|---|
| src/imageprocessing/model/ImageProcessingModelImpl.java:201 | `Math.min(red + increment, 255)` adds two Java `int`s, which wraps around | increment = 2147483647 and a channel of 1. The sum wraps to -2147483648, `Math.min` keeps it, and `new Color` throws IllegalArgumentException | the channel saturates at 255 | not executed | Transforms.BrightenInt32Overflows | Transforms.BrightenChannel |
| src/imageprocessing/view/Histogram.java:80 | the y-axis tick loop `for (i = 0; i <= max; i += max / 10)` steps by `max / 10` | any image whose fullest bin holds 1 to 9 pixels, e.g. any image of fewer than 10 pixels: the step is 0 and the loop, which the constructor runs, never ends (for an empty image, max 0, line 81 divides by zero) | a step of at least 1, so that the loop labels the axis and ends | not executed | HistogramView.TickStepStalls | HistogramView.CorrectedYAxisTicks |
