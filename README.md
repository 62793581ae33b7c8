# A verified model of a CAPTCHA digit recogniser

This project models the CAPTCHA digit recogniser of a small attendance
client, together with two JSON string helpers of the same client. The
recogniser is a cut-down copy of AForge.NET. An image goes through these
stages:

1. `PreProcess` (`AforgeNumVerify/Main.cs`) converts the image to BT709
   grey, thresholds it at 50 and runs `BlobsFiltering` over it.
2. `Crop_Y` cuts the image into vertical strips along runs of columns that
   hold black pixels, using a one-line lookahead.
3. `Crop_X` trims every strip to its runs of rows.
4. `ToResizeAndCenterIt` inverts each glyph, crops or pads it to 20 x 20,
   inverts it back and centres it on a white canvas with `CanvasMove`.
5. `KQSer` matches every glyph against ten digit templates with
   `ExhaustiveTemplateMatching`. For each glyph it appends the index of the
   template with the highest best similarity, the lowest index among ties,
   or 0 when no template scored above 0.

`Recognition.Recognise` composes these stages as `pregetverifycode` does,
from the downloaded image to the digit string.

The AForge part is modelled on its real data, the pixel buffer
`UnmanagedImage`: a byte array with width, height, stride and pixel format.
The model covers:

- buffer creation, copying and pixel access;
- the filters `Grayscale`, `Threshold`, `Invert`, `Crop`, `CanvasMove` and
  `BlobsFiltering`, with their format tables and the checks of the base
  classes' `Apply` paths;
- the blob counter: a one-pass 8-connected labelling with a union-find map,
  dense renumbering, bounding boxes and areas, size filtering, sorting,
  blob image extraction and edge queries;
- exhaustive template matching: a sum of absolute differences per
  placement, a threshold, local-maximum suppression and a sort by score.

The state the source changes in place is modelled the same way. Buffers are
`array<byte>`, the blob counter is a class, and the loops are methods. Each
method is proved against a specification function, and the lemmas state
what those functions mean. Examples:

- the object map's ids are exactly the 8-connected components of the
  foreground;
- a placement scores maxDiff exactly when the region equals the template;
- the digit picked is the unique argmax, with ties going to the lowest
  index.

The quirks of the source are kept as the source has them, and proved as
such:

- the first pixel of an RGB image is compared with `!= 0` instead of the background threshold;
- the 16-bit grey fill of `CanvasMove` is not shifted;
- the matcher's constructor does not clamp its threshold, but the setter
  does;
- C#'s `/` truncates toward zero;
- in `Crop_Y` and `Crop_X`, 0 doubles as "no run open". A run over
  columns 0 and 1 that closes at column 2 therefore makes `Crop_Y` throw.
- `JsonForamtor.Format` can take back characters that are not indentation.

Source cells below are paths of the original repository.

## Model

| member | source | states |
|---|---|---|
| Imaging.CreateBytesPerPixel | AforgeNumVerify/AForge.Core/AForgeCore.cs:157-182 | the switch yields a size exactly for the nine creatable formats, and that size is the format's bytes per pixel |
| Imaging.CreateStride | AforgeNumVerify/AForge.Core/AForgeCore.cs:156-189 | an unsupported format fails with UnsupportedImageFormat before the size is looked at; a non-positive width or height then fails with InvalidImageProperties; otherwise the stride is a multiple of 4 and the smallest one that holds a row |
| Imaging.UnmanagedImage.Create | AforgeNumVerify/AForge.Core/AForgeCore.cs:156-196 | fails exactly as CreateStride does; on success a fresh, zero-filled image of the requested size and format with that stride |
| Imaging.UnmanagedImage.constructor | AforgeNumVerify/AForge.Core/AForgeCore.cs:96-102 | wraps the given buffer and keeps width, height, stride and format as given |
| Imaging.Intersect | AforgeNumVerify/AForge.Core/AForgeCore.cs:305 | Rectangle.Intersect: a point is in the result exactly when it is in both rectangles; the result is the empty rectangle or lies within both |
| Imaging.OffsetsDisjoint | AforgeNumVerify/AForge.Core/AForgeCore.cs:452 | the pointer `y * stride + x * pixelSize` of two different pixels never reaches a shared byte |
| Imaging.GetPixel | AforgeNumVerify/AForge.Core/AForgeCore.cs:493-520 | coordinates outside the image fail with ArgumentOutOfRange before the format is checked; other formats than 8bpp indexed and 24/32bpp RGB fail with UnsupportedImageFormat; grey pixels read with three equal channels; only 32bpp ARGB reports a stored alpha, the rest read opaque |
| Imaging.UnmanagedImage.GetPixelAt | AforgeNumVerify/AForge.Core/AForgeCore.cs:493-520 | the image's own GetPixel: a colour exactly for in-bounds points of a readable format |
| Imaging.UnmanagedImage.SetPixel | AforgeNumVerify/AForge.Core/AForgeCore.cs:448-489 | out-of-bounds points change nothing and throw nothing; in bounds an unwritable format throws UnsupportedImageFormat and changes nothing; otherwise the buffer is the old one with the format's byte pattern written over that one pixel |
| Imaging.PaintLeavesOthers | AforgeNumVerify/AForge.Core/AForgeCore.cs:448-489 | writing one pixel changes no byte of any other pixel |
| Imaging.PaintedPixelBytes | AforgeNumVerify/AForge.Core/AForgeCore.cs:448-489 | after the write the pixel holds the pattern laid over its old bytes (bytes the format does not write keep their value) and every other pixel keeps its bytes |
| Imaging.PaintKeepsPadding | AforgeNumVerify/AForge.Core/AForgeCore.cs:448-489 | writing a pixel leaves the row padding alone |
| Imaging.GetAfterSet | AforgeNumVerify/AForge.Core/AForgeCore.cs:448-520 | round trip: a pixel SetPixel wrote reads back with GetPixel as the colour (the luma on grey images, opaque on 24/32bpp RGB) |
| Imaging.UnmanagedImage.SetPixels | AforgeNumVerify/AForge.Core/AForgeCore.cs:351-438 | an unwritable format throws UnsupportedImageFormat before any point is looked at and nothing changes; otherwise every in-bounds point of the list is painted in list order and the others are skipped |
| Imaging.SetPixelsReadBack | AforgeNumVerify/AForge.Core/AForgeCore.cs:351-438 | after SetPixels every listed in-bounds point reads back as the colour |
| Imaging.SetPixelsLeavesUnlisted | AforgeNumVerify/AForge.Core/AForgeCore.cs:351-438 | after SetPixels every byte of an unlisted pixel is unchanged |
| Imaging.UnmanagedImage.CollectActivePixels | AforgeNumVerify/AForge.Core/AForgeCore.cs:302-350 | a point is listed exactly when it lies in the rectangle clipped to the image and is active (non-zero sample; for RGB any of red, green or blue non-zero; 16-bit samples read as words), and the list is in row-major order |
| Imaging.CopyMemory | AforgeNumVerify/AForge.Core/AForgeCore.cs:2018-2038 | the destination is the old one with `count` bytes of the source spliced in at the offset, and nothing else changes |
| Imaging.CopyBlock | AforgeNumVerify/AForge.Core/AForgeCore.cs:143-153 | the row loop of one CopyUnmanagedMemory per row with both pointers advancing by their own stride leaves the destination equal to BlockCopied: the block copied, every other byte as before |
| Imaging.BlockCopiedAt | AforgeNumVerify/AForge.Core/AForgeCore.cs:143-153 | a destination byte inside the block holds the matching source byte, any other keeps its old value |
| Imaging.CopyRows | AforgeNumVerify/AForge.Core/AForgeCore.cs:140-154 | Copy's two paths (one block when the strides agree, else min(stride, destStride) bytes per row) give RowsCopied |
| Imaging.UnmanagedImage.Copy | AforgeNumVerify/AForge.Core/AForgeCore.cs:134-155 | a destination of another width, height or format throws InvalidImageProperties and is left as it was; otherwise its buffer becomes RowsCopied of the source |
| Imaging.CopyKeepsPixels | AforgeNumVerify/AForge.Core/AForgeCore.cs:134-155 | whatever the two strides, every byte of every pixel reaches the destination |
| Imaging.CopyKeepsPixelBytes | AforgeNumVerify/AForge.Core/AForgeCore.cs:134-155 | every pixel of the copy holds the source pixel's bytes |
| Imaging.CopyEqualStrides | AforgeNumVerify/AForge.Core/AForgeCore.cs:140-141 | with equal strides the copy reproduces the source buffer exactly |
| Spans.MapBytes | AforgeNumVerify/AForge.Core/AForgeCore.cs:1589-1597 | the 8-bit pointer loop (`*ptr = f(*ptr)`, `ptr += offset` at each row end) leaves the buffer equal to BytesMapped: every byte of the span mapped, every other byte unchanged |
| Spans.MapWords | AforgeNumVerify/AForge.Core/AForgeCore.cs:1599-1606 | the 16-bit loop (row pointer recomputed from the stride, `*ptr = (ushort)g(*ptr)`) leaves the buffer equal to WordsMapped |
| Spans.MappedWord | AforgeNumVerify/AForge.Core/AForgeCore.cs:1604 | a word of the span reads back, after the loop, as the (ushort) cast of g of the word it held |
| Spans.WordByteJoin | AforgeNumVerify/AForge.Core/AForgeCore.cs:1604 | the two bytes a (ushort) store writes, low byte first, read back as the value modulo 65536 |
| Spans.BytesMappedPixel | AforgeNumVerify/AForge.Core/AForgeCore.cs:2136-2146 | mapping the byte columns of a rectangle's pixels maps every byte of each pixel inside it and leaves every other pixel alone |
| Spans.BytesMappedPadding | AforgeNumVerify/AForge.Core/AForgeCore.cs:1589-1597 | bytes that belong to no pixel (row padding) are never mapped |
| Spans.WordsMappedPixel | AforgeNumVerify/AForge.Core/AForgeCore.cs:1599-1606 | on a 16-bit grey image each pixel inside the rectangle holds the two bytes of g(sample), every other pixel keeps its bytes |
| Spans.WordsMappedPadding | AforgeNumVerify/AForge.Core/AForgeCore.cs:1599-1606 | the word loop never touches row padding |
| Spans.WordsMappedTwice | AforgeNumVerify/AForge.Core/AForgeCore.cs:1599-1606 | when the (ushort) cast of g is idempotent on samples, running the word loop twice is running it once |
| Spans.InvertWordBytes | AforgeNumVerify/AForge.Core/AForgeCore.cs:2153 | storing 65535 - w complements both bytes of the word |
| Spans.WordsComplementBytes | AforgeNumVerify/AForge.Core/AForgeCore.cs:2136-2156 | Invert's 16-bit word loop and its byte loop over the same bytes produce the same buffer |
| Filters.CheckSourceFormat | AforgeNumVerify/AForge.Core/AForgeCore.cs:1705-1708 | passes exactly when the format is a key of the filter's translation table, and otherwise fails with UnsupportedImageFormat |
| Filters.Translations | AforgeNumVerify/AForge.Core/AForgeCore.cs:1575-1578 | Threshold accepts 8bpp indexed and 16bpp grey, Invert (2122-2127) 8bpp, 24bpp, 16bpp grey and 48bpp; every format maps to itself and can be created |
| Filters.ProcessFilter | AforgeNumVerify/AForge.Core/AForgeCore.cs:1583-1608 | Threshold.ProcessFilter and Invert.ProcessFilter (2128-2158) leave the buffer equal to Processed of the old one, by way of the byte or the word loop the format selects |
| Filters.ProcessedPixel | AforgeNumVerify/AForge.Core/AForgeCore.cs:1594 | each pixel inside the rectangle becomes PixelMap of itself (Threshold: 255 or 65535 at or above the threshold, 0 below; Invert: every byte complemented) and every other pixel keeps its bytes |
| Filters.InvertAsBytes | AforgeNumVerify/AForge.Core/AForgeCore.cs:2128-2158 | in all four formats Invert complements exactly the bytes of the rectangle's pixels |
| Filters.ProcessedKeepsPadding | AforgeNumVerify/AForge.Core/AForgeCore.cs:1583-1608 | the filters never touch the padding at the end of a row |
| Filters.ThresholdIdempotent | AforgeNumVerify/AForge.Core/AForgeCore.cs:1594 | thresholding a thresholded rectangle again with the same threshold changes nothing |
| Filters.InvertInvolution | AforgeNumVerify/AForge.Core/AForgeCore.cs:2143 | inverting a rectangle twice restores the buffer |
| Filters.ClipFits | AforgeNumVerify/AForge.Core/AForgeCore.cs:1700 | a rectangle clipped to the image always fits in it |
| Filters.ApplyInPlace | AforgeNumVerify/AForge.Core/AForgeCore.cs:1681-1684 | fails with UnsupportedImageFormat, changing nothing, when CheckSourceFormat fails; otherwise the whole image is processed |
| Filters.ApplyInPlaceRect | AforgeNumVerify/AForge.Core/AForgeCore.cs:1698-1703 | the format is checked first; the rectangle is clipped to the image and nothing changes when the clip has neither width nor height; otherwise the clip is processed |
| Filters.ApplyTo | AforgeNumVerify/AForge.Core/AForgeCore.cs:1652-1673 | the three checks in source order (format, then destination format, then size), each failing with nothing changed; on success the destination is the filter applied to the rows copied min(srcStride, dstStride) bytes at a time |
| Filters.Apply | AforgeNumVerify/AForge.Core/AForgeCore.cs:1646-1651 | fails exactly for an unsupported format; otherwise a fresh image of the same size and format whose every pixel is PixelMap of the source pixel |
| Filters.ApplyAgreesWithInPlace | AforgeNumVerify/AForge.Core/AForgeCore.cs:1652-1673 | filtering a copy is filtering the original: whatever the two strides, each destination pixel is PixelMap of the same source pixel |
| GrayscaleFilter.ProcessFilter | AforgeNumVerify/AForge.Core/AForgeCore.cs:1530-1548 | the 8-bit path (24/32bpp sources) leaves the destination equal to Grayed over all rows: one grey byte per source pixel, both pointers moving to the next row at its end |
| GrayscaleFilter.GrayedPixel | AforgeNumVerify/AForge.Core/AForgeCore.cs:1544 | every destination pixel holds `(byte)((rc*R + gc*G + bc*B) >> 16)` of the source pixel at the same place |
| GrayscaleFilter.GrayedKeepsPadding | AforgeNumVerify/AForge.Core/AForgeCore.cs:1536-1547 | the destination's row padding keeps its bytes |
| GrayscaleFilter.LumaNoWrap | AforgeNumVerify/AForge.Core/AForgeCore.cs:1544 | with non-negative coefficients summing to at most 65536 the byte cast never wraps: the value is the truncated weighted sum |
| GrayscaleFilter.BT709Sum | AforgeNumVerify/AForge.Core/AForgeCore.cs:1505 | the BT709 coefficients, scaled by 0x10000 and truncated (1537-1539), sum to 65535, one short of 1.0 |
| GrayscaleFilter.BT709GreyLevel | AforgeNumVerify/AForge.Core/AForgeCore.cs:1505 | so BT709 maps a grey pixel of level v to v - 1, black staying 0: white becomes 254 |
| GrayscaleFilter.BT709Monotone | AforgeNumVerify/AForge.Core/AForgeCore.cs:1505 | BT709 grey values are monotone in each channel |
| GrayscaleFilter.ApplyTo | AforgeNumVerify/AForge.Core/AForgeCore.cs:1751-1760 | fails with UnsupportedImageFormat for a format outside the table (1520-1524), then with InvalidImageProperties for a wrong destination format or size, changing nothing; otherwise the 8-bit path converts every pixel |
| GrayscaleFilter.Apply | AforgeNumVerify/AForge.Core/AForgeCore.cs:1745-1750 | fails exactly for a format outside the table; otherwise a fresh image of the same size in the translated format, each pixel the grey value of the source pixel (8-bit path) |
| CropFilter.CropFormatsKept | AforgeNumVerify/AForge.Core/AForgeCore.cs:2080-2086 | Crop accepts seven formats and keeps each as it is |
| CropFilter.ClipPlacement | AforgeNumVerify/AForge.Core/AForgeCore.cs:2092-2109 | a non-empty overlap starts where the destination pointer is moved to (minus rect.Top rows, minus rect.Left pixels when negative), and the shifted copy fits the destination |
| CropFilter.ProcessFilter | AforgeNumVerify/AForge.Core/AForgeCore.cs:2091-2115 | one copy of copyWidth * pixelSize bytes per row of the overlap leaves the destination equal to Cropped |
| CropFilter.CroppedPixel | AforgeNumVerify/AForge.Core/AForgeCore.cs:2091-2115 | destination pixel (u, v) shows source pixel (u + rect.x, v + rect.y) when that pixel exists and keeps its old bytes otherwise |
| CropFilter.CroppedInside | AforgeNumVerify/AForge.Core/AForgeCore.cs:2102-2114 | byte by byte: a destination byte over the source holds the matching source byte |
| CropFilter.CroppedOutside | AforgeNumVerify/AForge.Core/AForgeCore.cs:2102-2114 | a destination byte whose source pixel is off the image is not written |
| CropFilter.CroppedKeepsPadding | AforgeNumVerify/AForge.Core/AForgeCore.cs:2110-2114 | the padding at the end of each destination row is never written |
| CropFilter.ApplyTo | AforgeNumVerify/AForge.Core/AForgeCore.cs:1897-1907 | the format check, then the destination format, then the size the filter expects (the rectangle's, 2088-2090), each failing with nothing changed; otherwise the destination becomes Cropped |
| CropFilter.Apply | AforgeNumVerify/AForge.Core/AForgeCore.cs:1890-1896 | an unsupported format fails first; a rectangle without area then fails with InvalidImageProperties in Create; otherwise a fresh image of the rectangle's size and the source's format showing the source through the rectangle, zero bytes where the rectangle leaves the source |
| CanvasMoveFilter.WithColor | AforgeNumVerify/AForge.Core/AForgeCore.cs:2237-2241 | a filter built with a move and an RGB fill keeps both and leaves the grey fill at its default 255 |
| CanvasMoveFilter.FillPattern | AforgeNumVerify/AForge.Core/AForgeCore.cs:2350-2351 | the fill written where nothing moves in is exactly one pixel long for every accepted format |
| CanvasMoveFilter.MovedAreaSource | AforgeNumVerify/AForge.Core/AForgeCore.cs:2322-2324 | an in-bounds pixel lies in the intersection of the canvas and the moved canvas exactly when the pixel (x - mx, y - my) it copies exists |
| CanvasMoveFilter.StepReads | AforgeNumVerify/AForge.Core/AForgeCore.cs:2331-2349 | scanning from the far side when the move is positive means each step still reads the original value of the pixel it copies |
| CanvasMoveFilter.MovingStep | AforgeNumVerify/AForge.Core/AForgeCore.cs:2344-2353 | writing the next pixel of the scan is one more pixel of the partial result |
| CanvasMoveFilter.ProcessFilter | AforgeNumVerify/AForge.Core/AForgeCore.cs:2299-2447 | the in-place scan leaves the buffer equal to Moved: every pixel gets its moved-in value or the fill |
| CanvasMoveFilter.MoveAndFill | AforgeNumVerify/AForge.Core/AForgeCore.cs:2325-2354 | the row loop, in the direction chosen by the sign of the move, ends with the whole image moved |
| CanvasMoveFilter.MoveRow | AforgeNumVerify/AForge.Core/AForgeCore.cs:2345-2353 | the column loop of one row advances the partial result by that whole row |
| CanvasMoveFilter.ReadMoved | AforgeNumVerify/AForge.Core/AForgeCore.cs:2346-2352 | the bytes stored at (x, y) are those of the pixel (x - mx, y - my) inside the intersection and the fill outside it |
| CanvasMoveFilter.MovedPixels | AforgeNumVerify/AForge.Core/AForgeCore.cs:2299-2447 | after the filter pixel (x, y) holds the original pixel (x - mx, y - my) when it exists and the fill pattern otherwise |
| CanvasMoveFilter.MovedKeepsPadding | AforgeNumVerify/AForge.Core/AForgeCore.cs:2344-2376 | bytes of the row padding are never written |
| CanvasMoveFilter.MoveByZero | AforgeNumVerify/AForge.Core/AForgeCore.cs:2299-2447 | a move by (0, 0) leaves the image unchanged |
| CanvasMoveFilter.MoveOffCanvas | AforgeNumVerify/AForge.Core/AForgeCore.cs:2322-2324 | a move by the full width or height or more leaves nothing but fill |
| CanvasMoveFilter.ApplyInPlace | AforgeNumVerify/AForge.Core/AForgeCore.cs:1846-1854 | an unsupported format is refused with the image untouched; otherwise the image is moved in place |
| CanvasMoveFilter.ApplyTo | AforgeNumVerify/AForge.Core/AForgeCore.cs:1809-1830 | the format and size checks fail in the source's order with the destination untouched; otherwise the rows are copied and then moved |
| CanvasMoveFilter.CopiedThenMoved | AforgeNumVerify/AForge.Core/AForgeCore.cs:1809-1830 | after the row copy and the move, destination pixel (x, y) holds source pixel (x - mx, y - my) or the fill |
| CanvasMoveFilter.CopiedThenMovedAll | AforgeNumVerify/AForge.Core/AForgeCore.cs:1809-1830 | the copy-then-move result is the shifted source at every pixel |
| CanvasMoveFilter.Apply | AforgeNumVerify/AForge.Core/AForgeCore.cs:1803-1808 | fails exactly for unsupported formats; otherwise returns a fresh valid image that is the source shifted by the move |
| Centring.InvertTwice | AforgeNumVerify/Main.cs:167-177 | inverting a glyph, then inverting it back, restores every byte |
| Centring.InvertZeros | AforgeNumVerify/Main.cs:172-177 | the zero bytes Crop pads with become 255 (white) once inverted back |
| Centring.GlyphKept | AforgeNumVerify/Main.cs:161-189 | a glyph no larger than w x h is kept whole: each glyph pixel lands, shifted by ((w - sw) / 2, (h - sh) / 2), inside the image with its bytes unchanged |
| Centring.Centred | AforgeNumVerify/Main.cs:180-181 | the shift of a glyph that fits is non-negative and leaves equal margins, or a right (bottom) margin one pixel wider |
| Centring.GlyphCut | AforgeNumVerify/Main.cs:172-183 | a glyph wider than w is cut to its first w columns and moved back by half the excess, rounded toward zero; columns past the cut show the fill |
| Centring.WhiteBackground | AforgeNumVerify/Main.cs:172-183 | on 8-bit grey and 24-bit colour glyphs every pixel not taken from the glyph is white in every byte |
| Centring.GreyCanvasFill | AforgeNumVerify/AForge.Core/AForgeCore.cs:2285-2289 | on 16-bit grey glyphs Color.White does not set the grey fill, and the pixels the move leaves empty get the unshifted byte 255 (sample 0x00FF) |
| Centring.Chain | AforgeNumVerify/Main.cs:167-183 | Invert, Crop(0, 0, w, h), Invert and CanvasMove((w - sw) / 2, (h - sh) / 2) with a white fill compose to the centred glyph at every pixel |
| Centring.ChainAt | AforgeNumVerify/Main.cs:167-183 | the same at one pixel: canvas fill, glyph pixel or crop padding |
| Centring.CroppedAt | AforgeNumVerify/Main.cs:167-174 | a pixel of the crop of the inverted glyph is the inverted glyph pixel, or zero where the crop reaches past the glyph |
| Centring.MovedIn | AforgeNumVerify/Main.cs:177-183 | a pixel the canvas move brings in is the Invert of the crop's pixel at the shifted place |
| Centring.CentreAt | AforgeNumVerify/Main.cs:166-185 | one glyph of the loop: fails when Invert refuses the format (list[i] untouched) or Crop gets a non-positive size (list[i] already inverted); otherwise list[i] becomes the centred glyph and no other entry changes |
| Centring.ToResizeAndCenterIt | AforgeNumVerify/Main.cs:161-189 | every glyph is replaced in place by its centred copy and the result lists the same images; the first glyph that cannot be centred stops the loop with the earlier glyphs centred and the later ones untouched |
| Preprocess.SizedFilteringKeepsPixel | AforgeNumVerify/Main.cs:38 | BlobsFiltering(1, 1, Width, Height) keeps every pixel of a thresholded image: no blob is outside those limits, and the pixels it would blank are background already |
| Preprocess.PreProcess | AforgeNumVerify/Main.cs:30-41 | fails only for a one-pixel-wide image (the blob counter refuses it); otherwise an 8bpp image of the same size whose every pixel is the BT709 grey level of the colour pixel thresholded at 50 |
| Preprocess.Binarise | AforgeNumVerify/Main.cs:36-37 | Grayscale(0.2125, 0.7154, 0.0721) then Threshold(50) give a fresh 8bpp image of the same size holding, per pixel, the thresholded grey level |
| Preprocess.RemoveNoBlobs | AforgeNumVerify/Main.cs:38 | BlobsFiltering on the thresholded image fails exactly for width 1 and otherwise returns a copy with the same pixels |
| UnionFind.MergedClasses | AforgeNumVerify/AForge.Core/AForgeCore.cs:1309-1312 | pointing one root at another keeps every label pointing at a root and joins exactly those two classes |
| UnionFind.JoinedClasses | AforgeNumVerify/AForge.Core/AForgeCore.cs:1308-1326 | a union of labels from different classes keeps the map flat; afterwards two labels share a root exactly when they did before or one lay in each joined class |
| UnionFind.JoinedKeepsOthers | AforgeNumVerify/AForge.Core/AForgeCore.cs:1308-1326 | labels outside the two joined classes keep their root |
| UnionFind.Union | AforgeNumVerify/AForge.Core/AForgeCore.cs:1308-1326 | the three relinking cases followed by the rescan leave the map equal to Joined |
| UnionFind.Collapse | AforgeNumVerify/AForge.Core/AForgeCore.cs:1317-1325 | the rescan's chain-following inner loop terminates and points every label at its root |
| Labelling.CausalNeighbours | AforgeNumVerify/AForge.Core/AForgeCore.cs:1293-1301 | the only earlier pixels that touch (x, y) are its left, upper-left, upper and upper-right neighbours, the four the scan tests |
| Labelling.Isolated | AforgeNumVerify/AForge.Core/AForgeCore.cs:1329-1331 | a pixel with no foreground causal neighbour is linked to no earlier pixel, so a new label is right |
| Labelling.CausalRoots | AforgeNumVerify/AForge.Core/AForgeCore.cs:1293-1328 | when every foreground causal neighbour has root r, so has every linked earlier pixel |
| Labelling.NewStep | AforgeNumVerify/AForge.Core/AForgeCore.cs:1329-1331 | a new label for a marked pixel with no linked earlier pixel keeps the labelling invariant |
| Labelling.AdoptStep | AforgeNumVerify/AForge.Core/AForgeCore.cs:1294-1301 | copying the label of a linked earlier pixel whose class holds every linked earlier pixel keeps the invariant |
| Labelling.UnionStep | AforgeNumVerify/AForge.Core/AForgeCore.cs:1306-1326 | joining the classes of two earlier pixels linked to the same foreground pixel keeps the invariant and puts both in one class |
| Labelling.Start | AforgeNumVerify/AForge.Core/AForgeCore.cs:1254-1260 | all-zero labels and the map holding only the background satisfy the invariant before the scan |
| Labelling.FirstPixel | AforgeNumVerify/AForge.Core/AForgeCore.cs:1266-1268 | the first pixel gets a new label when its own test marks it, keeping the invariant |
| Labelling.TopRowPixel | AforgeNumVerify/AForge.Core/AForgeCore.cs:1271-1279 | a first-row pixel takes its left neighbour's label or a new one, keeping the invariant |
| Labelling.FirstColumnPixel | AforgeNumVerify/AForge.Core/AForgeCore.cs:1282-1290 | the first pixel of a later row takes the upper, else the upper-right, label or a new one, keeping the invariant |
| Labelling.MiddlePixel | AforgeNumVerify/AForge.Core/AForgeCore.cs:1293-1333 | an inner pixel: lender's label, then the upper-right neighbour's label or a union with it, else a new label; the invariant is kept |
| Labelling.Lend | AforgeNumVerify/AForge.Core/AForgeCore.cs:1294-1328 | the first foreground of left, upper-left and upper lends its label; a foreground upper-right lends when none did, or has its class joined with the lender's |
| Labelling.MiddleRoots | AforgeNumVerify/AForge.Core/AForgeCore.cs:1293-1328 | once the upper-right neighbour shares the lender's class, every linked earlier pixel does |
| Labelling.JoinUpperRight | AforgeNumVerify/AForge.Core/AForgeCore.cs:1306-1326 | the union when the two labels differ (or nothing when they share a root) leaves them in one class and keeps the invariant |
| Labelling.LastColumnPixel | AforgeNumVerify/AForge.Core/AForgeCore.cs:1334-1344 | the last pixel of a later row takes the left, upper-left or upper label, else a new one; the upper-right is not looked at |
| Labelling.LabelTopRow | AforgeNumVerify/AForge.Core/AForgeCore.cs:1266-1280 | after the first row the invariant holds for its w pixels |
| Labelling.LabelRow | AforgeNumVerify/AForge.Core/AForgeCore.cs:1281-1348 | one later row extends the invariant by w pixels |
| Labelling.LabelPass | AforgeNumVerify/AForge.Core/AForgeCore.cs:1261-1466 | after the scan exactly the marked pixels are labelled, linked foreground pixels share a class, and no class straddles two connected components |
| Components.RootsIncrease | AforgeNumVerify/AForge.Core/AForgeCore.cs:1469-1473 | the first remap loop gives roots distinct, increasing, non-zero ids |
| Components.RootsOnto | AforgeNumVerify/AForge.Core/AForgeCore.cs:1469-1473 | every id from 1 to objectsCount belongs to some root |
| Components.Id | AforgeNumVerify/AForge.Core/AForgeCore.cs:1467-1478 | a label's id lies in 0..objectsCount and is 0 exactly for the background label |
| Components.IdSameClass | AforgeNumVerify/AForge.Core/AForgeCore.cs:1467-1478 | two labels get the same id exactly when they are in one class of the union-find map |
| Components.RemapTable | AforgeNumVerify/AForge.Core/AForgeCore.cs:1467-1478 | the two remap loops give objectsCount = number of roots and reMap[l] = the id of l's class |
| Components.NumberRoots | AforgeNumVerify/AForge.Core/AForgeCore.cs:1468-1473 | root i is numbered by the count of roots up to i |
| Components.FollowRoots | AforgeNumVerify/AForge.Core/AForgeCore.cs:1474-1478 | every non-root label copies its root's number |
| Components.Relabel | AforgeNumVerify/AForge.Core/AForgeCore.cs:1479-1481 | every pixel's label is replaced by its reMap entry |
| Components.RenumberedObjectMap | AforgeNumVerify/AForge.Core/AForgeCore.cs:1467-1481 | the finished pass after the remap is an object map: ids 1..objectsCount on exactly the marked pixels, each id used, linked pixels sharing an id, no id split across components |
| Components.BuildObjectsMap | AforgeNumVerify/AForge.Core/AForgeCore.cs:1241-1482 | the labelling pass, the remap table and the relabelling produce an object map with objectsCount ids |
| Components.ComponentClosed | AforgeNumVerify/AForge.Core/AForgeCore.cs:1293-1302 | an 8-connected component is closed under the links the scan follows |
| Components.PathSameId | AforgeNumVerify/AForge.Core/AForgeCore.cs:1241-1482 | along a chain of adjacent foreground pixels the object id never changes |
| Components.SameIdIffConnected | AforgeNumVerify/AForge.Core/AForgeCore.cs:1241-1482 | two foreground pixels share an object id exactly when they are 8-connected |
| Components.LoneFirstPixel | AforgeNumVerify/AForge.Core/AForgeCore.cs:1354-1356 | a first pixel that its own (any channel non-zero) test marks but the threshold test does not is an object on its own |
| BlobInfo.PixelsStep | AforgeNumVerify/AForge.Core/AForgeCore.cs:1121-1125 | one more pixel of the scan adds itself to its id's pixels exactly when it carries that id |
| BlobInfo.ScanArea | AforgeNumVerify/AForge.Core/AForgeCore.cs:1138 | the area accumulator counts the id's pixels seen so far; with none seen the accumulators keep their starting values |
| BlobInfo.ScanBounds | AforgeNumVerify/AForge.Core/AForgeCore.cs:1126-1137 | every pixel of the id seen so far lies inside [x1, x2] x [y1, y2] |
| BlobInfo.BoundsStep | AforgeNumVerify/AForge.Core/AForgeCore.cs:1126-1137 | updating the four bounds with one more pixel keeps every pixel of the id inside them |
| BlobInfo.ScanReached | AforgeNumVerify/AForge.Core/AForgeCore.cs:1126-1137 | each of the four bounds is reached by some pixel of the id |
| BlobInfo.ScanDescribes | AforgeNumVerify/AForge.Core/AForgeCore.cs:1113-1146 | the accumulators after k pixels describe the id's pixels: count, containment and reached bounds |
| BlobInfo.BlobIsBoundingBox | AforgeNumVerify/AForge.Core/AForgeCore.cs:1189-1192 | the blob of an id with pixels is the exact bounding box of those pixels, with at least one row and column, and its area is their number |
| BlobInfo.BlobInside | AforgeNumVerify/AForge.Core/AForgeCore.cs:1189-1192 | a blob with pixels lies inside the image |
| BlobInfo.CollectObjectsInfo | AforgeNumVerify/AForge.Core/AForgeCore.cs:1098-1202 | one blob per id 1..objectsCount, in id order, each the blob of that id's accumulators over the whole object map; every id must label some pixel, since the colour means divide by the area (line 1195) |
| BlobInfo.CollectRow | AforgeNumVerify/AForge.Core/AForgeCore.cs:1122-1145 | one row of the scan advances every id's accumulators by that row |
| BlobSort.CompareIsKeyDifference | AforgeNumVerify/AForge.Core/AForgeCore.cs:1208-1221 | BlobsSorter.Compare is the difference of a per-order ranking key (descending size or area, ascending y*100000+x or x*100000+y, constant for None), so it is antisymmetric |
| BlobSort.CompareTransitive | AforgeNumVerify/AForge.Core/AForgeCore.cs:1208-1221 | the comparer is transitive, a total preorder the sort can rely on |
| BlobSort.YXRowsFirst | AforgeNumVerify/AForge.Core/AForgeCore.cs:1215-1216 | under YX order, for x below 100000, a blob starting on a higher row comes first |
| BlobSort.SizeLargerFirst | AforgeNumVerify/AForge.Core/AForgeCore.cs:1212-1213 | under Size order a blob with a strictly larger rectangle comes first |
| BlobSort.SortBlobs | AforgeNumVerify/AForge.Core/AForgeCore.cs:825-827 | the sorted list is ordered by the comparer and holds the same blobs |
| BlobSort.SwapStep | AforgeNumVerify/AForge.Core/AForgeCore.cs:1208-1221 | swapping a blob with a predecessor that should follow it keeps every other pair in order |
| BlobSort.PendingDone | AforgeNumVerify/AForge.Core/AForgeCore.cs:1208-1221 | once the moving blob meets a predecessor that may precede it, the prefix is sorted |
| BlobSort.Insert | AforgeNumVerify/AForge.Core/AForgeCore.cs:825-827 | one insertion step extends the sorted prefix by one, permuting only that prefix |
| BlobFilter.KeptAppend | AforgeNumVerify/AForge.Core/AForgeCore.cs:780-808 | the survivors of two lists joined are the survivors of each, joined |
| BlobFilter.KeptMembers | AforgeNumVerify/AForge.Core/AForgeCore.cs:780-808 | a blob is in the filtered list exactly when it was in the list and passes the size limits (coupled or decoupled) or the filter's Check |
| BlobFilter.NewId | AforgeNumVerify/AForge.Core/AForgeCore.cs:810-816 | the new label of an old one lies between 0 and the number of survivors |
| BlobFilter.KeptStep | AforgeNumVerify/AForge.Core/AForgeCore.cs:780-808 | one more blob adds itself to the survivors exactly when it passes |
| BlobFilter.NewIdLocates | AforgeNumVerify/AForge.Core/AForgeCore.cs:810-816 | a surviving old label j is renumbered to the position, plus one, of its blob among the survivors |
| BlobFilter.NewIdIncreasing | AforgeNumVerify/AForge.Core/AForgeCore.cs:810-816 | renumbering keeps the survivors' order, so distinct survivors get distinct labels |
| BlobFilter.NewIdOnto | AforgeNumVerify/AForge.Core/AForgeCore.cs:810-816 | every new label 1..N belongs to some surviving old label |
| BlobFilter.RemoveFailing | AforgeNumVerify/AForge.Core/AForgeCore.cs:774-809 | the backward loop leaves the survivors in order, counts the removals, and marks exactly the failing labels 0 in labelsMap |
| BlobFilter.RemovingStart | AforgeNumVerify/AForge.Core/AForgeCore.cs:774-778 | the identity labelsMap and the whole list start the removal loop |
| BlobFilter.RemovingDone | AforgeNumVerify/AForge.Core/AForgeCore.cs:780-808 | at the end of the removal loop the list is the survivors and labelsMap marks exactly the failing labels |
| BlobFilter.RemovingFront | AforgeNumVerify/AForge.Core/AForgeCore.cs:780-782 | going backwards, blob i is still at index i when the loop reaches it |
| BlobFilter.RemovingDrop | AforgeNumVerify/AForge.Core/AForgeCore.cs:785-790 | a failing blob is marked 0, counted and removed at its index |
| BlobFilter.RemovingKeep | AforgeNumVerify/AForge.Core/AForgeCore.cs:780-808 | a passing blob is left alone |
| BlobFilter.KeptFront | AforgeNumVerify/AForge.Core/AForgeCore.cs:780-808 | the survivors of a suffix are its first blob when it passes, then the survivors of the rest |
| BlobFilter.Renumber | AforgeNumVerify/AForge.Core/AForgeCore.cs:810-816 | the renumbering loop gives every label its new label |
| BlobFilter.Renamed | AforgeNumVerify/AForge.Core/AForgeCore.cs:821-823 | the blobs keep their data and take ids 1..N in list order |
| BlobFilter.SetIds | AforgeNumVerify/AForge.Core/AForgeCore.cs:821-823 | the id loop gives every blob its position plus one |
| BlobFilter.Filtered | AforgeNumVerify/AForge.Core/AForgeCore.cs:817-819 | relabelling keeps the object map's length |
| BlobFilter.FilteredPixels | AforgeNumVerify/AForge.Core/AForgeCore.cs:773-824 | after filtering a pixel keeps an object exactly when its old object passed, and its new id names the same blob, renumbered, in the new list |
| BlobFilter.FilteredSameId | AforgeNumVerify/AForge.Core/AForgeCore.cs:810-816 | two survivors share a new label exactly when they are the same old label |
| BlobFilter.ScanRenamed | AforgeNumVerify/AForge.Core/AForgeCore.cs:1113-1146 | an id whose pixels are exactly those of another id collects the same bounds and area |
| BlobFilter.FilteredDescribe | AforgeNumVerify/AForge.Core/AForgeCore.cs:773-824 | after filtering, the blob list still describes the object map: blob k is what the object of id k + 1 would collect |
| BlobFilter.FilteredDescribeAt | AforgeNumVerify/AForge.Core/AForgeCore.cs:773-824 | the same, for one survivor |
| BlobFilter.FilteredPixelsOf | AforgeNumVerify/AForge.Core/AForgeCore.cs:817-819 | the pixels of a surviving old label are exactly those of its new label |
| BlobFilter.ImageSizedLimitsKeepAll | AforgeNumVerify/Main.cs:38 | the limits 1 x 1 up to the image size, decoupled, remove no blob whose box fits the image |
| BlobFilter.NothingRemovedKeepsMap | AforgeNumVerify/AForge.Core/AForgeCore.cs:810-819 | when no blob fails, the object map is left as it was |
| BlobFilter.KeptAll | AforgeNumVerify/AForge.Core/AForgeCore.cs:780-808 | when no blob fails, the list is left as it was |
| BlobCounting.Mask | AforgeNumVerify/AForge.Core/AForgeCore.cs:1264-1466 | the foreground mask covers every pixel in raster order; a pixel is foreground when the grey byte exceeds the green threshold (8bpp) or R, G or B exceeds its threshold |
| BlobCounting.MaskRaster | AforgeNumVerify/AForge.Core/AForgeCore.cs:1264-1466 | the first-pixel test never drops a pixel the thresholds call foreground, so the labelling pass applies to every image at least two pixels wide; for 8bpp images it is the ordinary test |
| BlobCounting.ZeroThresholdFirstPixel | AforgeNumVerify/AForge.Core/AForgeCore.cs:1354-1356 | with the default zero thresholds the first pixel's own test agrees with the mask |
| BlobCounting.FirstPixelQuirk | AforgeNumVerify/AForge.Core/AForgeCore.cs:1354-1356 | on a colour image a first pixel at the thresholds but not black is labelled although the thresholds call it background |
| BlobCounting.DescribedInside | AforgeNumVerify/AForge.Core/AForgeCore.cs:1189-1201 | blobs collected from an object map whose every id is used lie inside the image |
| BlobCounting.KeptInside | AforgeNumVerify/AForge.Core/AForgeCore.cs:773-824 | filtering and renumbering keep the blobs inside the image |
| BlobCounting.BlobCounter.constructor | AforgeNumVerify/AForge.Core/AForgeCore.cs:694-745 | a new counter has processed nothing, filters nothing, orders nothing, and has limits 1 x 1 up to int.MaxValue, decoupled, and a black background threshold |
| BlobCounting.BlobCounter.ProcessImage | AforgeNumVerify/AForge.Core/AForgeCore.cs:768-828 | unsupported formats, then one-pixel-wide images, are refused with the counter unchanged; otherwise the map is the object map of the foreground, filtered when asked, the blob list describes it, and it is sorted (same blobs) when an order is set |
| BlobCounting.BlobCounter.Summarise | AforgeNumVerify/AForge.Core/AForgeCore.cs:772-827 | collection, filtering and ordering after the object map: the blobs describe the map before and after filtering |
| BlobCounting.BlobCounter.BuildObjectsMap | AforgeNumVerify/AForge.Core/AForgeCore.cs:1241-1482 | refuses the formats it cannot count, then one-pixel-wide images; otherwise a fresh object map of the foreground whose every id 1..objectsCount is used |
| BlobCounting.BlobCounter.FilterObjects | AforgeNumVerify/AForge.Core/AForgeCore.cs:773-824 | removal, renumbering, relabelling, the new count and the new ids: the map and the list are filtered together |
| BlobCounting.BlobCounter.GetObjectsRectangles | AforgeNumVerify/AForge.Core/AForgeCore.cs:829-837 | fails before an image was processed; otherwise every blob's rectangle in list order |
| BlobCounting.BlobCounter.GetObjectsInformation | AforgeNumVerify/AForge.Core/AForgeCore.cs:838-846 | fails before an image was processed; otherwise a copy of every blob in list order |
| BlobCounting.BlobCounter.GetObjects | AforgeNumVerify/AForge.Core/AForgeCore.cs:859-920 | refuses to run before processing, then unsupported formats; otherwise one fresh blob image per blob in list order holding exactly the blob's pixels, failing as the first blob image that cannot be created fails |
| BlobCounting.BlobCounter.ExtractBlobsImage | AforgeNumVerify/AForge.Core/AForgeCore.cs:931-986 | the same refusals and the same extraction for one caller-given blob |
| BlobCounting.BlobCounter.PlacedFits | AforgeNumVerify/AForge.Core/AForgeCore.cs:997-1011 | a rectangle inside the recorded image keeps the edge scans inside the object map |
| BlobCounting.BlobCounter.GetBlobsLeftAndRightEdges | AforgeNumVerify/AForge.Core/AForgeCore.cs:987-1013 | fails before processing; otherwise per row the first pixel of the blob from the left and from the right |
| BlobCounting.BlobCounter.GetBlobsTopAndBottomEdges | AforgeNumVerify/AForge.Core/AForgeCore.cs:1014-1040 | fails before processing; otherwise per column the first pixel of the blob from the top and from the bottom |
| BlobCounting.BlobCounter.GetBlobsEdgePoints | AforgeNumVerify/AForge.Core/AForgeCore.cs:1041-1095 | fails before processing; otherwise the row scans' points then the column scans' points not already found in their row |
| BlobEdges.RowStartIsProduct | AforgeNumVerify/AForge.Core/AForgeCore.cs:998 | the row start the scans count up to is y * width |
| BlobEdges.Line | AforgeNumVerify/AForge.Core/AForgeCore.cs:997-1039 | every scan line lies inside the rectangle, across the line it names, with one point per column (rows) or per row (columns) |
| BlobEdges.ContainedInMap | AforgeNumVerify/AForge.Core/AForgeCore.cs:998-1000 | a point of a rectangle inside the image indexes the object map |
| BlobEdges.LineInMap | AforgeNumVerify/AForge.Core/AForgeCore.cs:997-1039 | every point a scan visits indexes the object map |
| BlobEdges.FirstIndex | AforgeNumVerify/AForge.Core/AForgeCore.cs:999-1004 | the position where a scan stops: no earlier point carries the id, and the point found does |
| BlobEdges.Hit | AforgeNumVerify/AForge.Core/AForgeCore.cs:999-1004 | a scan finds, if anything, a point of the rectangle on its line that carries the blob's id |
| BlobEdges.Hits | AforgeNumVerify/AForge.Core/AForgeCore.cs:997-1012 | one scan result per line of the side |
| BlobEdges.ListingMembers | AforgeNumVerify/AForge.Core/AForgeCore.cs:1001 | a point is listed exactly when some scan found it |
| BlobEdges.ListingStep | AforgeNumVerify/AForge.Core/AForgeCore.cs:1001 | the listing of one more line appends what that line found |
| BlobEdges.OnLine | AforgeNumVerify/AForge.Core/AForgeCore.cs:997-1039 | each point of the rectangle is on exactly the line and at the position the scans give it |
| BlobEdges.HitIsFirst | AforgeNumVerify/AForge.Core/AForgeCore.cs:999-1010 | a scan finds a point exactly when it carries the id and no point before it on its line does |
| BlobEdges.EdgeIsFirstPixels | AforgeNumVerify/AForge.Core/AForgeCore.cs:987-1040 | the edge of a side holds exactly the blob pixels of the rectangle with no blob pixel before them on their line in that direction |
| BlobEdges.LineWalk | AforgeNumVerify/AForge.Core/AForgeCore.cs:997-1039 | each line starts at its corner and steps one column or row at a time, as the pointer does |
| BlobEdges.FirstIndexStep | AforgeNumVerify/AForge.Core/AForgeCore.cs:999-1003 | a scan that passed k points without a match stops at k on a match and goes on otherwise |
| BlobEdges.IndexStep | AforgeNumVerify/AForge.Core/AForgeCore.cs:1026 | adding or subtracting the width moves the map index one row, and one moves it one column |
| BlobEdges.CellIndex | AforgeNumVerify/AForge.Core/AForgeCore.cs:998 | computes y * width + x |
| BlobEdges.FirstOnLine | AforgeNumVerify/AForge.Core/AForgeCore.cs:998-1011 | one inner loop finds what the scan of its line finds |
| BlobEdges.Walk | AforgeNumVerify/AForge.Core/AForgeCore.cs:999-1004 | the walk with its break returns the first point on the line carrying the id, or nothing |
| BlobEdges.LeftAndRightEdges | AforgeNumVerify/AForge.Core/AForgeCore.cs:997-1012 | the row loop produces the left and right edges |
| BlobEdges.TopAndBottomEdges | AforgeNumVerify/AForge.Core/AForgeCore.cs:1024-1039 | the column loop produces the top and bottom edges |
| BlobEdges.RowPointsStep | AforgeNumVerify/AForge.Core/AForgeCore.cs:1052-1071 | one more row adds its left point and its right point unless that has the left point's column |
| BlobEdges.ColumnPointsStep | AforgeNumVerify/AForge.Core/AForgeCore.cs:1072-1093 | one more column adds its top and bottom points unless their row recorded that column |
| BlobEdges.EdgePointsOf | AforgeNumVerify/AForge.Core/AForgeCore.cs:1041-1095 | the edge-point scan yields the row part then the column part |
| BlobEdges.RowScans | AforgeNumVerify/AForge.Core/AForgeCore.cs:1052-1071 | the row loop yields the row part and fills both processed-points arrays from the left and right scans |
| BlobEdges.RowStep | AforgeNumVerify/AForge.Core/AForgeCore.cs:1053-1070 | one pass of the row loop extends its state by one row |
| BlobEdges.RowsDoneStep | AforgeNumVerify/AForge.Core/AForgeCore.cs:1053-1070 | the row loop's state after one more row |
| BlobEdges.RecordsStep | AforgeNumVerify/AForge.Core/AForgeCore.cs:1050-1067 | recording row i leaves the arrays holding the first i + 1 records then zeros |
| BlobEdges.RowScan | AforgeNumVerify/AForge.Core/AForgeCore.cs:1053-1070 | one row: left hit recorded and listed, right hit recorded and listed unless it has the left column |
| BlobEdges.ColumnScans | AforgeNumVerify/AForge.Core/AForgeCore.cs:1072-1093 | the column loop appends the column part |
| BlobEdges.ColumnScansStep | AforgeNumVerify/AForge.Core/AForgeCore.cs:1073-1092 | one more column of the column part |
| BlobEdges.ColumnScan | AforgeNumVerify/AForge.Core/AForgeCore.cs:1073-1092 | one column: the top hit, then the bottom hit, each unless its row recorded the column on either side |
| BlobExtract.SourceOf | AforgeNumVerify/AForge.Core/AForgeCore.cs:888-893 | the source pixel that lands on a blob-image pixel: shifted by the rectangle's corner unless the original size is kept |
| BlobExtract.Cell | AforgeNumVerify/AForge.Core/AForgeCore.cs:890 | the map index of an in-bounds pixel lies inside the map |
| BlobExtract.CellsInside | AforgeNumVerify/AForge.Core/AForgeCore.cs:897-898 | every pixel the copy loop visits lies in both the source and the blob image |
| BlobExtract.PaintedPixel | AforgeNumVerify/AForge.Core/AForgeCore.cs:900-906 | writing a pixel's bytes shows them at that pixel and nowhere else |
| BlobExtract.RowPixel | AforgeNumVerify/AForge.Core/AForgeCore.cs:898-909 | after n pixels of a row, each target pixel holds its source pixel if already visited and carrying the id, and its old bytes otherwise |
| BlobExtract.RowPixelStep | AforgeNumVerify/AForge.Core/AForgeCore.cs:899-908 | one visited pixel shows the source at its own target and changes no other |
| BlobExtract.RowsPixel | AforgeNumVerify/AForge.Core/AForgeCore.cs:897-913 | the same after a number of rows |
| BlobExtract.ExtractedPixel | AforgeNumVerify/AForge.Core/AForgeCore.cs:886-914 | each blob-image pixel holds its source pixel when that lies in the rectangle and carries the blob's id, and zero otherwise |
| BlobExtract.RowPadding | AforgeNumVerify/AForge.Core/AForgeCore.cs:898-909 | the inner loop writes no padding byte |
| BlobExtract.RowPaddingStep | AforgeNumVerify/AForge.Core/AForgeCore.cs:900-906 | one pixel's copy writes no padding byte |
| BlobExtract.RowsPadding | AforgeNumVerify/AForge.Core/AForgeCore.cs:897-913 | the copy loop writes no padding byte |
| BlobExtract.ExtractedPadding | AforgeNumVerify/AForge.Core/AForgeCore.cs:886-914 | the padding of a blob image stays zero |
| BlobExtract.ExtractInto | AforgeNumVerify/AForge.Core/AForgeCore.cs:887-914 | the pointer loop leaves the blob image equal to the extraction of every row |
| BlobExtract.ExtractRowInto | AforgeNumVerify/AForge.Core/AForgeCore.cs:898-909 | one row of the loop advances the map index by the width of the rectangle and copies that row |
| BlobExtract.ExtractPixel | AforgeNumVerify/AForge.Core/AForgeCore.cs:899-908 | one inner step copies the pixel when its map entry is the blob's id |
| BlobExtract.ExtractBlob | AforgeNumVerify/AForge.Core/AForgeCore.cs:875-918 | fails exactly as Create fails for the blob image's size; otherwise a fresh blob image that is the extraction of the blob |
| BlobsFilteringFilter.ErasableCountable | AforgeNumVerify/AForge.Core/AForgeCore.cs:1951-1954 | every format the filter accepts is one its blob counter can count |
| BlobsFilteringFilter.Blank | AforgeNumVerify/AForge.Core/AForgeCore.cs:1979-1992 | the blanking pattern covers one pixel: the grey byte, or red, green and blue with alpha left alone |
| BlobsFilteringFilter.ErasePixelStep | AforgeNumVerify/AForge.Core/AForgeCore.cs:1979-1981 | the pixel a step visits is blanked when its label is 0, and no other pixel changes |
| BlobsFilteringFilter.EraseRowPixel | AforgeNumVerify/AForge.Core/AForgeCore.cs:1978-1982 | after n pixels of row y exactly those of them with label 0 are blanked |
| BlobsFilteringFilter.EraseRowsPixel | AforgeNumVerify/AForge.Core/AForgeCore.cs:1977-1984 | after a number of rows exactly their pixels with label 0 are blanked |
| BlobsFilteringFilter.EraseRowsStep | AforgeNumVerify/AForge.Core/AForgeCore.cs:1977-1984 | one more row extends the blanked region by that row |
| BlobsFilteringFilter.ErasedPixel | AforgeNumVerify/AForge.Core/AForgeCore.cs:1969-1997 | the scan blanks exactly the pixels of label 0 and leaves every other pixel as it was |
| BlobsFilteringFilter.EraseRowPadding | AforgeNumVerify/AForge.Core/AForgeCore.cs:1978-1983 | the inner loop writes no padding byte |
| BlobsFilteringFilter.EraseRowsPadding | AforgeNumVerify/AForge.Core/AForgeCore.cs:1977-1984 | the row loop writes no padding byte |
| BlobsFilteringFilter.ErasedPadding | AforgeNumVerify/AForge.Core/AForgeCore.cs:1969-1997 | the row padding is never written |
| BlobsFilteringFilter.ErasedRemoved | AforgeNumVerify/AForge.Core/AForgeCore.cs:1969-1997 | over the filtered map a pixel is blanked exactly when it was background or its blob failed the criterion |
| BlobsFilteringFilter.ImageSizedFilteringKeepsMap | AforgeNumVerify/Main.cs:38 | with limits 1 x 1 up to the image size, decoupled, the filtering step keeps every blob and the map is unchanged |
| BlobsFilteringFilter.BackgroundIsBlank | AforgeNumVerify/AForge.Core/AForgeCore.cs:1979-1981 | against the default black background, an unlabelled pixel of an 8bpp image is already 0, so blanking it changes nothing |
| BlobsFilteringFilter.EraseInto | AforgeNumVerify/AForge.Core/AForgeCore.cs:1974-1996 | the pointer scan, with p walking the map, leaves the image equal to Erased |
| BlobsFilteringFilter.EraseRowInto | AforgeNumVerify/AForge.Core/AForgeCore.cs:1978-1983 | one row of the scan advances p by the width and blanks that row's unlabelled pixels |
| BlobsFilteringFilter.BlobsFiltering.BySize | AforgeNumVerify/AForge.Core/AForgeCore.cs:1945-1965 | a fresh counter with filtering on, the given limits and coupling, no filter, no order, black background |
| BlobsFilteringFilter.BlobsFiltering.ByFilter | AforgeNumVerify/AForge.Core/AForgeCore.cs:1966-1968 | a fresh counter with the default limits whose removals the filter's Check decides |
| BlobsFilteringFilter.BlobsFiltering.ProcessFilter | AforgeNumVerify/AForge.Core/AForgeCore.cs:1969-1997 | the counter processes the image (failing, image untouched, when it is one pixel wide), then the pixels of label 0 in the filtered map are blanked |
| BlobsFilteringFilter.BlobsFiltering.ApplyInPlace | AforgeNumVerify/AForge.Core/AForgeCore.cs:1846-1849 | the format check, then ProcessFilter |
| BlobsFilteringFilter.BlobsFiltering.ApplyTo | AforgeNumVerify/AForge.Core/AForgeCore.cs:1809-1830 | the checks in source order, the row copy, then ProcessFilter on the destination; a one-pixel-wide image leaves the destination holding the copy |
| BlobsFilteringFilter.BlobsFiltering.Apply | AforgeNumVerify/AForge.Core/AForgeCore.cs:1803-1808 | fails for unsupported formats and one-pixel-wide images; otherwise a fresh image of the same size and format whose pixels of label 0 are blanked and whose others are the source's |
| BlobsFilteringFilter.CopiedThenErasedAll | AforgeNumVerify/AForge.Core/AForgeCore.cs:1809-1830 | a row copy followed by the scan shows the source's pixels, blanked where the label is 0 |
| BlobsFilteringFilter.CopyKeepsMask | AforgeNumVerify/AForge.Core/AForgeCore.cs:1817-1828 | a row copy keeps the foreground mask and the first-pixel test, so the counter sees the same objects in the copy |
| TemplateMatching.SourceIndex | AforgeNumVerify/AForge.Core/AForgeCore.cs:2609-2625 | the source byte the SAD loop reads for byte j of template row i lies inside the image buffer |
| TemplateMatching.TemplateIndex | AforgeNumVerify/AForge.Core/AForgeCore.cs:2610-2625 | the template byte it reads lies inside the template buffer |
| TemplateMatching.RowDifBounds | AforgeNumVerify/AForge.Core/AForgeCore.cs:2616-2623 | the sum of absolute differences over n bytes lies in 0..255 n |
| TemplateMatching.DifBounds | AforgeNumVerify/AForge.Core/AForgeCore.cs:2614-2626 | the difference over m template rows lies in 0..m * templateWidthInBytes * 255 |
| TemplateMatching.ScoreBounds | AforgeNumVerify/AForge.Core/AForgeCore.cs:2594-2628 | 0 <= dif <= maxDiff, so sim = maxDiff - dif lies in 0..maxDiff |
| TemplateMatching.RowDifZero | AforgeNumVerify/AForge.Core/AForgeCore.cs:2616-2623 | a row's difference is 0 exactly when every byte of it equals the template's |
| TemplateMatching.DifZero | AforgeNumVerify/AForge.Core/AForgeCore.cs:2614-2626 | the difference over m rows is 0 exactly when those rows equal the template's |
| TemplateMatching.PerfectMatch | AforgeNumVerify/AForge.Core/AForgeCore.cs:2612-2628 | a placement scores maxDiff (similarity 1) exactly when the region under it equals the template byte for byte |
| TemplateMatching.RowPeaksMembers | AforgeNumVerify/AForge.Core/AForgeCore.cs:2639-2657 | a row of the second pass reports exactly its peaks, each with its placement |
| TemplateMatching.PeaksMembers | AforgeNumVerify/AForge.Core/AForgeCore.cs:2637-2658 | the first rows of the second pass report exactly their peaks |
| TemplateMatching.CandidatesArePeaks | AforgeNumVerify/AForge.Core/AForgeCore.cs:2635-2658 | the reports are exactly the peaks of the score grid, each with its placement |
| TemplateMatching.Reported | AforgeNumVerify/AForge.Core/AForgeCore.cs:2628-2656 | a report's rectangle is a template-sized placement inside the zone; its score reached the threshold, is positive and at most maxDiff, and no cell within two steps holds a higher score |
| TemplateMatching.UnreachableThreshold | AforgeNumVerify/AForge.Core/AForgeCore.cs:2505-2507 | a threshold above maxDiff, which only the unclamping constructor allows, reports nothing |
| TemplateMatching.ClampedThreshold | AforgeNumVerify/AForge.Core/AForgeCore.cs:2596 | a similarity threshold in 0..1 gives an integer threshold in 0..maxDiff |
| TemplateMatching.InsertByScoreCorrect | AforgeNumVerify/AForge.Core/AForgeCore.cs:2663-2671 | inserting a report into a descending list keeps it descending and adds exactly that report |
| TemplateMatching.ConsDescending | AforgeNumVerify/AForge.Core/AForgeCore.cs:2667-2671 | a report no lower than every report of a descending list may head it |
| TemplateMatching.SortByScoreCorrect | AforgeNumVerify/AForge.Core/AForgeCore.cs:2663-2671 | sorting by MatchingsSorter gives non-increasing scores and keeps every report |
| TemplateMatching.BestScore | AforgeNumVerify/AForge.Core/AForgeCore.cs:2667-2671 | the best score of some reports is reached by one and exceeded by none |
| TemplateMatching.FirstIsBest | AforgeNumVerify/AForge.Core/AForgeCore.cs:2663 | in any order the sort may produce, the first report carries the best score |
| TemplateMatching.WholeSearch | AforgeNumVerify/AForge.Core/AForgeCore.cs:2558-2560 | the search over the whole image is well formed when the formats match and the template fits |
| TemplateMatching.WholeZone | AforgeNumVerify/AForge.Core/AForgeCore.cs:2509-2525 | with the whole image as zone the checks are the format check and the template fitting the image, and the search is the whole-image search |
| TemplateMatching.SearchOf | AforgeNumVerify/AForge.Core/AForgeCore.cs:2572-2596 | the search a call runs is well formed once its checks pass |
| TemplateMatching.Difference | AforgeNumVerify/AForge.Core/AForgeCore.cs:2609-2626 | the pointer loop of one placement computes its sum of absolute differences |
| TemplateMatching.AddRow | AforgeNumVerify/AForge.Core/AForgeCore.cs:2616-2623 | the inner loop adds one row's absolute differences and advances both pointers by the row's bytes |
| TemplateMatching.FillScores | AforgeNumVerify/AForge.Core/AForgeCore.cs:2606-2632 | after the first pass every placement reaching the threshold has its score at its cell shifted by 2, and every other cell is 0 |
| TemplateMatching.FillRow | AforgeNumVerify/AForge.Core/AForgeCore.cs:2608-2631 | one row of the first pass |
| TemplateMatching.LocalMaximum | AforgeNumVerify/AForge.Core/AForgeCore.cs:2640-2650 | the +-2 scan with its early exits keeps the cell's value exactly when it is non-zero and no neighbour is greater, and gives 0 otherwise |
| TemplateMatching.WindowIsPeak | AforgeNumVerify/AForge.Core/AForgeCore.cs:2637-2652 | a cell of the filled grid survives the scan exactly when its placement is a peak, and then with its stored score |
| TemplateMatching.CollectPeaks | AforgeNumVerify/AForge.Core/AForgeCore.cs:2635-2658 | the second pass lists every peak in raster order |
| TemplateMatching.ExhaustiveTemplateMatching.Default | AforgeNumVerify/AForge.Core/AForgeCore.cs:2493-2502 | the parameterless constructor keeps the initial threshold 0.9 |
| TemplateMatching.ExhaustiveTemplateMatching.constructor | AforgeNumVerify/AForge.Core/AForgeCore.cs:2505-2507 | the constructor stores its argument without clamping it |
| TemplateMatching.ExhaustiveTemplateMatching.SetSimilarityThreshold | AforgeNumVerify/AForge.Core/AForgeCore.cs:2496-2499 | the setter clamps to 0..1 |
| TemplateMatching.ExhaustiveTemplateMatching.ProcessImage | AforgeNumVerify/AForge.Core/AForgeCore.cs:2563-2665 | fails exactly when a check fails, with the format error before the size error; otherwise every peak of the score grid, ordered by non-increasing score |
| TemplateMatching.ExhaustiveTemplateMatching.ProcessWholeImage | AforgeNumVerify/AForge.Core/AForgeCore.cs:2514-2546 | the same format check, the template must fit the image, and the whole image is the search zone |
| ProjectionRuns.StepState | AforgeNumVerify/Main.cs:68-91 | one iteration of the run scan keeps the scan state: the open run and the runs closed so far |
| ProjectionRuns.ScanInvariant | AforgeNumVerify/Main.cs:66-92 | after any number of lines the state describes the runs seen so far |
| ProjectionRuns.RunsAreClosed | AforgeNumVerify/Main.cs:66-92 | every handed-on run starts after line 0, covers marked lines only (a line is marked when it or the next holds a black pixel), is followed by an unmarked line, and the runs come left to right; a run still open at the last line is never handed on |
| ProjectionRuns.RunsGrow | AforgeNumVerify/Main.cs:66-92 | runs once closed stay in every later state |
| ProjectionRuns.RunsComplete | AforgeNumVerify/Main.cs:78-90 | every unmarked line c >= 2 after a marked line closes a run ending at line c - 1 |
| ProjectionRuns.NarrowRun | AforgeNumVerify/Main.cs:71-77 | a run is recorded with right still 0 exactly when line 1 holds a black pixel and line 2 is unmarked (left = 0 does not count as set) |
| ProjectionRuns.NarrowRunIsFirst | AforgeNumVerify/Main.cs:71-77 | a run recorded with right 0 can only come from that case |
| ProjectionRuns.NarrowRunExists | AforgeNumVerify/Main.cs:71-77 | and that case always records one |
| ProjectionRuns.Tall | AforgeNumVerify/Main.cs:139 | Crop_X cuts at most as many bands as the scan hands on |
| ProjectionRuns.TallStep | AforgeNumVerify/Main.cs:139 | a run is cut exactly when bottom - top > 0 |
| ProjectionRuns.TallKeeps | AforgeNumVerify/Main.cs:139 | the runs cut are exactly the handed-on runs with bottom above top |
| ProjectionRuns.TallOrdered | AforgeNumVerify/Main.cs:125-149 | and they stay in top to bottom order |
| ProjectionRuns.TallDropsNarrow | AforgeNumVerify/Main.cs:139 | of the runs the scan hands on, the extra check drops only the narrow run with no bottom line |
| Segmentation.Count | AforgeNumVerify/Main.cs:55-62 | a line's count lies between 0 and the pixels looked at |
| Segmentation.Counts | AforgeNumVerify/Main.cs:52-64 | one count per column (Crop_Y) or per row (Crop_X) |
| Segmentation.CountPositive | AforgeNumVerify/Main.cs:55-62 | a count is positive exactly when the line holds a pixel whose red channel is 0 |
| Segmentation.CountColumns | AforgeNumVerify/Main.cs:52-64 | the nested loop fills cols with the black pixels of each column |
| Segmentation.CountRows | AforgeNumVerify/Main.cs:108-123 | the nested loop fills rows with the black pixels of each row |
| Segmentation.RunRects | AforgeNumVerify/Main.cs:80-81 | a closed run cuts a rectangle of positive size inside the image exactly when its last line was recorded |
| Segmentation.CropY | AforgeNumVerify/Main.cs:49-95 | fails with InvalidImageProperties exactly when some run cuts a strip of no width (the narrow run); otherwise one full-height crop per run, left to right |
| Segmentation.CutStrips | AforgeNumVerify/Main.cs:66-92 | the scan over the column counts, with the same failure and result |
| Segmentation.StripsGrow | AforgeNumVerify/Main.cs:87 | adding the crop of the next run keeps the list the crops of the runs so far |
| Segmentation.HandedOn | AforgeNumVerify/Main.cs:78-90 | a run closed at line i is the next run of the whole scan |
| Segmentation.CropTo | AforgeNumVerify/Main.cs:80-83 | new Crop(rect).Apply fails exactly when the rectangle has no area; otherwise the crop of the image |
| Segmentation.CropRows | AforgeNumVerify/Main.cs:106-149 | one strip becomes a full-width band per run of rows with bottom above top |
| Segmentation.CutBands | AforgeNumVerify/Main.cs:125-149 | the scan over the row counts cuts exactly the tall runs, top to bottom |
| Segmentation.CropX | AforgeNumVerify/Main.cs:102-153 | the result is the bands of every strip, strip by strip |
| Segmentation.AllBandsGrow | AforgeNumVerify/Main.cs:106-150 | adding the bands of the next strip keeps the invariant of the foreach |
| Arith.CsDivByTwo | AforgeNumVerify/Main.cs:180-181 | (w - sw) / 2 truncates toward zero: it is Euclidean halving for a non-negative numerator and one more for a negative odd one |
| DigitSelection.ChoiceIsUnique | KQSerCore/KQSer.cs:78-86 | at most one template index satisfies the loop's choice: ties go to the lowest index |
| DigitSelection.DigitChar | KQSerCore/KQSer.cs:87 | sb.Append(index) writes the digit character of the index |
| DigitSelection.MaxDiffPositive | AforgeNumVerify/AForge.Core/AForgeCore.cs:2594 | a valid search has a positive maxDiff, so a similarity is a well-defined fraction |
| DigitSelection.FirstReport | KQSerCore/KQSer.cs:82 | for max >= 0, `compare.Length > 0 && compare[0].Similarity > max` holds exactly when the best similarity of the search exceeds max, and compare[0] carries that best similarity |
| DigitSelection.ScanStep | KQSerCore/KQSer.cs:80-86 | one template: the loop takes it exactly when its top similarity beats max, and keeps its state otherwise |
| DigitSelection.ScannedAll | KQSerCore/KQSer.cs:78-86 | after all templates the index is the choice: 0 when nothing scored above 0, else a template that scored above 0, beat every earlier one and is beaten by no later one |
| DigitSelection.Scan | KQSerCore/KQSer.cs:78-86 | the running index stays 0 or a template index |
| DigitSelection.ScanLast | KQSerCore/KQSer.cs:82-85 | one more template replaces (max, index) exactly when its similarity is greater |
| DigitSelection.Pick | KQSerCore/KQSer.cs:79 | the pick is 0 or a template index |
| DigitSelection.ScanIsScanned | KQSerCore/KQSer.cs:80-86 | the fold over the similarities keeps the loop's invariant |
| DigitSelection.PickIsChoice | KQSerCore/KQSer.cs:78-86 | the pick is the choice, and no other index is |
| DigitSelection.Digits | KQSerCore/KQSer.cs:76-89 | one character per glyph |
| DigitSelection.DigitsChoose | KQSerCore/KQSer.cs:76-89 | character i is a digit, and it is the choice among glyph i's top similarities against the ten templates |
| DigitSelection.SelectDigits | KQSerCore/KQSer.cs:75-89 | fails exactly when some glyph cannot be matched against some template; otherwise the string of the glyphs' choices, each taken over the top similarities ProcessImage reports |
| DigitSelection.SelectDigit | KQSerCore/KQSer.cs:78-87 | for one glyph: fails exactly when a template does not fit it; otherwise the pick over its top similarities against the ten templates |
| DigitSelection.Compare | KQSerCore/KQSer.cs:81-82 | ProcessImage with threshold 0.9 fails exactly when the template does not fit the glyph; otherwise the top similarity, 0 when nothing was reported |
| Recognition.Recognise | KQSerCore/KQSer.cs:61-89 | PreProcess, then Crop_Y, Crop_X, ToResizeAndCenterIt and the digit loop: fails exactly for a one-pixel-wide image, for the narrow run of Crop_Y, or when there is a glyph and the templates do not fit a 20 x 20 8bpp glyph; otherwise the preprocessed image is the binarised input, the glyphs are the bands of the strips resized and centred in order, and the result is the string of their choices over their top similarities |
| Recognition.RecogniseBinarised | KQSerCore/KQSer.cs:74-89 | the same pipeline over the preprocessed image: fails exactly on the narrow run or on templates that do not fit; otherwise the strips, bands and glyphs are the Segmented pieces and the digits are chosen over each glyph's top similarities |
| Recognition.CutGlyphs | KQSerCore/KQSer.cs:74 | Crop_X then ToResizeAndCenterIt over the strips never fails on 8bpp strips: the bands of every strip, in order, each resized to 20 x 20 and centred; a glyph can be matched exactly when the templates fit |
| Recognition.CentreBands | KQSerCore/KQSer.cs:74 | ToResizeAndCenterIt over 8bpp pieces succeeds, and every glyph is its piece centred in a 20 x 20 8bpp image |
| Recognition.MatchGlyphs | KQSerCore/KQSer.cs:75-89 | over glyphs that the templates all fit or all do not, the digit loop fails exactly when there is a glyph and the templates do not fit |
| Recognition.StripsOf | KQSerCore/KQSer.cs:74 | the strips Crop_Y returns are valid images of the preprocessed image's format |
| Recognition.BandsOf | KQSerCore/KQSer.cs:74 | the bands Crop_X returns, flattened, are valid 8bpp images |
| JsonFormatting.Spaces | WebAccessorCore/Utils/JsonForamtor.cs:69 | Append(' ', n) adds n spaces |
| JsonFormatting.JsonForamtor.constructor | WebAccessorCore/Utils/JsonForamtor.cs:84 | TabSize starts at 4 |
| JsonFormatting.JsonForamtor.Format | WebAccessorCore/Utils/JsonForamtor.cs:31-82 | the loop over the popped characters returns the formatted text or the exception Format throws |
| JsonFormatting.JsonForamtor.Pop | WebAccessorCore/Utils/JsonForamtor.cs:41-79 | one popped character: the switch, the Append and the next / right handling |
| JsonFormatting.JsonForamtor.CloseBrace | WebAccessorCore/Utils/JsonForamtor.cs:71-79 | the right branch reads sb at Length - TabSize * (1 + level) - 3 (IndexOutOfRange when that is off the builder), then either lays the '}' out on a new indented line or removes TabSize characters before it (ArgumentOutOfRange when that range is off the builder) |
| JsonFormatting.ThrownStays | WebAccessorCore/Utils/JsonForamtor.cs:40-80 | once an exception is thrown the rest of the input is never read |
| JsonFormatting.FormatLevel | WebAccessorCore/Utils/JsonForamtor.cs:43-50 | level is the number of '{' minus the number of '}' read |
| JsonFormatting.Strip | WebAccessorCore/Utils/JsonForamtor.cs:57-62 | taking out spaces, '\r' and '\n' never lengthens a text |
| JsonFormatting.StripAppend | WebAccessorCore/Utils/JsonForamtor.cs:57-62 | and distributes over concatenation |
| JsonFormatting.StripSpaces | WebAccessorCore/Utils/JsonForamtor.cs:69 | indentation is layout only |
| JsonFormatting.FormatPlain | WebAccessorCore/Utils/JsonForamtor.cs:31-82 | without a '}' (and TabSize >= 0) Format never throws, copies every non-layout character once and in order, and adds exactly one line break per '{', '[', ']' and ',' besides spaces |
| JsonFormatting.FormatInsertsOnlyLayout | WebAccessorCore/Utils/JsonForamtor.cs:31-82 | on every input, '}' included, no character other than a line break or a space occurs in the formatted text more often than in the input |
| JsonFormatting.StepCount | WebAccessorCore/Utils/JsonForamtor.cs:41-79 | one popped character adds at most itself, besides line breaks and spaces |
| JsonFormatting.CloseCount | WebAccessorCore/Utils/JsonForamtor.cs:71-79 | the '}' branch adds nothing but layout, whether it lays the brace out on a new line or takes characters back |
| JsonFormatting.NewLineCount | WebAccessorCore/Utils/JsonForamtor.cs:73-75 | inserting a line break and indentation before the brace adds only layout |
| JsonFormatting.TakeBackCount | WebAccessorCore/Utils/JsonForamtor.cs:76-77 | removing characters before the brace adds nothing |
| JsonFormatting.BreakCountSnoc | WebAccessorCore/Utils/JsonForamtor.cs:43-65 | one more character adds a line break exactly when it is '{', '[', ']' or ',' |
| JsonFormatting.PlainStep | WebAccessorCore/Utils/JsonForamtor.cs:41-79 | any character other than '}' keeps the run going with level >= 0, copies itself unless it is layout, and adds a line break only when it breaks |
| JsonFormatting.BreakStep | WebAccessorCore/Utils/JsonForamtor.cs:67-70 | after '{', '[', ']' or ',' only a line break and spaces are added |
| JsonFormatting.BreakAppends | WebAccessorCore/Utils/JsonForamtor.cs:67-70 | the break appends the character, a line break and the indentation, and '{' raises the level |
| JsonFormatting.StripLine | WebAccessorCore/Utils/JsonForamtor.cs:67-69 | a character followed by a line and indentation strips to that character |
| JsonFormatting.CountLine | WebAccessorCore/Utils/JsonForamtor.cs:67-69 | and adds exactly one line break |
| JsonFormatting.FormatEarlyClose | WebAccessorCore/Utils/JsonForamtor.cs:71-72 | a '}' before anything but layout throws IndexOutOfRange (the index read is -2 at TabSize 4, level -1) |
| JsonFormatting.LayoutOnly | WebAccessorCore/Utils/JsonForamtor.cs:57-62 | layout alone formats to the empty text |
| JsonFormatting.FormatObject | WebAccessorCore/Utils/JsonForamtor.cs:31-82 | {"a":1} formats to the object laid out over three lines with four-space indentation |
| JsonFormatting.FormatEatsBrackets | WebAccessorCore/Utils/JsonForamtor.cs:72-77 | "[]}" formats to "}": the take-back removes the brackets and their line breaks |
| JsonFormatting.FormatEatsText | WebAccessorCore/Utils/JsonForamtor.cs:72-77 | balanced "{{}abcde}" loses four characters of text to the take-back |
| JsonFormatting.PlainText | WebAccessorCore/Utils/JsonForamtor.cs:67 | characters that are neither layout nor brackets, braces or commas are appended as they come |
| JsonFormatting.NestedClose | WebAccessorCore/Utils/JsonForamtor.cs:71-76 | the first '}' of "{{}" finds no bracket and lays the brace out on a line of its own |
| JsonFormatting.RunSnoc | WebAccessorCore/Utils/JsonForamtor.cs:40-41 | the loop takes one step per character |
| JsonRequestData.Members | WebAccessorCore/ApiClient/JsonRequestDataFormator.cs:9-15 | one member per pair, in order |
| JsonRequestData.GetData | WebAccessorCore/ApiClient/JsonRequestDataFormator.cs:6-18 | the body is a JSON object of the members joined by commas, or "}" when there are no pairs |
| JsonRequestData.JoinSnoc | WebAccessorCore/ApiClient/JsonRequestDataFormator.cs:14-16 | joining one more member adds a comma and that member |
| JsonRequestData.AppendedIsJoin | WebAccessorCore/ApiClient/JsonRequestDataFormator.cs:9-16 | the comma after the last member is exactly what Remove takes away |
| JsonRequestData.RequestBodyLength | WebAccessorCore/ApiClient/JsonRequestDataFormator.cs:7-18 | with at least one pair the body is 1 + sum(|key| + |value| + 4) characters long |
| JsonRequestData.AppendedLength | WebAccessorCore/ApiClient/JsonRequestDataFormator.cs:9-15 | each pair appends |key| + |value| + 4 characters |
| JsonRequestData.MemberAt | WebAccessorCore/ApiClient/JsonRequestDataFormator.cs:9-17 | member i (key quoted, value as given) sits after the earlier members, followed by a comma, or by '}' when it is the last |
| JsonRequestData.MemberInAppended | WebAccessorCore/ApiClient/JsonRequestDataFormator.cs:9-15 | member i and its comma follow the first i members in what the loop appends, and more follows exactly when i is not the last |
| JsonRequestData.BodyIsAppended | WebAccessorCore/ApiClient/JsonRequestDataFormator.cs:16-17 | with at least one pair the body is '{', the appended text without its last comma, and '}' |
| JsonRequestData.AppendedSnoc | WebAccessorCore/ApiClient/JsonRequestDataFormator.cs:9-15 | one more pair appends its member and a comma |
| JsonRequestData.AppendedPrefix | WebAccessorCore/ApiClient/JsonRequestDataFormator.cs:9-15 | what is appended for the first n pairs is a prefix of what is appended for all |

## Left out

- Bitmap interop: `LockBits`, `ToManagedImage`/`FromManagedImage`, the `Apply(Bitmap)`/`Apply(BitmapData)` overloads and palettes are foreign library calls; a `Bitmap` is modelled by the `UnmanagedImage` holding its pixels.
- Preprocess.PreProcess: starts from the 24bpp image; the `Graphics.DrawImage` copy into it (Main.cs lines 31-34) is a GDI+ call and is not modelled.
- Native memory: allocation, `Dispose`, finalisers, GC pressure and the `memcpy`/`memset` P/Invoke are modelled as sequence copy and fill.
- Imaging.UnmanagedImage.SetPixel: the luma written for grey formats is computed in floating point by the source; the model takes it as a parameter `gray`.
- Imaging.UnmanagedImage.SetPixels: takes the luma as a parameter for the same reason.
- GrayscaleFilter.ApplyTo: the 16-bit path (48bpp and 64bpp sources) computes in floating point and is not modelled; the contract states the pixels only for the 8-bit path and leaves the destination unchanged on the other.
- GrayscaleFilter.Apply: states the pixels only for 24bpp and 32bpp sources, for the same reason.
- BlobInfo.CollectObjectsInfo: fullness, centre of gravity, colour means and their standard deviations are floating point and are not collected; a blob is its id, rectangle and area.
- BlobSort.SortBlobs: List.Sort and Array.Sort are unstable; the model promises only order by the comparer and a permutation, nothing about the relative order of ties.
- BlobSort.CompareIsKeyDifference: the comparer's int subtraction is modelled without 32-bit wrap-around; it could only wrap for images of more than about 21,000 rows or columns, or of more than 2^31 pixels.
- Labelling.LabelPass: the capacity of the union-find array (`((w / 2) + 1) * ((h / 2) + 1) + 1` entries) is not modelled; the map is a growing sequence, so the claim that provisional labels always fit in it is not proved.
- BlobCounting.BlobCounter.GetObjects: requires that the blobs lie inside the image the caller passes; the source trusts the caller the same way but would read out of bounds with another image.
- BlobCounting.BlobCounter.ExtractBlobsImage: requires the blob's rectangle to lie inside the image, for the same reason.
- BlobCounting.BlobCounter.GetBlobsLeftAndRightEdges: requires the blob's rectangle to lie inside the processed image, for the same reason; so do GetBlobsTopAndBottomEdges and GetBlobsEdgePoints.
- Pointer arithmetic is modelled by coordinates and flat offsets `y * stride + x * pixelSize + c`; aliasing between source and destination buffers is excluded where the source copies between distinct images.
- BlobsFilteringFilter: the parameterless `BlobsFiltering()` constructor is not modelled separately; it is `BySize(1, 1, int.MaxValue, int.MaxValue, false)`.
- TemplateMatching: similarities and the threshold are exact reals rather than 32-bit floats; the float rounding of `similarityThreshold * maxDiff` before the `(int)` cast and of `sim / maxDiff` is not modelled.
- DigitSelection.SelectDigits: the templates are a parameter; loading them from resources, fetching the CAPTCHA over the network and turning exceptions into strings are I/O and are not modelled.
- JsonFormatting.JsonForamtor.Format: the unused `Regex.Matches` call is not modelled; `TabSize * level` is an unbounded integer, without the 32-bit overflow a huge TabSize would cause.
- JsonFormatting: the `Singleton` (a `Lazy<JsonForamtor>`) is not modelled; the constructor is.
- JsonRequestData.GetData: the `encoding` and `url` parameters are never read by the source and are dropped.
