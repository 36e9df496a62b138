# PDF image extraction, modelled in Dafny

This is a model of `index.js` from extract-images. The script walks the
object index of a PDF document and collects every image XObject (section
8.9.5 of ISO 32000-1) into a record. It then links images to their soft
masks (section 11.6.5.3 of ISO 32000-1) and writes one file per image that
is not itself a mask:

- JPEG images (filter `DCTDecode`, section 7.4.8 of ISO 32000-1) are written
  byte for byte.
- Every other image is inflated and re-encoded as PNG. Its pixels are
  rebuilt by a loop over the inflated colour and alpha streams, choosing
  one of the four PNG colour types 0, 2, 4 and 6 (section 11.2.2 of the PNG
  specification, W3C Second Edition).

Modules, in dependency order:

- `Wrappers` (`wrappers.dfy`): `Option` and `Result`.
- `Bytes` (`bytes.dfy`): `Uint8Array` reads and the decimal text of counters.
  A read outside the array gives 0, because every later use of that
  `undefined` turns it into 0.
- `ColorTypes` (`color_types.dfy`): the `PngColorTypes` and
  `ComponentsPerPixelOfColorType` tables, and the colour-type choice.
- `BitReader` (`bit_reader.dfy`): `readBitAtOffsetOfByte` and
  `readBitAtOffsetOfArray`, proved against an arithmetic definition of "bit
  `o` of `x`".
- `Reconstruction` (`reconstruction.dfy`): the pixel loop of `savePng`.
  - It is an imperative method over a fresh zero-filled `array<byte>`.
  - It is proved equal to a specification function `Reconstructed` that
    gives the final byte at every index.
  - Writes outside the buffer are dropped, as they are on a typed array.
- `Descriptors` (`descriptors.dfy`): the `forEach` over the object index,
  which turns image streams into records and numbers unnamed ones with
  `objectIdx`.
- `MaskLinking` (`mask_linking.dfy`): the in-place pass that marks soft masks
  as alpha layers, as a method over an `array<ImageRecord>`.
- `Logging` (`logging.dfy`): the report printed about every record, reduced
  to its one effect on the run: a record without a ColorSpace makes it throw.
- `Emission` (`emission.dfy`): the selection and numbering of output files,
  `savePng` up to the encoder, and the whole run `ExtractImages`.
- `Scenarios` (`scenarios.dfy`): small concrete runs.

Behaviours of the code worth noting, all reproduced by the model:

- A colour or alpha stream shorter than the buffer needs is padded with
  zeros. No error is raised.
- A 1 by 1 gray image comes out black. The loop's only write lands at
  index 1, past the end of the buffer.
- Gray images read one bit per pixel whatever `BitsPerComponent` says. The
  bit reader uses byte index `length - floor(i / 8)`, so bits 0 to 7 always
  read as 0.
- `image.alphaLayer = image` links an image to itself. So the alpha stream
  of every linked image is its own inflated data, not the mask's.
- JPEG data is written under the name `out<k>.png` like everything else.

## Model

| member | source | states |
|---|---|---|
| Bytes.At | index.js:160-162 | a read inside the stream gives the element; any index outside it gives 0 |
| Bytes.Decimal | index.js:40 | the counter's text is a non-empty run of digits with no leading zero |
| Bytes.DecimalRoundTrip | index.js:40 | reading the decimal text back gives the number |
| Bytes.DecimalInjective | index.js:203 | distinct counters have distinct decimal texts |
| ColorTypes.ColorType.Code | index.js:94-99 | the four colour types carry the IHDR codes 0, 2, 4, 6 |
| ColorTypes.ColorType.Components | index.js:101-106 | samples per pixel lie between 1 and 4: Rgb 3, Grayscale 1, RgbAlpha 4, GrayscaleAlpha 2 |
| ColorTypes.ColorType.HasAlpha | index.js:138-141 | `inputHasAlpha` holds exactly for the colour types whose code is 4 or more |
| ColorTypes.FromCode | index.js:94-99 | a code names a colour type exactly when it is 0, 2, 4 or 6, and that type has that code |
| ColorTypes.FromCodeRoundTrip | index.js:94-99 | looking up a colour type's code gives the colour type back |
| ColorTypes.ChooseColorType | index.js:129-133 | the chosen type has alpha exactly when an alpha stream is present |
| ColorTypes.ChosenCodeBits | index.js:129-133 | code bit 2 is set exactly for colour, bit 4 exactly for alpha; samples per pixel are 1 or 3, plus 1 with alpha |
| ColorTypes.ChooseColorTypeBijective | index.js:129-133 | the four (gray, alpha) inputs give four different colour types, and every type is chosen by one of them |
| BitReader.ShiftMaskIsNthBit | index.js:109 | `(b >> o) & 1` is zero exactly when bit `o` of `b`'s value is zero |
| BitReader.BitOfByte | index.js:108-111 | the result is 0 or 1 and is bit `offset` of the byte, counting from the least significant bit |
| BitReader.ByteFromBits | index.js:108-111 | the eight bits read from a byte, weighted by place value, sum to the byte |
| BitReader.ReadBit | index.js:113-118 | the result is 0 or 1; bits 0 to 7 and bits past byte index 0 read 0; otherwise bit `i % 8` of the byte `i / 8` places from the end of the stream |
| BitReader.ReadBitOfByte | index.js:114-117 | bit `o` of the byte `m` places from the end is read at bit index `8m + o` |
| Reconstruction.Expand | index.js:171-173 | a bit becomes 0x00 or 0xFF, and 0xFF exactly when it is set |
| Reconstruction.PixelByte | index.js:158-182 | the byte an index ends with; for the gray types index 0 is 0, and every Grayscale byte is 0x00 or 0xFF |
| Reconstruction.ColorConsumed | index.js:154-181 | the `colorPixelIdx` cursor never passes `pixelIdx` |
| Reconstruction.ColorConsumedPerPixel | index.js:154-181 | after whole pixels the cursor has moved 3 bytes per pixel for the colour types and 1 bit per pixel for the gray types |
| Reconstruction.Reconstructed | index.js:151-152 | the buffer holds exactly width · height · components bytes |
| Reconstruction.Store | index.js:158-182 | a store inside the buffer updates that one byte; a store outside changes nothing |
| Reconstruction.LengthIsMultiple | index.js:151-152 | the buffer length is a whole number of pixels |
| Reconstruction.Reconstruct | index.js:151-186 | the bytes produced for a width by height image equal `Reconstructed` |
| Reconstruction.FillPixels | index.js:154-186 | the loop over a zeroed n-byte buffer leaves every index it wrote as `PixelByte` gives it and every other index 0 |
| Reconstruction.Iteration | index.js:158-186 | one pass of the loop body advances `pixelIdx` by one pixel, keeps `colorPixelIdx` equal to the colour consumed so far, and moves the buffer to the state after the next pixel |
| Reconstruction.CursorStep | index.js:154-181 | a pixel that starts inside the buffer ends inside it, and the colour cursor moves 3 bytes for the colour types and 1 bit for the gray types |
| Reconstruction.RgbIteration | index.js:159-163 | one Rgb iteration moves the buffer from the state after `p` bytes to the state after `p + 3` |
| Reconstruction.RgbAlphaIteration | index.js:164-169 | one RgbAlpha iteration moves the buffer from the state after `p` bytes to the state after `p + 4` |
| Reconstruction.GrayscaleIteration | index.js:170-175 | one Grayscale iteration moves the buffer from the state after `p` bytes to the state after `p + 1` |
| Reconstruction.GrayscaleAlphaIteration | index.js:176-182 | one GrayscaleAlpha iteration moves the buffer from the state after `p` bytes to the state after `p + 2` |
| Reconstruction.RgbStep | index.js:159-163 | the Rgb iteration at `p` writes colour bytes `p` to `p + 2` at indices `p` to `p + 2` and nothing else |
| Reconstruction.RgbAlphaStep | index.js:164-169 | the RgbAlpha iteration at `p` writes three colour bytes and the alpha byte at the last colour index, and nothing else |
| Reconstruction.RgbAlphaByte | index.js:165-168 | byte `r` of the RgbAlpha pixel at `p` is colour byte `3p/4 + r` for `r < 3` and alpha byte `3p/4 + 2` for `r = 3` |
| Reconstruction.PartialFrame | index.js:154-186 | two stages of the loop agree on every index both have written or both have left at zero |
| Reconstruction.GrayscaleStep | index.js:170-175 | the Grayscale iteration at `p` writes the widened bit `p` at index `n - p`, dropped when `p` is 0 |
| Reconstruction.GrayscaleAlphaStep | index.js:176-182 | the GrayscaleAlpha iteration at `p` writes the widened bit `p / 2` at `n - p` and alpha byte `p / 2` at `n - p - 1` |
| Reconstruction.RgbIsVerbatim | index.js:158-163 | an Rgb buffer is the colour stream byte for byte, zero past its end, and a prefix of it when the stream is long enough |
| Reconstruction.RgbAlphaPixel | index.js:164-169 | pixel `k` holds colour bytes `3k` to `3k + 2` and, as alpha, alpha byte `3k + 2` |
| Reconstruction.GrayscalePixel | index.js:170-175 | index 0 is 0, and the index `k` places from the end is 0xFF exactly when bit `k` is 1 and 0x00 exactly when it is 0 |
| Reconstruction.GrayscaleIsBilevel | index.js:170-175 | every byte of a Grayscale buffer is 0x00 or 0xFF |
| Reconstruction.GrayscalePixelOfByte | index.js:170-175 | bit `o` of the byte `m` places from the end of the stream lands `8m + o` places from the end of the buffer |
| Reconstruction.GrayscaleTailIsBlack | index.js:170-175 | index 0 and the last seven indices of a Grayscale buffer are 0 whatever the stream holds |
| Reconstruction.GrayscaleAlphaPixel | index.js:176-182 | index 0 is 0; alpha byte `k` is `2k + 1` places from the end; for `k >= 1` the widened bit `k` is `2k` places from the end |
| Descriptors.KindOf | index.js:45 | a record is JPEG exactly when its filter is `DCTDecode` |
| Descriptors.IsImage | index.js:21-35 | only streams can be images |
| Descriptors.NameOf | index.js:40 | the name is the `Name` key when present, else `Object` followed by the counter |
| Descriptors.Classify | index.js:35-46 | non-images give no record; an image lacking Width, Height or BitsPerComponent is an error, and otherwise every record field comes from the stream, with both flags false |
| Descriptors.Collect | index.js:18-48 | a collection holds at most one record per indexed object, none of them flagged yet; it fails only on a missing attribute |
| Descriptors.CollectImages | index.js:18-48 | the loop, counting every indexed object before skipping non-streams, returns `Collect` |
| Descriptors.CollectStopsAtError | index.js:41-43 | once a prefix of the index fails, the whole collection fails with the same error |
| Descriptors.CollectSound | index.js:35-46 | every record is the classification of an image stream at some position `k`, named after `k + 1` |
| Descriptors.CollectComplete | index.js:35-46 | every image stream of the index has a record among those collected |
| Descriptors.MissingAttributeAborts | index.js:41-43 | an image anywhere in the index lacking Width, Height or BitsPerComponent makes collection fail |
| Descriptors.ImagePositions | index.js:18-35 | the positions of image streams in the index, strictly increasing |
| Descriptors.ImagePositionsComplete | index.js:18-35 | every image stream's position is listed |
| Descriptors.CollectInOrder | index.js:18-48 | there is exactly one record per image stream, and record `i` is the classification of the `i`-th image stream, so index order is kept |
| MaskLinking.FindByRef | index.js:53 | the result is the first index whose reference matches, or none when no reference matches |
| MaskLinking.NeedsMask | index.js:52 | only PNG-kind records take part in linking |
| MaskLinking.Link | index.js:51-57 | a successful pass keeps the number of records; a failed one reports a missing mask |
| MaskLinking.LinkedUpTo | index.js:51-57 | the partly linked records are as many as the records |
| MaskLinking.FirstUnresolved | index.js:53-54 | the result is the first record whose mask reference matches no record |
| MaskLinking.FindByRefSameRefs | index.js:53 | records with the same references are searched alike |
| MaskLinking.LinkedKeepsRefs | index.js:53 | linking keeps every reference, so lookups mid-pass find what they would find on the original |
| MaskLinking.LinkMasks | index.js:51-57 | the pass succeeds exactly when `Link` does, and leaves `Link`'s result; on failure it returns `Link`'s error with the records before the failing one already linked |
| MaskLinking.LinkStep | index.js:52-55 | an iteration over a PNG image with a mask marks the found record as an alpha layer and the image as linked |
| MaskLinking.LinkImage | index.js:52-55 | linking one PNG image with a mask succeeds exactly when its reference is found, then moves the records to the state after that image; otherwise nothing changes |
| MaskLinking.MaskOfPrefixStep | index.js:53-54 | the record found for image `i` becomes a mask of the first `i + 1` images, and no other record changes its mask status |
| MaskLinking.NoLinkStep | index.js:52 | an iteration over any other record changes nothing |
| MaskLinking.LinkMarksEveryMask | index.js:51-57 | after the pass every PNG image with a mask is linked and some record with the mask's reference is an alpha layer |
| MaskLinking.LinkChangesOnlyFlags | index.js:51-57 | only the two flags change; a new alpha layer is named as a mask by some PNG image; only PNG images with a mask become linked; JPEG records are never linked |
| MaskLinking.LinkFailsExactlyOnMissingMask | index.js:53-54 | the pass fails exactly when some PNG image's mask reference matches no record, and the error names such an image |
| MaskLinking.LinkIdempotent | index.js:51-57 | running the pass on its own result gives the same result |
| Logging.FirstMissingColorSpace | index.js:69-76 | the first record without a colour space, every record before it having one; none exactly when all have one |
| Logging.LogImages | index.js:69-91 | the report over the array in order stops at the first record without a colour space, as `FirstMissingColorSpace` gives it |
| Emission.SavePng | index.js:122-152 | the encoder input has the image's dimensions, alpha exactly when linked, and width · height · components pixel bytes |
| Emission.IsGrayscale | index.js:122 | only an image with a ColorSpace can be gray |
| Emission.PngOf | index.js:122-152 | the encoder input has the image's dimensions, alpha exactly when linked, and width · height · components pixel bytes |
| Emission.Render | index.js:202 | a JPEG record gives its stored bytes; a PNG-kind record gives encoder input with its dimensions |
| Emission.FileName | index.js:203 | the name is `out`, the counter in decimal, then `.png` |
| Emission.FileNameInjective | index.js:203 | distinct counters give distinct file names |
| Emission.OutputFiles | index.js:199-206 | one file per record that is not an alpha layer |
| Emission.Emitted | index.js:201 | no more records than given, and none of them an alpha layer |
| Emission.EmitAll | index.js:199-206 | the loop, with `idx` counting the files, produces `OutputFiles` |
| Emission.EmittedExactlyNonMasks | index.js:201 | a record is written out exactly when it is among the records and is not an alpha layer |
| Emission.EmittedAppend | index.js:200-206 | the written records of a concatenation are those of each part in order, so encounter order is kept |
| Emission.OutputNamesDistinct | index.js:203 | no two files of a run share a name |
| Emission.JpegPassesThrough | index.js:202 | the `k`-th file of a JPEG record is `out<k+1>.png` holding its stored bytes unchanged |
| Emission.SelfAlpha | index.js:124-126 | a linked colour image's alpha byte repeats the pixel's third colour byte; a linked gray image's alpha byte `k` is byte `k` of its own stream |
| Emission.ExtractImages | index.js:18-206 | the run of collection, linking, the report and emission returns `Extract` |
| Emission.Extract | index.js:199-206 | a successful run writes at most one file per indexed object, the `k`-th named `out<k>.png` |
| Emission.ColorSpaceAborts | index.js:69-76 | after collection and linking succeed, the run succeeds exactly when every record has a ColorSpace, and otherwise fails naming the first record without one |
| Emission.ExtractNeedsColorSpaces | index.js:69-76 | after collection and linking succeed, the run succeeds exactly when every image stream of the index has a ColorSpace |
| Emission.MasksAreNotWritten | index.js:199-206 | with distinct references in the index, no written record is named as a mask by any PNG image |
| Emission.CollectDistinctRefs | index.js:18-46 | records collected from an index with distinct references have distinct references |
| Scenarios.RgbTwoPixels | index.js:158-163 | a 2 by 1 Rgb image is its six colour bytes |
| Scenarios.GrayOnePixelIsBlack | index.js:170-175 | a 1 by 1 gray image is `[0x00]` whatever its byte |
| Scenarios.GraySixteenPixels | index.js:170-175 | a 16 by 1 gray image from `[0xFF]` is white at indices 1 to 8 and black elsewhere |
| Scenarios.RgbAlphaTakesThirdAlphaByte | index.js:164-169 | a 1 by 1 RgbAlpha image takes alpha byte 2, past the end of a one-byte alpha stream, as 0 |
| Scenarios.LinkedRgbPixelAlphaIsBlue | index.js:124-126 | a linked 1 by 1 colour image `[10, 20, 30]` is encoded as `[10, 20, 30, 30]` |
| Scenarios.MissingMaskAbortsRun | index.js:53-54 | an image whose mask is not in the index aborts the run with that image's name |
| Scenarios.MissingColorSpaceAbortsRun | index.js:76 | a JPEG image stream without a ColorSpace aborts the run with `Object1`, although it would have been written unchanged |
| Scenarios.ThreeCollected | index.js:18-48 | three image streams give three records named `Object1` to `Object3` |
| Scenarios.ThreeLinked | index.js:51-57 | the first image is linked and the second, its mask, is marked as an alpha layer |
| Scenarios.TwoEmitted | index.js:201 | of three records where the middle one is an alpha layer, the other two are written |
| Scenarios.TwoFiles | index.js:199-206 | of three records where the middle one is an alpha layer, the files are `out1.png` and `out2.png` from the other two |
| Scenarios.MaskIsSkipped | index.js:199-206 | image, mask and JPEG give `out1.png` as PNG and `out2.png` holding the JPEG bytes |

## Left out

- Loading the PDF and the dictionary lookups through pdf-lib (index.js:5-9,
  23-33) are not modelled. Each indexed object comes in with its attributes
  already looked up: Width, Height and BitsPerComponent as numbers, Name
  as its key, and ColorSpace, Subtype and Filter as name values.
- A Width, Height or BitsPerComponent present but not a number (`.number`
  then gives `undefined`) is not modelled. Those attributes are either a
  natural number or absent.
- References are compared by value. pdf-lib hands out one object per
  reference, so the source's `===` agrees.
- The `SMask` reference is taken as stored in the dictionary and is not
  followed.
- `pako.inflate` (index.js:123-126) is a total function parameter, so the
  model describes only runs in which every inflation succeeds. Every image
  whose Filter is not exactly `DCTDecode` is PNG-kind (index.js:45). So
  streams that are not zlib data also reach `pako.inflate`: no Filter,
  LZWDecode, RunLengthDecode, CCITTFaxDecode, JBIG2Decode, JPXDecode. It
  fails on those. The failure rejects `savePng` and ends the loop of
  index.js:200-206 at that image. The files written before it stay; no
  later file is written.
- Emission.OutputFiles: the files of a run in which every inflation
  succeeds. A run that stops at a failed inflation writes only a prefix of
  this list, and the model does not say which.
- Emission.EmitAll: proved equal to `OutputFiles`, so it too covers only
  runs in which every inflation succeeds.
- Emission.Extract: covers only runs in which every inflation succeeds.
  The errors that abort a run before any file is written are modelled:
  collection, linking, and an image without a ColorSpace reaching the
  report. An inflation failure part-way through writing is not.
- The pngjs encoder and the Promise and stream plumbing around it
  (index.js:143-149, 188-193) are not modelled. A PNG file is represented by
  what is handed to the encoder: colour type, dimensions and pixel buffer.
- `colorByteSize` (index.js:135-137) is the constant 1, so width and height
  are used as they are.
- `inputHasAlpha` (index.js:138-141) is stated as `ColorType.HasAlpha` in
  the contract of `SavePng` and is not a separate value.
- The "Unknown colorType" error (index.js:183-185) is not modelled. The
  colour type is one of the four values, so that branch cannot run.
- `rimraf`, `fs.writeFileSync` and the error path of `rimraf`
  (index.js:196-198) are not modelled. The model gives the list of files
  to write, each with its name and content.
- Creating a page and `addImageObject` (index.js:60-65) are side effects on
  the document that no later step reads.
- The text the console logging prints (index.js:68-92) is not modelled.
  Its one effect on the run is: `image.colorSpace.toString()` (index.js:76)
  throws for a record without a ColorSpace, such as a stencil mask or a
  JPX image. That is modelled by `Logging.LogImages` and the
  `MissingColorSpace` error.
- The program's arguments and the output directory path are left out.
- Emission.SavePng: stated against the encoder's input rather than the PNG
  bytes, because the encoder is not part of this model.
